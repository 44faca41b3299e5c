# TF-IDF corpus preparation: a Dafny model

The system reads a corpus of HTML articles and ranks them against queries by
TF-IDF cosine similarity. Before any scoring, `tf_idf.py` prepares the corpus
in three small steps, and this project models and proves those:

- **Tail trimmer** (`remove_tail`, module `TailTrimmer`). It cuts an
  article's trailing control stamp, such as "CA581203 JB March 22, 1978
  8:28 PM". The text is cut just before the leftmost match of `CA\d{3,}`. If
  nothing matches, the text comes back unchanged.
- **Token filter/normaliser** (`preprocess_text`, module `Preprocess`).
  spaCy is abstracted to a sequence of token records. Each record carries
  `is_stop`, `is_alpha`, `like_num`, `pos_`, `lemma_` (field `lemmaForm`,
  as `lemma` is a Dafny keyword) and `text`. The step
  drops stop words and non-alphabetic tokens. Each token it keeps becomes
  its lemma, except that a number-like token or a proper noun (`PROPN`)
  keeps its surface text. Order and duplicates are preserved.
- **Document ids** (module `DocIds`). A directory entry is a document only
  if its name ends in ".html". Its id is what `os.path.splitext` leaves
  once the extension is split off.

`outcomes.dfy` holds the `Option` and `Result` types shared by the modules.

Two details of the code are easy to misread, and the model follows the
code on both:

- The code never lower-cases anything. A kept token contributes its lemma,
  except that a number-like token or a proper noun contributes its surface
  text. `Preprocess.WorkedExample` shows both.
- The stamp pattern names the literal letters "CA" followed by three or
  more digits. No other two-letter code matches.

Regex digits (`\d`) are modelled as the ASCII digits '0' to '9'.
`os.path.splitext` is modelled after the POSIX behaviour of Python's
standard library, which is not part of this model. The split happens at the
last '.' of the final path component. Dots that begin that component do not
start an extension.

## Model

| member | source | states |
|---|---|---|
| TailTrimmer.SearchFrom | tf_idf.py:30-31 | Leftmost-first search from position i. A result is a match start at or after i with no match start between i and it. No result means no match starts at or after i. |
| TailTrimmer.Search | tf_idf.py:30-31 | `re.search` finds a match exactly when the pattern occurs somewhere, and the position it returns is the leftmost match start. |
| TailTrimmer.RemoveTail | tf_idf.py:27-39 | The result is a prefix of the input. It equals the input when there is no match. It is strictly shorter exactly when there is a match, and then the pattern matches at its end. No match starts anywhere before its end. |
| TailTrimmer.RemoveTailIsTheTrim | tf_idf.py:30-39 | Independent characterisation, both directions. A string is a prefix with no match starting inside it, ending at the end of the text or at a match start, if and only if it is RemoveTail's result. |
| TailTrimmer.RemoveTailLeavesNoMatch | tf_idf.py:30-36 | The trimmed text contains no occurrence of `CA` followed by three digits. |
| TailTrimmer.RemoveTailIdempotent | tf_idf.py:27-39 | Trimming twice gives the same text as trimming once. |
| TailTrimmer.RemoveTailIgnoresSuffix | tf_idf.py:30-36 | Appending any text after a string that already contains a stamp leaves its trim unchanged. |
| TailTrimmer.AsWrittenRaisesInsteadOfTrimming | tf_idf.py:30-31 | On a concrete stamped text, the function as written raises, while the intended function returns the text before the stamp. |
| Preprocess.Normalise | tf_idf.py:47-65 | Reference filter-map over the tokens. The output is never longer than the input. |
| Preprocess.PreprocessText | tf_idf.py:42-65 | The loop with its nested tests computes exactly the reference filter-map of the token sequence, so every property proved of that map below holds of `preprocess_text`. |
| Preprocess.NormaliseAppend | tf_idf.py:47-65 | Each token is processed on its own. The output for a concatenation is the concatenation of the outputs. |
| Preprocess.DroppedTokenEmitsNothing | tf_idf.py:50-56 | Removing a stop word or non-alphabetic token from anywhere in the input leaves the output unchanged. |
| Preprocess.KeptTokenEmitsItsTerm | tf_idf.py:56-63 | A kept token emits exactly one string, in its place between what the tokens before and after it emit. The string is its lemma unless the token is number-like or `PROPN`, in which case it is the token's text. |
| Preprocess.KeptTokenAtItsSlot | tf_idf.py:56-63 | A kept token's string appears in the output at position "number of strings emitted by the tokens before it". |
| Preprocess.SlotsIncrease | tf_idf.py:47-65 | Output positions grow with input positions, and strictly so past a kept token. Kept tokens therefore keep their relative order, and equal strings from different tokens are not merged. |
| Preprocess.EveryOutputFromAKeptToken | tf_idf.py:47-65 | Every output position holds the string of the one kept token whose slot it is. |
| Preprocess.OutputMembership | tf_idf.py:50-63 | Both directions: a string occurs in the output if and only if some kept token emits it. |
| Preprocess.OutputLengthCountsKeptTokens | tf_idf.py:47-65 | The output length equals the number of input positions holding a kept token. |
| Preprocess.WorkedExample | tf_idf.py:52-63 | Concrete sentence: the stop word and the non-alphabetic number are dropped, the proper noun and the spelled number keep their surface text, and a repeated noun appears twice, without lower-casing. |
| DocIds.SplitExt | tf_idf.py:79-81 | `os.path.splitext`: root followed by extension gives back the name. The extension is either empty, or a '.' followed by text with no further '.' and no '/'. |
| DocIds.SplitExtFindsExtension | tf_idf.py:79-81 | Both directions: `os.path.splitext` returns a non-empty extension exactly when, inside the final path component, some dot follows a character that is not a dot. |
| DocIds.DocId | tf_idf.py:77-81 | An entry yields an id exactly when its name ends in ".html", and the id is a prefix of the name. |
| DocIds.DocIdOfHtmlName | tf_idf.py:77-81 | For a plain name ending in ".html", the id is the name minus its final ".html". The exception is when everything before ".html" is dots; then the id is the whole name. |
| DocIds.DocIdRoundTrip | tf_idf.py:77-81 | For every plain name that is not all dots, the file "<id>.html" loads under exactly that id. |
| DocIds.OtherEntriesSkipped | tf_idf.py:77 | "notes.txt", "page.htm" and "index.html.bak" are skipped. |
| DocIds.StemExamples | tf_idf.py:79-81 | "CA581203.html" gives "CA581203", and "a.b.html" gives "a.b": only the final extension is removed. |
| DocIds.LeadingDotExamples | tf_idf.py:79-81 | ".html" and "..html" keep their whole name as the id. |
| DocIds.DocIdInjective | tf_idf.py:79-83 | Two plain ".html" names whose parts before ".html" are not all dots get the same id only if they are the same name, so they never share a `documents` key. |
| DocIds.DocIdCollision | tf_idf.py:79-83 | The distinct entries ".html.html" and ".html" both get the id ".html", so they share one `documents` key. |
| DocIds.StemId | tf_idf.py:77-83 | Corrected id: an entry yields an id exactly when its name ends in ".html", and the id followed by ".html" gives back the name. |
| DocIds.StemIdAgreesWithDocId | tf_idf.py:79-81 | On plain names, the corrected id equals the loader's id except when the part before ".html" is all dots. |

## Left out

- Loading or installing the spaCy model (tf_idf.py:8-14) is left out. It is a process-wide external side effect.
- `get_string_from_html` (tf_idf.py:17-24) is left out. It is file I/O plus a call into BeautifulSoup.
- How spaCy decides `is_stop`, `is_alpha`, `like_num`, `pos_` and `lemma_` (tf_idf.py:44) is not modelled. These arrive as given fields of each token record.
- The loader loop (tf_idf.py:69-83) is left out: `os.listdir`, its filesystem-dependent order and the global `documents` dict. Only the per-entry decision and id derivation are modelled. Directory entries contain no '/', so the lemmas about plain names assume that.
- The commented-out id extraction (tf_idf.py:85-96) is dead code.
- TF-IDF vectorisation, cosine similarity, top-100 ranking and output writing are not in the file. They would also be floating-point work inside external libraries.
- TailTrimmer.MatchAt: reads `\d` as the ASCII digits only. Python's `\d` on `str` also accepts other Unicode decimal digits.

## Findings

| source | as written | input that shows it | evidently intended | confidence | as-written member | corrected member |
|---|---|---|---|---|---|---|
| tf_idf.py:30-39 | `remove_tail` calls `re.compile` without importing `re`, then reads an undefined name `string` instead of its parameter `text`. Every call raises NameError. | "Budget talks CA581203 JB" raises NameError instead of giving "Budget talks " | Search `text` and return the part before the leftmost match, or `text` itself | high (not executed) | TailTrimmer.RemoveTailAsWritten, TailTrimmer.AsWrittenRaisesInsteadOfTrimming | TailTrimmer.RemoveTail |
| tf_idf.py:79-83 | The id is `os.path.splitext(filename)[0]`. Because `splitext` treats leading dots as part of the name, ".html" keeps its whole name as id, and `documents[doc_id] = []` puts it under the same key as ".html.html" | The entries ".html" and ".html.html" both get id ".html" | Each ".html" entry gets its own id: the name minus its final ".html" | medium (not executed) | DocIds.DocId, DocIds.DocIdCollision | DocIds.StemId |
