/** The tail trimmer: cuts an article's trailing control stamp (for example
    "CA581203 JB March 22, 1978  8:28 PM") off the extracted text. The stamp
    starts at the leftmost occurrence of the regular expression `CA\d{3,}`. */
module TailTrimmer {
  import opened Outcomes

  /** A decimal digit; the model reads the regex class `\d` as ASCII only. */
  predicate IsDigit(c: char) {
    '0' <= c <= '9'
  }

  /** `CA\d{3,}` matches in `s` starting at position `i`. The greedy `{3,}`
      only lengthens a match, so a match starts at `i` exactly when "CA" and
      three digits start there. */
  predicate MatchAt(s: string, i: nat) {
    && i + 5 <= |s|
    && s[i] == 'C' && s[i + 1] == 'A'
    && IsDigit(s[i + 2]) && IsDigit(s[i + 3]) && IsDigit(s[i + 4])
  }

  /** The pattern occurs somewhere in `s`. */
  predicate HasMatch(s: string) {
    exists i: nat :: i < |s| && MatchAt(s, i)
  }

  /** Leftmost-first search from position `i` on, as `re.search` scans. */
  function SearchFrom(s: string, i: nat): (r: Option<nat>)
    requires i <= |s|
    ensures r.Some? ==> i <= r.value < |s| && MatchAt(s, r.value)
    ensures r.Some? ==> forall j: nat :: i <= j < r.value ==> !MatchAt(s, j)
    ensures r.None? ==> forall j: nat :: i <= j < |s| ==> !MatchAt(s, j)
    decreases |s| - i
  {
    if i == |s| then None
    else if MatchAt(s, i) then Some(i)
    else SearchFrom(s, i + 1)
  }

  /** The start of the leftmost match in `s`, if there is one. */
  function Search(s: string): (r: Option<nat>)
    ensures r.Some? <==> HasMatch(s)
    ensures r.Some? ==> r.value < |s| && MatchAt(s, r.value)
    ensures r.Some? ==> forall j: nat :: j < r.value ==> !MatchAt(s, j)
  {
    SearchFrom(s, 0)
  }

  /** `remove_tail`, operating on its parameter: the text before the leftmost
      match, or the whole text when the pattern does not occur. */
  function RemoveTail(text: string): (r: string)
    ensures r <= text
    ensures !HasMatch(text) ==> r == text
    ensures HasMatch(text) <==> |r| < |text|
    ensures |r| < |text| ==> MatchAt(text, |r|)
    ensures forall j: nat :: j < |r| ==> !MatchAt(text, j)
  {
    match Search(text)
    case Some(k) => text[..k]
    case None => text
  }

  /** `r` is what trimming `t` must produce: a prefix of `t` before which no
      match starts, and which ends either at the end of `t` or exactly where
      a match starts. */
  ghost predicate IsTrimOf(t: string, r: string) {
    && r <= t
    && (forall j: nat :: j < |r| ==> !MatchAt(t, j))
    && (|r| == |t| || MatchAt(t, |r|))
  }

  /** Whether a match starts at `j` depends only on the five characters
      from `j` on, so two strings that agree on their first `n` characters
      agree on every match that ends by `n`. */
  lemma MatchesAgreeOnCommonPrefix(s: string, s2: string, n: nat)
    requires n <= |s| && n <= |s2|
    requires s[..n] == s2[..n]
    ensures forall j: nat :: j + 5 <= n ==> (MatchAt(s, j) <==> MatchAt(s2, j))
  {
    forall j: nat | j + 5 <= n
      ensures MatchAt(s, j) <==> MatchAt(s2, j)
    {
      assert s[j..j + 5] == s[..n][j..j + 5] == s2[..n][j..j + 5] == s2[j..j + 5];
    }
  }

  /** The characterisation above has exactly one solution, RemoveTail(t). */
  lemma RemoveTailIsTheTrim(t: string, r: string)
    ensures IsTrimOf(t, r) <==> r == RemoveTail(t)
  {
    var c := RemoveTail(t);
    if IsTrimOf(t, r) {
      // Each of the two lengths is the position of a match or |t|, and no
      // match starts before either of them.
      assert |r| == |c|;
      assert r == t[..|r|] == t[..|c|] == c;
    }
  }

  /** The trimmed text no longer contains the pattern. */
  lemma RemoveTailLeavesNoMatch(t: string)
    ensures !HasMatch(RemoveTail(t))
  {
    var r := RemoveTail(t);
    assert r == t[..|r|];
    MatchesAgreeOnCommonPrefix(r, t, |r|);
  }

  /** Trimming twice is trimming once. */
  lemma RemoveTailIdempotent(t: string)
    ensures RemoveTail(RemoveTail(t)) == RemoveTail(t)
  {
    RemoveTailLeavesNoMatch(t);
  }

  /** Whatever follows the stamp does not affect the trim: appending text
      after a string that already has a match leaves its trim unchanged. */
  lemma RemoveTailIgnoresSuffix(t: string, u: string)
    requires HasMatch(t)
    ensures RemoveTail(t + u) == RemoveTail(t)
  {
    var r := RemoveTail(t);
    assert (t + u)[..|t|] == t[..|t|];
    MatchesAgreeOnCommonPrefix(t, t + u, |t|);
    assert MatchAt(t, |r|);
    assert r == (t + u)[..|r|];
    RemoveTailIsTheTrim(t + u, r);
  }

  /** The errors the source can raise before computing anything. */
  datatype PyError = NameError(name: string)

  /** `remove_tail` as the file is written: its first statement evaluates
      `re.compile`, but the module `re` is never imported, so every call
      raises NameError before the text is looked at. */
  function RemoveTailAsWritten(text: string): Result<string, PyError> {
    Err(NameError("re"))
  }

  /** On a text carrying a stamp, the written function raises where the
      intended one returns the text before the stamp. */
  lemma AsWrittenRaisesInsteadOfTrimming()
    ensures RemoveTailAsWritten("Budget talks CA581203 JB").Err?
    ensures RemoveTail("Budget talks CA581203 JB") == "Budget talks "
  {
    var t := "Budget talks CA581203 JB";
    assert MatchAt(t, 13);
    assert forall j: nat :: j < 13 ==> !MatchAt(t, j);
    RemoveTailIsTheTrim(t, "Budget talks ");
  }
}
