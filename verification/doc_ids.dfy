/** The per-filename step of the corpus loader: a directory entry is a
    document only if its name ends in ".html", and the document's id is the
    name with its extension split off by `os.path.splitext`. */
module DocIds {
  import opened Outcomes

  /** The extension the loader accepts. */
  const HtmlExt: string := ".html"

  /** `s` ends with `suffix`, as `str.endswith` tests. */
  predicate EndsWith(s: string, suffix: string) {
    |suffix| <= |s| && s[|s| - |suffix|..] == suffix
  }

  /** Every character of `s` is a dot (true of the empty string), checked
      left to right as the scan inside `os.path.splitext` does. */
  predicate OnlyDots(s: string) {
    s == [] || (s[0] == '.' && OnlyDots(s[1..]))
  }

  /** `str.rfind` for one character: the last index holding `c`, or -1. */
  function RFind(s: string, c: char): (r: int)
    ensures -1 <= r < |s|
    ensures r >= 0 ==> s[r] == c
    ensures forall k :: r < k < |s| ==> s[k] != c
  {
    if s == [] then -1
    else if s[|s| - 1] == c then |s| - 1
    else RFind(s[..|s| - 1], c)
  }

  /** A character absent from positions `i` onwards is absent from the
      suffix starting at `i`. */
  lemma AbsentFromSuffix(p: string, c: char, i: nat)
    requires i <= |p|
    requires forall k :: i <= k < |p| ==> p[k] != c
    ensures c !in p[i..]
  {
    forall j | 0 <= j < |p[i..]|
      ensures p[i..][j] != c
    {
      assert p[i..][j] == p[i + j];
    }
  }

  /** `os.path.splitext` on POSIX: the extension runs from the last dot of
      the final path component to the end, except that dots leading that
      component do not start an extension (so ".bashrc" and "..html" have
      none). */
  function SplitExt(p: string): (r: (string, string))
    ensures r.0 + r.1 == p
    ensures r.1 == [] || (r.1[0] == '.' && '.' !in r.1[1..] && '/' !in r.1)
  {
    var sepIndex := RFind(p, '/');
    var dotIndex := RFind(p, '.');
    var nameStart: nat := sepIndex + 1;
    if dotIndex > sepIndex && !OnlyDots(p[nameStart..dotIndex]) then
      AbsentFromSuffix(p, '.', dotIndex + 1);
      AbsentFromSuffix(p, '/', dotIndex);
      assert p[dotIndex..][1..] == p[dotIndex + 1..];
      assert p[..dotIndex] + p[dotIndex..] == p;
      (p[..dotIndex], p[dotIndex..])
    else
      (p, [])
  }

  /** `p` has an extension in the sense of `os.path.splitext`: some dot is
      preceded, within the final path component, by a character that is not
      a dot. */
  ghost predicate HasExtension(p: string) {
    exists m, k :: 0 <= m < k < |p| && p[m] != '.' && p[k] == '.' && '/' !in p[m..]
  }

  /** The recursive dot test agrees with "every character is a dot". */
  lemma {:induction false} OnlyDotsIffAllDots(s: string)
    ensures OnlyDots(s) <==> forall j :: 0 <= j < |s| ==> s[j] == '.'
    decreases |s|
  {
    if s != [] {
      OnlyDotsIffAllDots(s[1..]);
      assert forall j :: 1 <= j < |s| ==> s[j] == s[1..][j - 1];
    }
  }

  /** A non-empty extension from `os.path.splitext` means the name has an
      extension in the sense above. */
  lemma SplitExtOnlyWithExtension(p: string)
    requires SplitExt(p).1 != []
    ensures HasExtension(p)
  {
    var sepIndex := RFind(p, '/');
    var dotIndex := RFind(p, '.');
    var nameStart: nat := sepIndex + 1;
    var stem := p[nameStart..dotIndex];
    OnlyDotsIffAllDots(stem);
    var j :| 0 <= j < |stem| && stem[j] != '.';
    var m := nameStart + j;
    assert p[m] == stem[j];
    AbsentFromSuffix(p, '/', m);
    assert 0 <= m < dotIndex < |p| && p[m] != '.' && p[dotIndex] == '.' && '/' !in p[m..];
  }

  /** A name with an extension in the sense above gets a non-empty extension
      from `os.path.splitext`. */
  lemma ExtensionFoundBySplitExt(p: string)
    requires HasExtension(p)
    ensures SplitExt(p).1 != []
  {
    var sepIndex := RFind(p, '/');
    var dotIndex := RFind(p, '.');
    var nameStart: nat := sepIndex + 1;
    var m, k :| 0 <= m < k < |p| && p[m] != '.' && p[k] == '.' && '/' !in p[m..];
    assert forall q :: m <= q < |p| ==> p[q] == p[m..][q - m];
    assert k <= dotIndex;
    assert sepIndex < m;
    var stem := p[nameStart..dotIndex];
    assert stem[m - nameStart] == p[m];
    OnlyDotsIffAllDots(stem);
  }

  /** `os.path.splitext` returns a non-empty extension exactly when the name
      has an extension in the sense above. */
  lemma SplitExtFindsExtension(p: string)
    ensures SplitExt(p).1 != [] <==> HasExtension(p)
  {
    if SplitExt(p).1 != [] {
      SplitExtOnlyWithExtension(p);
    }
    if HasExtension(p) {
      ExtensionFoundBySplitExt(p);
    }
  }

  /** The id the loader stores for directory entry `filename`, or None when
      the entry is skipped because it does not end in ".html". */
  function DocId(filename: string): (r: Option<string>)
    ensures r.Some? <==> EndsWith(filename, HtmlExt)
    ensures r.Some? ==> r.value <= filename
  {
    if EndsWith(filename, HtmlExt) then Some(SplitExt(filename).0) else None
  }

  /** The dot of a trailing ".html" is the last dot of the name. */
  lemma LastDotOfHtmlName(f: string)
    requires EndsWith(f, HtmlExt)
    ensures RFind(f, '.') == |f| - 5
  {
    var ext := f[|f| - 5..];
    assert ext == HtmlExt;
    // The dot of ".html" rules out a last dot before it, and the letters
    // "html" rule out one after it.
    assert f[|f| - 5] == ext[0] == '.';
    assert f[|f| - 4] == ext[1] && f[|f| - 3] == ext[2];
    assert f[|f| - 2] == ext[3] && f[|f| - 1] == ext[4];
  }

  /** For a directory entry (a name without '/') ending in ".html", the id is
      the name minus ".html", unless everything before ".html" is dots, in
      which case `os.path.splitext` finds no extension and the id is the
      whole name. */
  lemma DocIdOfHtmlName(f: string)
    requires '/' !in f && EndsWith(f, HtmlExt)
    ensures !OnlyDots(f[..|f| - 5]) ==> DocId(f) == Some(f[..|f| - 5])
    ensures OnlyDots(f[..|f| - 5]) ==> DocId(f) == Some(f)
  {
    LastDotOfHtmlName(f);
    assert RFind(f, '/') == -1;
    assert f[0..|f| - 5] == f[..|f| - 5];
  }

  /** Naming a document "<id>.html" and loading it gives back `id`, for every
      id that is a plain name and not made only of dots. */
  lemma DocIdRoundTrip(id: string)
    requires '/' !in id && !OnlyDots(id)
    ensures DocId(id + HtmlExt) == Some(id)
  {
    var f := id + HtmlExt;
    assert f[|f| - 5..] == HtmlExt;
    assert f[..|f| - 5] == id;
    DocIdOfHtmlName(f);
  }

  /** Names that do not end in ".html" are skipped, even when ".html"
      occurs earlier in them. */
  lemma OtherEntriesSkipped()
    ensures DocId("notes.txt") == None
    ensures DocId("page.htm") == None
    ensures DocId("index.html.bak") == None
  {
  }

  /** Only the final extension is stripped. */
  lemma StemExamples()
    ensures DocId("CA581203.html") == Some("CA581203")
    ensures DocId("a.b.html") == Some("a.b")
  {
    assert "CA581203"[0] == 'C';
    assert "CA581203" + HtmlExt == "CA581203.html";
    DocIdRoundTrip("CA581203");
    assert "a.b"[0] == 'a';
    assert "a.b" + HtmlExt == "a.b.html";
    DocIdRoundTrip("a.b");
  }

  /** A name whose part before ".html" is empty or all dots is kept whole,
      because `os.path.splitext` treats leading dots as part of the name. */
  lemma LeadingDotExamples()
    ensures DocId(".html") == Some(".html")
    ensures DocId("..html") == Some("..html")
  {
    assert ".html"[..0] == [];
    DocIdOfHtmlName(".html");
    assert "..html"[..1] == ".";
    assert OnlyDots(".");
    DocIdOfHtmlName("..html");
  }

  /** Distinct plain ".html" names whose parts before ".html" are not all
      dots never share an id. */
  lemma DocIdInjective(f: string, g: string)
    requires '/' !in f && EndsWith(f, HtmlExt) && !OnlyDots(f[..|f| - 5])
    requires '/' !in g && EndsWith(g, HtmlExt) && !OnlyDots(g[..|g| - 5])
    ensures DocId(f) == DocId(g) ==> f == g
  {
    DocIdOfHtmlName(f);
    DocIdOfHtmlName(g);
    assert f == f[..|f| - 5] + f[|f| - 5..];
    assert g == g[..|g| - 5] + g[|g| - 5..];
  }

  /** Outside that case ids do collide: ".html" keeps its whole name because
      `os.path.splitext` sees no extension in it, while ".html.html" loses its
      final ".html", so both entries are stored under the id ".html" and the
      loader keeps one dict key for two documents. */
  lemma DocIdCollision()
    ensures ".html.html" != ".html"
    ensures DocId(".html.html") == DocId(".html") == Some(".html")
  {
    assert !OnlyDots(".html") by { assert ".html"[0] == '.' && ".html"[1..] == "html"; }
    assert ".html" + HtmlExt == ".html.html";
    DocIdRoundTrip(".html");
    LeadingDotExamples();
  }

  /** The id the loader evidently means: the entry's name with its final
      ".html" removed, without the leading-dot exception of
      `os.path.splitext`. */
  function StemId(filename: string): (r: Option<string>)
    ensures r.Some? <==> EndsWith(filename, HtmlExt)
    ensures r.Some? ==> r.value + HtmlExt == filename
  {
    if EndsWith(filename, HtmlExt) then Some(filename[..|filename| - 5]) else None
  }

  /** Every ".html" entry gets its own id under StemId. */
  lemma StemIdInjective(f: string, g: string)
    requires StemId(f).Some?
    ensures StemId(f) == StemId(g) ==> f == g
  {
  }

  /** StemId and DocId agree on every plain name except those whose part
      before ".html" is all dots. */
  lemma StemIdAgreesWithDocId(f: string)
    requires '/' !in f
    ensures (EndsWith(f, HtmlExt) ==> !OnlyDots(f[..|f| - 5])) ==> StemId(f) == DocId(f)
  {
    if EndsWith(f, HtmlExt) {
      DocIdOfHtmlName(f);
    }
  }
}
