/**
 * Duplicate suppression over a directory listing: the name keys of
 * `download_pdfs.normalize_base_name` and of the analyser's
 * `_normalize_result_name`, which strip the counters that copies of a file
 * acquire, and the two clean-up passes `remove_duplicate_pdfs` and
 * `remove_duplicate_results`, which keep one file per key and report how
 * many they removed. A directory is a sequence of entries in the order the
 * code visits them; deleting a file is modelled by leaving it out of the
 * kept sequence.
 */
module Duplicates {
  import opened Wrappers
  import opened Strings
  import opened Lists
  import opened Names

  // ---------------------------------------------------------------------
  // Trailing counters
  // ---------------------------------------------------------------------

  /** The three trailing patterns the keys remove. */
  datatype Tail =
    | SpacedCounter  // \s+\(\d+\)
    | DashedCounter  // --\d+-*
    | JoinedCounter  // [_\-]+(\d+)

  /**
   * `u[i..]` is, as a whole, one match of `p`; `a` is where the digits
   * start (for `SpacedCounter`, where the parenthesis is).
   */
  predicate MatchesFrom(u: string, p: Tail, i: nat, a: nat) {
    match p
    case SpacedCounter =>
      i < a && a + 2 < |u| && u[a] == '(' && u[|u| - 1] == ')' &&
      (forall k :: i <= k < a ==> IsSpace(u[k])) &&
      (forall k :: a < k < |u| - 1 ==> IsDigit(u[k]))
    case DashedCounter =>
      i + 2 < a <= |u| && u[i] == '-' && u[i + 1] == '-' &&
      (forall k :: i + 2 <= k < a ==> IsDigit(u[k])) &&
      (forall k :: a <= k < |u| ==> u[k] == '-')
    case JoinedCounter =>
      i < a < |u| &&
      (forall k :: i <= k < a ==> u[k] == '_' || u[k] == '-') &&
      (forall k :: a <= k < |u| ==> IsDigit(u[k]))
  }

  /** The start of the leftmost match of `p` that runs to the end of `u`. */
  function TailStart(u: string, p: Tail): (k: Option<nat>)
    ensures k.Some? ==> k.value < |u|
  {
    match p
    case SpacedCounter =>
      if u == [] || u[|u| - 1] != ')' then None
      else
        var j := DigitRunStart(u, |u| - 1);
        if j == |u| - 1 || j == 0 || u[j - 1] != '(' then None
        else
          var w := TrailStart(u, WHITESPACE, j - 1);
          if w == j - 1 then None else Some(w)
    case DashedCounter =>
      var h := TrailStart(u, {'-'}, |u|);
      var d := DigitRunStart(u, h);
      if d == h || d < 2 || u[d - 2] != '-' || u[d - 1] != '-' then None else Some(d - 2)
    case JoinedCounter =>
      var d := DigitRunStart(u, |u|);
      if d == |u| then None
      else
        var b := TrailStart(u, {'_', '-'}, d);
        if b == d then None else Some(b)
  }

  lemma SpacedStartIs(u: string)
    ensures var k := TailStart(u, SpacedCounter);
            (k.Some? ==> exists a :: MatchesFrom(u, SpacedCounter, k.value, a)) &&
            (forall i: nat, a: nat :: MatchesFrom(u, SpacedCounter, i, a) ==> k.Some? && k.value <= i)
  {
    var k := TailStart(u, SpacedCounter);
    if k.Some? {
      var j := DigitRunStart(u, |u| - 1);
      assert MatchesFrom(u, SpacedCounter, k.value, j - 1);
    }
    forall i: nat, a: nat | MatchesFrom(u, SpacedCounter, i, a) ensures k.Some? && k.value <= i {
      var j := DigitRunStart(u, |u| - 1);
      assert !IsDigit(u[a]);
      assert j == a + 1;
      var w := TrailStart(u, WHITESPACE, a);
      assert w <= i;
    }
  }

  lemma DashedStartIs(u: string)
    ensures var k := TailStart(u, DashedCounter);
            (k.Some? ==> exists a :: MatchesFrom(u, DashedCounter, k.value, a)) &&
            (forall i: nat, a: nat :: MatchesFrom(u, DashedCounter, i, a) ==> k.Some? && k.value <= i)
  {
    var k := TailStart(u, DashedCounter);
    var h := TrailStart(u, {'-'}, |u|);
    if k.Some? {
      assert MatchesFrom(u, DashedCounter, k.value, h);
    }
    forall i: nat, a: nat | MatchesFrom(u, DashedCounter, i, a) ensures k.Some? && k.value <= i {
      assert IsDigit(u[a - 1]) && u[a - 1] != '-';
      assert h >= a;
      assert h <= a;
      var d := DigitRunStart(u, h);
      assert d == i + 2;
    }
  }

  lemma JoinedStartIs(u: string)
    ensures var k := TailStart(u, JoinedCounter);
            (k.Some? ==> exists a :: MatchesFrom(u, JoinedCounter, k.value, a)) &&
            (forall i: nat, a: nat :: MatchesFrom(u, JoinedCounter, i, a) ==> k.Some? && k.value <= i)
  {
    var k := TailStart(u, JoinedCounter);
    var d := DigitRunStart(u, |u|);
    if k.Some? {
      assert MatchesFrom(u, JoinedCounter, k.value, d);
    }
    forall i: nat, a: nat | MatchesFrom(u, JoinedCounter, i, a) ensures k.Some? && k.value <= i {
      assert !IsDigit(u[a - 1]);
      assert d >= a;
      assert d <= a;
      var b := TrailStart(u, {'_', '-'}, d);
      assert b <= i;
    }
  }

  /**
   * `TailStart` finds a match of `p` running to the end of `u` exactly when
   * there is one, and no match starts to its left.
   */
  lemma TailStartIs(u: string, p: Tail)
    ensures var k := TailStart(u, p);
            (k.Some? ==> exists a :: MatchesFrom(u, p, k.value, a)) &&
            (forall i: nat, a: nat :: MatchesFrom(u, p, i, a) ==> k.Some? && k.value <= i)
  {
    match p
    case SpacedCounter => SpacedStartIs(u);
    case DashedCounter => DashedStartIs(u);
    case JoinedCounter => JoinedStartIs(u);
  }

  /**
   * `re.sub(pattern + "$", "", s)` for the pattern `p`. Python's `$` also
   * matches before a final newline; no match of these patterns can end in
   * one, so with a final newline the match must end just before it.
   */
  function SubTail(s: string, p: Tail): string {
    if s != [] && s[|s| - 1] == '\n' then
      var u := s[..|s| - 1];
      var k := TailStart(u, p);
      if k.Some? then u[..k.value] + "\n" else s
    else
      var k := TailStart(s, p);
      if k.Some? then s[..k.value] else s
  }

  // ---------------------------------------------------------------------
  // The name keys
  // ---------------------------------------------------------------------

  /**
   * `normalize_base_name`: the stem stripped, then once each and in this
   * order a trailing " (n)", a trailing "--n-…" and a trailing "[_-]+n"
   * removed, and the whole name lowercased.
   */
  function NormalizeBaseName(filename: string): (key: string)
    ensures forall i :: 0 <= i < |key| ==> !IsUpper(key[i])
  {
    var parts := SplitExt(filename);
    var stem := StripCopySuffix(Strip(parts.0));
    LowerStr(SubTail(SubTail(stem, DashedCounter), JoinedCounter) + parts.1)
  }

  /**
   * `_normalize_result_name`: the name lowercased first, then from the stem
   * a trailing " (n)", "--n-…" and "[_-]+n" removed once each, in this order.
   */
  function NormalizeResultName(filename: string): string {
    var parts := SplitExt(LowerStr(filename));
    SubTail(SubTail(SubTail(parts.0, SpacedCounter), DashedCounter), JoinedCounter) + parts.1
  }

  // ---------------------------------------------------------------------
  // The names copies get
  // ---------------------------------------------------------------------

  /** The ways a copy of a file whose stem is `g` comes to be named. */
  datatype CopyMark = Original | Parenthesised | DashCounter | UnderscoreCounter | HyphenCounter

  /** The stem `g` carrying the counter `d` in the way `m`. */
  function Marked(g: string, d: string, m: CopyMark): string {
    match m
    case Original => g
    case Parenthesised => g + " (" + d + ")"
    case DashCounter => g + "--" + d + "-"
    case UnderscoreCounter => g + "_" + d
    case HyphenCounter => g + "-" + d
  }

  /** A non-empty run of ASCII letters. */
  predicate Word(g: string) {
    g != [] && forall i :: 0 <= i < |g| ==> IsLetter(g[i])
  }

  /** A non-empty run of decimal digits. */
  predicate Numeral(d: string) {
    d != [] && AllDigits(d)
  }

  lemma WordHasNoTail(g: string, p: Tail)
    requires Word(g)
    ensures SubTail(g, p) == g
  {
    assert !IsDigit(g[|g| - 1]) && g[|g| - 1] != '-';
  }

  lemma LowerMarked(g: string, d: string, m: CopyMark)
    requires Numeral(d)
    ensures LowerStr(Marked(g, d, m)) == Marked(LowerStr(g), d, m)
  {
    var u := Marked(g, d, m);
    var v := Marked(LowerStr(g), d, m);
    assert |u| == |v|;
    forall i | 0 <= i < |u| ensures LowerStr(u)[i] == v[i] {
      if i >= |g| {
        assert !IsUpper(u[i]);
      }
    }
  }

  lemma SpacedStage(g: string, d: string, m: CopyMark)
    requires Word(g) && Numeral(d)
    ensures SubTail(Marked(g, d, m), SpacedCounter) == (if m == Parenthesised then g else Marked(g, d, m))
  {
    var u := Marked(g, d, m);
    assert u[|u| - 1] != '\n';
    if m == Parenthesised {
      assert u[|g|] == ' ' && u[|g| + 1] == '(' && u[|u| - 1] == ')';
      assert forall k :: |g| + 2 <= k < |u| - 1 ==> u[k] == d[k - |g| - 2];
      assert DigitRunStart(u, |u| - 1) == |g| + 2;
      assert u[|g| - 1] == g[|g| - 1];
      assert TrailStart(u, WHITESPACE, |g| + 1) == |g|;
      assert u[..|g|] == g;
    } else {
      assert u[|u| - 1] != ')';
    }
  }

  lemma DashCounterStage(g: string, d: string)
    requires Word(g) && Numeral(d)
    ensures SubTail(Marked(g, d, DashCounter), DashedCounter) == g
  {
    var u := Marked(g, d, DashCounter);
    assert u[|g|] == '-' && u[|g| + 1] == '-' && u[|u| - 1] == '-';
    assert forall j :: |g| + 2 <= j < |u| - 1 ==> u[j] == d[j - |g| - 2];
    assert TrailStart(u, {'-'}, |u|) == |u| - 1;
    assert DigitRunStart(u, |u| - 1) == |g| + 2;
    assert u[..|g|] == g;
  }

  lemma JoinedCounterNotDashed(g: string, d: string, m: CopyMark)
    requires Word(g) && Numeral(d) && (m == UnderscoreCounter || m == HyphenCounter)
    ensures SubTail(Marked(g, d, m), DashedCounter) == Marked(g, d, m)
  {
    var u := Marked(g, d, m);
    assert u[|u| - 1] == d[|d| - 1];
    assert u[|g|] == '_' || u[|g|] == '-';
    assert forall j :: |g| + 1 <= j < |u| ==> u[j] == d[j - |g| - 1];
    assert TrailStart(u, {'-'}, |u|) == |u|;
    assert DigitRunStart(u, |u|) == |g| + 1;
    assert u[|g| - 1] == g[|g| - 1];
  }

  lemma DashedStage(g: string, d: string, m: CopyMark)
    requires Word(g) && Numeral(d) && m != Parenthesised
    ensures SubTail(Marked(g, d, m), DashedCounter) == (if m == DashCounter then g else Marked(g, d, m))
  {
    if m == DashCounter {
      DashCounterStage(g, d);
    } else if m == Original {
      WordHasNoTail(g, DashedCounter);
    } else {
      JoinedCounterNotDashed(g, d, m);
    }
  }

  lemma JoinedStage(g: string, d: string, m: CopyMark)
    requires Word(g) && Numeral(d)
    requires m == Original || m == UnderscoreCounter || m == HyphenCounter
    ensures SubTail(Marked(g, d, m), JoinedCounter) == g
  {
    var u := Marked(g, d, m);
    if m == Original {
      WordHasNoTail(g, JoinedCounter);
    } else {
      assert u[|u| - 1] == d[|d| - 1];
      assert u[|g|] == '_' || u[|g|] == '-';
      assert forall j :: |g| + 1 <= j < |u| ==> u[j] == d[j - |g| - 1];
      assert DigitRunStart(u, |u|) == |g| + 1;
      assert u[|g| - 1] == g[|g| - 1];
      assert TrailStart(u, {'_', '-'}, |g| + 1) == |g|;
      assert u[..|g|] == g;
    }
  }

  /** The three stages of `normalize_base_name` reduce every marked stem to the stem itself. */
  lemma BaseStemOfMarked(g: string, d: string, m: CopyMark)
    requires Word(g) && Numeral(d)
    ensures SubTail(SubTail(StripCopySuffix(Strip(Marked(g, d, m))), DashedCounter), JoinedCounter) == g
  {
    var u := Marked(g, d, m);
    assert !IsSpace(u[0]) && !IsSpace(u[|u| - 1]) by {
      assert u[0] == g[0];
    }
    StripCharsNoop(u, WHITESPACE);
    if m == Parenthesised {
      assert u == g + " (" + d + ")";
      CounterPrefixOf(g, d);
      DashedStage(g, d, Original);
      JoinedStage(g, d, Original);
    } else {
      StripCopySuffixNone(u);
      DashedStage(g, d, m);
      if m == DashCounter {
        JoinedStage(g, d, Original);
      } else {
        JoinedStage(g, d, m);
      }
    }
  }

  /** The three stages of `_normalize_result_name` reduce every marked stem to the stem itself. */
  lemma ResultStemOfMarked(g: string, d: string, m: CopyMark)
    requires Word(g) && Numeral(d)
    ensures SubTail(SubTail(SubTail(Marked(g, d, m), SpacedCounter), DashedCounter), JoinedCounter) == g
  {
    SpacedStage(g, d, m);
    if m == Parenthesised {
      DashedStage(g, d, Original);
      JoinedStage(g, d, Original);
    } else {
      DashedStage(g, d, m);
      if m == DashCounter {
        JoinedStage(g, d, Original);
      } else {
        JoinedStage(g, d, m);
      }
    }
  }

  lemma SplitExtOf(stem: string, e: string)
    requires stem != [] && stem[0] != '.'
    requires forall i :: 0 <= i < |stem| ==> stem[i] != '.' && stem[i] != '/'
    requires Word(e)
    ensures SplitExt(stem + "." + e) == (stem, "." + e)
  {
    var p := stem + "." + e;
    assert forall i :: |stem| < i < |p| ==> p[i] == e[i - |stem| - 1];
    var sep := LastIndexOf(p, '/');
    assert sep == -1;
    var dot := LastIndexOf(p, '.');
    assert p[|stem|] == '.';
    assert dot == |stem|;
    assert p[sep + 1..dot] == stem;
    assert !AllDots(stem);
    assert p[..dot] == stem && p[dot..] == "." + e;
  }

  lemma MarkedStemShape(g: string, d: string, m: CopyMark)
    requires Word(g) && Numeral(d)
    ensures var u := Marked(g, d, m);
            u != [] && u[0] != '.' && forall i :: 0 <= i < |u| ==> u[i] != '.' && u[i] != '/'
  {
    var u := Marked(g, d, m);
    assert u[0] == g[0];
    forall i | 0 <= i < |u| ensures u[i] != '.' && u[i] != '/' {
      if i < |g| {
        assert u[i] == g[i];
      } else if m != Original {
        assert IsDigit(u[i]) || u[i] in {' ', '(', ')', '-', '_'};
      }
    }
  }

  /** Every copy of "g.e" (the file itself, "g (n).e", "g--n-.e", "g_n.e", "g-n.e") has the key "g.e" lowercased. */
  lemma CopiesShareBaseName(g: string, d: string, m: CopyMark, e: string)
    requires Word(g) && Numeral(d) && Word(e)
    ensures NormalizeBaseName(Marked(g, d, m) + "." + e) == LowerStr(g + "." + e)
  {
    var u := Marked(g, d, m);
    MarkedStemShape(g, d, m);
    SplitExtOf(u, e);
    var parts := SplitExt(u + "." + e);
    assert parts.0 == u && parts.1 == "." + e;
    BaseStemOfMarked(g, d, m);
    assert SubTail(SubTail(StripCopySuffix(Strip(parts.0)), DashedCounter), JoinedCounter) + parts.1 == g + "." + e;
  }

  lemma LowerDotted(u: string, e: string)
    ensures LowerStr(u + "." + e) == LowerStr(u) + "." + LowerStr(e)
  {
    var l := LowerStr(u + "." + e);
    var r := LowerStr(u) + "." + LowerStr(e);
    assert |l| == |r|;
    forall i | 0 <= i < |l| ensures l[i] == r[i] {
      if i > |u| {
        assert (u + "." + e)[i] == e[i - |u| - 1];
      }
    }
  }

  lemma LowerWord(g: string)
    requires Word(g)
    ensures Word(LowerStr(g))
  {
  }

  lemma ResultNameOfLowered(x: string, lg: string, d: string, m: CopyMark, le: string)
    requires Word(lg) && Numeral(d) && Word(le)
    requires LowerStr(x) == Marked(lg, d, m) + "." + le
    ensures NormalizeResultName(x) == lg + "." + le
  {
    MarkedStemShape(lg, d, m);
    SplitExtOf(Marked(lg, d, m), le);
    ResultStemOfMarked(lg, d, m);
  }

  /** The same for the result key, which lowercases before it strips the counters. */
  lemma CopiesShareResultName(g: string, d: string, m: CopyMark, e: string)
    requires Word(g) && Numeral(d) && Word(e)
    ensures NormalizeResultName(Marked(g, d, m) + "." + e) == LowerStr(g + "." + e)
  {
    LowerMarked(g, d, m);
    LowerDotted(Marked(g, d, m), e);
    LowerDotted(g, e);
    LowerWord(g);
    LowerWord(e);
    ResultNameOfLowered(Marked(g, d, m) + "." + e, LowerStr(g), d, m, LowerStr(e));
  }

  lemma LowerOfReport(t: string)
    requires t == "Report.PDF"
    ensures LowerStr(t) == "report.pdf"
  {
  }

  lemma LowerOfLowered(t: string)
    requires t == "referto.pdf" || t == "report.json"
    ensures LowerStr(t) == t
  {
    assert forall i :: 0 <= i < |t| ==> IsLower(t[i]) || t[i] == '.';
    LowerOfLower(t);
  }

  /** A copy named with an underscore counter and an upper-case extension. */
  lemma BaseNameOfReportCopy(x: string)
    requires x == "Report_2.PDF"
    ensures NormalizeBaseName(x) == "report.pdf"
  {
    var g, d, e := "Report", "2", "PDF";
    var key := g + "." + e;
    LowerOfReport(key);
    assert Word(g) && Word(e) && Numeral(d);
    assert x == Marked(g, d, UnderscoreCounter) + "." + e;
    CopiesShareBaseName(g, d, UnderscoreCounter, e);
  }

  /** A year written after a hyphen reads as a copy counter. */
  lemma BaseNameOfYear(x: string, year: string)
    requires Numeral(year)
    requires x == "referto-" + year + ".pdf"
    ensures NormalizeBaseName(x) == "referto.pdf"
  {
    var g, e := "referto", "pdf";
    var key := g + "." + e;
    assert key == "referto.pdf";
    LowerOfLowered(key);
    assert Word(g) && Word(e);
    assert x == Marked(g, year, HyphenCounter) + "." + e;
    CopiesShareBaseName(g, year, HyphenCounter, e);
  }

  /** "Report (1).json" and "report.json" share one result key. */
  lemma ResultNameOfReportCopy(x: string, y: string)
    requires x == "Report (1).json" && y == "report.json"
    ensures NormalizeResultName(x) == NormalizeResultName(y) == "report.json"
  {
    var g, lg, d, e := "Report", "report", "1", "json";
    var key := lg + "." + e;
    assert key == "report.json";
    LowerOfLowered(key);
    assert LowerStr(g + "." + e) == key by {
      LowerAppend(g, "." + e);
      LowerAppend(lg, "." + e);
    }
    assert Word(g) && Word(lg) && Word(e) && Numeral(d);
    assert x == Marked(g, d, Parenthesised) + "." + e;
    assert y == Marked(lg, d, Original) + "." + e;
    CopiesShareResultName(g, d, Parenthesised, e);
    CopiesShareResultName(lg, d, Original, e);
  }

  // ---------------------------------------------------------------------
  // The listing a clean-up pass visits
  // ---------------------------------------------------------------------

  /** The glob of the extension `ext` admits a name: it ends in `ext` and is not hidden. */
  predicate MatchesGlob(name: string, ext: string) {
    |name| > 0 && name[0] != '.' && EndsWith(name, ext)
  }

  /** `a <= b` in Python's ordering of strings: lexicographic on code points. */
  predicate NotAfter(a: string, b: string)
    decreases |a|
  {
    a == [] || (b != [] && (a[0] < b[0] || (a[0] == b[0] && NotAfter(a[1..], b[1..]))))
  }

  /** Strings that agree before position `k` and differ there are ordered by their characters at `k`. */
  lemma {:induction false} NotAfterAt(a: string, b: string, k: nat)
    requires k < |a| && k < |b| && a[..k] == b[..k] && a[k] < b[k]
    ensures NotAfter(a, b)
    decreases k
  {
    if k > 0 {
      assert a[0] == a[..k][0] && b[0] == b[..k][0];
      assert a[1..][..k - 1] == a[..k][1..] && b[1..][..k - 1] == b[..k][1..];
      NotAfterAt(a[1..], b[1..], k - 1);
    }
  }

  // ---------------------------------------------------------------------
  // remove_duplicate_pdfs
  // ---------------------------------------------------------------------

  /** A file of the download directory: its name and its size in bytes. */
  datatype PdfFile = PdfFile(name: string, size: nat)

  predicate IsPdf(f: PdfFile) {
    MatchesGlob(f.name, ".pdf")
  }

  /** What `remove_duplicate_pdfs` compares: the normalised name and the size. */
  function PdfKey(f: PdfFile): (string, nat) {
    (NormalizeBaseName(f.name), f.size)
  }

  /** The PDFs that survive: for each key, the first in the order visited. */
  function SurvivingPdfs(listing: seq<PdfFile>): seq<PdfFile> {
    FirstByKey(Filter(listing, IsPdf), PdfKey)
  }

  /**
   * `remove_duplicate_pdfs` over the listing in the order `sorted(glob(...))`
   * yields it: the surviving files and the number removed. One file
   * survives per key, and every key of the directory is represented.
   */
  method RemoveDuplicatePdfs(listing: seq<PdfFile>) returns (kept: seq<PdfFile>, removed: nat)
    ensures kept == SurvivingPdfs(listing)
    ensures removed == |Filter(listing, IsPdf)| - |kept|
    ensures NoDup(KeysOf(kept, PdfKey))
    ensures forall f :: f in listing && IsPdf(f) ==> PdfKey(f) in KeysOf(kept, PdfKey)
    ensures forall f :: f in kept ==> f in listing && IsPdf(f)
  {
    var paths := Filter(listing, IsPdf);
    kept, removed := KeepFirstPerKey(paths, PdfKey);
  }

  /** After one pass every surviving key is distinct, so a second pass removes nothing. */
  lemma SecondPdfPassRemovesNothing(listing: seq<PdfFile>)
    ensures var kept := SurvivingPdfs(listing);
            Filter(kept, IsPdf) == kept && SurvivingPdfs(kept) == kept
  {
    var kept := SurvivingPdfs(listing);
    FilterAll(kept, IsPdf);
    FirstByKeyOfDistinct(kept, PdfKey);
  }

  /** Files whose keys all differ, e.g. equal names with different sizes, all survive. */
  lemma DistinctPdfsSurvive(listing: seq<PdfFile>)
    requires NoDup(KeysOf(Filter(listing, IsPdf), PdfKey))
    ensures SurvivingPdfs(listing) == Filter(listing, IsPdf)
  {
    FirstByKeyOfDistinct(Filter(listing, IsPdf), PdfKey);
  }

  /** In a listing sorted by name, the survivor of a key is the first of its files by name. */
  lemma SurvivorSortsFirst(listing: seq<PdfFile>, f: PdfFile, g: PdfFile)
    requires Ordered(listing, (a: PdfFile, b: PdfFile) => NotAfter(a.name, b.name))
    requires f in SurvivingPdfs(listing)
    requires g in listing && IsPdf(g) && PdfKey(g) == PdfKey(f)
    ensures g == f || NotAfter(f.name, g.name)
  {
    var le := (a: PdfFile, b: PdfFile) => NotAfter(a.name, b.name);
    FilterOrdered(listing, IsPdf, le);
    FirstByKeyOrdered(Filter(listing, IsPdf), PdfKey, le, f, g);
  }

  lemma ReportKeys(a: string, b: string)
    requires a == "report (1).pdf" && b == "report.pdf"
    ensures NormalizeBaseName(a) == NormalizeBaseName(b)
  {
    var g, d, e := "report", "1", "pdf";
    assert Word(g) && Word(e) && Numeral(d);
    assert a == Marked(g, d, Parenthesised) + "." + e;
    assert b == Marked(g, d, Original) + "." + e;
    CopiesShareBaseName(g, d, Parenthesised, e);
    CopiesShareBaseName(g, d, Original, e);
  }

  /** Reports that differ only in a trailing year share their key. */
  lemma YearKeys(x: string, y: string, yx: string, yy: string)
    requires Numeral(yx) && Numeral(yy)
    requires x == "referto-" + yx + ".pdf" && y == "referto-" + yy + ".pdf"
    ensures NormalizeBaseName(x) == NormalizeBaseName(y)
  {
    BaseNameOfYear(x, yx);
    BaseNameOfYear(y, yy);
  }

  /** Of two PDF files the second is removed exactly when their keys agree. */
  lemma PairSurvivors(a: PdfFile, b: PdfFile)
    requires IsPdf(a) && IsPdf(b)
    ensures SurvivingPdfs([a, b]) == if PdfKey(a) == PdfKey(b) then [a] else [a, b]
  {
    var xs := [a, b];
    FilterAll(xs, IsPdf);
    assert SurvivingPdfs(xs) == FirstByKey(xs, PdfKey);
    FirstByKeyOfPair(a, b, PdfKey);
  }

  lemma PdfNames(x: string, y: string)
    requires x == "report (1).pdf" || x == "report.pdf" || x == "referto-2023.pdf" || x == "referto-2024.pdf"
    ensures MatchesGlob(x, ".pdf")
  {
    assert x[|x| - 4..] == ".pdf";
  }

  /**
   * "report (1).pdf" sorts before "report.pdf"; of two such files of equal
   * size it is the one kept, and the other is removed.
   */
  lemma CopyKeptOverOriginal(x: string, y: string, size: nat)
    requires x == "report (1).pdf" && y == "report.pdf"
    ensures NotAfter(x, y)
    ensures SurvivingPdfs([PdfFile(x, size), PdfFile(y, size)]) == [PdfFile(x, size)]
  {
    assert x[..6] == y[..6] && x[6] < y[6];
    NotAfterAt(x, y, 6);
    PdfNames(x, y);
    PdfNames(y, x);
    ReportKeys(x, y);
    PairSurvivors(PdfFile(x, size), PdfFile(y, size));
  }

  /**
   * Two reports of equal size whose names differ only in the year are
   * duplicates; with different sizes both survive.
   */
  lemma YearsCollide(x: string, y: string, s1: nat, s2: nat)
    requires x == "referto-2023.pdf" && y == "referto-2024.pdf"
    ensures var fs := [PdfFile(x, s1), PdfFile(y, s2)];
            SurvivingPdfs(fs) == if s1 == s2 then [fs[0]] else fs
  {
    PdfNames(x, y);
    PdfNames(y, x);
    assert Numeral("2023") && Numeral("2024");
    YearKeys(x, y, "2023", "2024");
    PairSurvivors(PdfFile(x, s1), PdfFile(y, s2));
  }

  // ---------------------------------------------------------------------
  // remove_duplicate_results
  // ---------------------------------------------------------------------

  /** A saved analysis result: its name and its modification time. */
  datatype ResultFile = ResultFile(name: string, mtime: int)

  predicate IsResult(f: ResultFile) {
    MatchesGlob(f.name, ".json")
  }

  function ResultKey(f: ResultFile): string {
    NormalizeResultName(f.name)
  }

  /** The results that survive: for each key, the first in the order visited. */
  function SurvivingResults(ordered: seq<ResultFile>): seq<ResultFile> {
    FirstByKey(Filter(ordered, IsResult), ResultKey)
  }

  /**
   * `remove_duplicate_results` over the listing in the order of the sort by
   * modification time, newest first: the surviving files and the number
   * removed. Exactly one file survives per key.
   */
  method RemoveDuplicateResults(ordered: seq<ResultFile>) returns (kept: seq<ResultFile>, removed: nat)
    ensures kept == SurvivingResults(ordered)
    ensures removed == |Filter(ordered, IsResult)| - |kept|
    ensures NoDup(KeysOf(kept, ResultKey))
    ensures forall f :: f in ordered && IsResult(f) ==> ResultKey(f) in KeysOf(kept, ResultKey)
    ensures forall f :: f in kept ==> f in ordered && IsResult(f)
  {
    var paths := Filter(ordered, IsResult);
    kept, removed := KeepFirstPerKey(paths, ResultKey);
  }

  /** Sorted newest first, the surviving file of each key is the newest of its files. */
  lemma NewestResultSurvives(ordered: seq<ResultFile>, f: ResultFile, g: ResultFile)
    requires Ordered(ordered, (a: ResultFile, b: ResultFile) => a.mtime >= b.mtime)
    requires f in SurvivingResults(ordered)
    requires g in ordered && IsResult(g) && ResultKey(g) == ResultKey(f)
    ensures g.mtime <= f.mtime
  {
    var le := (a: ResultFile, b: ResultFile) => a.mtime >= b.mtime;
    FilterOrdered(ordered, IsResult, le);
    FirstByKeyOrdered(Filter(ordered, IsResult), ResultKey, le, f, g);
  }

  /** After one pass every surviving key is distinct, so a second pass removes nothing. */
  lemma SecondResultPassRemovesNothing(ordered: seq<ResultFile>)
    ensures var kept := SurvivingResults(ordered);
            Filter(kept, IsResult) == kept && SurvivingResults(kept) == kept
  {
    var kept := SurvivingResults(ordered);
    FilterAll(kept, IsResult);
    FirstByKeyOfDistinct(kept, ResultKey);
  }
}
