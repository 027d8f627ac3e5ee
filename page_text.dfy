/**
 * Shaping of the text extracted from a PDF: per-page clean-up
 * (`normalize_page_text`), the choice among the text layer, the block text and
 * the OCR text of each page (`extract_text_pdf`), and the line-aligned
 * chunking of the document text for the model (`split_chunks`).
 */
module PageText {
  import opened Wrappers
  import opened Strings
  import opened Lists

  // ---------------------------------------------------------------------
  // normalize_page_text
  // ---------------------------------------------------------------------

  /** `re.sub(c + "{3,}", c + c, s)`: every run of three or more `c` becomes two. */
  function CapRuns(s: string, c: char): (t: string)
    decreases |s|
  {
    if s == [] then []
    else if s[0] == c then
      var k := LeadEnd(s, {c}, 0);
      (if k >= 3 then [c, c] else s[..k]) + CapRuns(s[k..], c)
    else [s[0]] + CapRuns(s[1..], c)
  }

  /** No three consecutive characters of `s` are all `c`. */
  predicate NoTriple(s: string, c: char) {
    forall i :: 0 <= i < |s| - 2 ==> !(s[i] == c && s[i + 1] == c && s[i + 2] == c)
  }

  /**
   * After capping, no run of `c` is longer than two, every other character
   * occurs exactly when it did before, and no pair of some other character
   * `x` is created.
   */
  lemma {:induction false} CapRunsShape(s: string, c: char, x: char)
    requires x != c
    ensures var t := CapRuns(s, c);
            NoTriple(t, c) &&
            (forall ch :: ch != c ==> (ch in t <==> ch in s)) &&
            (NoPair(s, x) ==> NoPair(t, x)) &&
            (s != [] ==> t != [] && t[0] == s[0])
    decreases |s|
  {
    if s != [] {
      if s[0] == c {
        var k := LeadEnd(s, {c}, 0);
        var p := if k >= 3 then [c, c] else s[..k];
        var rest := s[k..];
        CapRunsShape(rest, c, x);
        assert CapRuns(s, c) == p + CapRuns(rest, c);
        assert s == s[..k] + rest;
        assert rest == [] ==> CapRuns(rest, c) == [];
        RunThenRest(s[..k], p, rest, CapRuns(rest, c), c, x);
      } else {
        var rest := s[1..];
        CapRunsShape(rest, c, x);
        assert CapRuns(s, c) == [s[0]] + CapRuns(rest, c);
        assert s == [s[0]] + rest;
        assert rest == [] ==> CapRuns(rest, c) == [];
        OtherThenRest(s[0], rest, CapRuns(rest, c), c, x);
      }
    }
  }

  /** A run of `c` (`q`, capped to `p`) before a capped rest that does not start with `c`. */
  lemma RunThenRest(q: string, p: string, rest: string, t: string, c: char, x: char)
    requires x != c && q != [] && p != [] && |p| <= 2
    requires forall i :: 0 <= i < |q| ==> q[i] == c
    requires forall i :: 0 <= i < |p| ==> p[i] == c
    requires rest != [] ==> rest[0] != c
    requires NoTriple(t, c) && (forall ch :: ch != c ==> (ch in t <==> ch in rest))
    requires NoPair(rest, x) ==> NoPair(t, x)
    requires rest != [] ==> t != [] && t[0] == rest[0]
    requires rest == [] ==> t == []
    ensures var u := p + t;
            NoTriple(u, c) &&
            (forall ch :: ch != c ==> (ch in u <==> ch in q + rest)) &&
            (NoPair(q + rest, x) ==> NoPair(u, x)) &&
            u[0] == (q + rest)[0]
  {
    var u := p + t;
    if NoPair(q + rest, x) {
      forall i | 0 <= i < |rest| - 1 ensures !(rest[i] == x && rest[i + 1] == x) {
        assert rest[i] == (q + rest)[|q| + i] && rest[i + 1] == (q + rest)[|q| + i + 1];
      }
      forall i | 0 <= i < |u| - 1 ensures !(u[i] == x && u[i + 1] == x) {
        if i < |p| {
          assert u[i] == c;
        } else {
          assert u[i] == t[i - |p|] && u[i + 1] == t[i - |p| + 1];
        }
      }
    }
    forall i | 0 <= i < |u| - 2 ensures !(u[i] == c && u[i + 1] == c && u[i + 2] == c) {
      if i < |p| {
        if |t| > 0 {
          assert u[|p|] == t[0] && t[0] != c;
        }
      } else {
        assert u[i] == t[i - |p|] && u[i + 1] == t[i - |p| + 1] && u[i + 2] == t[i - |p| + 2];
      }
    }
    forall ch | ch != c ensures ch in u <==> ch in q + rest {
      assert forall i :: 0 <= i < |p| ==> p[i] != ch;
      assert forall i :: 0 <= i < |q| ==> q[i] != ch;
    }
  }

  /** A character other than `c` before a capped rest. */
  lemma OtherThenRest(a: char, rest: string, t: string, c: char, x: char)
    requires a != c
    requires NoTriple(t, c) && (forall ch :: ch != c ==> (ch in t <==> ch in rest))
    requires NoPair(rest, x) ==> NoPair(t, x)
    requires rest != [] ==> t != [] && t[0] == rest[0]
    requires rest == [] ==> t == []
    ensures var u := [a] + t;
            NoTriple(u, c) &&
            (forall ch :: ch != c ==> (ch in u <==> ch in [a] + rest)) &&
            (NoPair([a] + rest, x) ==> NoPair(u, x))
  {
    var u := [a] + t;
    var s := [a] + rest;
    if NoPair(s, x) {
      forall i | 0 <= i < |rest| - 1 ensures !(rest[i] == x && rest[i + 1] == x) {
        assert rest[i] == s[1 + i] && rest[i + 1] == s[i + 2];
      }
      forall i | 0 <= i < |u| - 1 ensures !(u[i] == x && u[i + 1] == x) {
        if i == 0 {
          assert t != [];
          assert u[0] == s[0] && u[1] == rest[0] == s[1];
          assert !(s[0] == x && s[1] == x);
        } else {
          assert u[i] == t[i - 1] && u[i + 1] == t[i];
        }
      }
    }
    forall i | 0 <= i < |u| - 2 ensures !(u[i] == c && u[i + 1] == c && u[i + 2] == c) {
      if i > 0 {
        assert u[i] == t[i - 1] && u[i + 1] == t[i] && u[i + 2] == t[i + 1];
      }
    }
  }

  /** Capping a string without a run of three changes nothing. */
  lemma {:induction false} CapRunsFixed(s: string, c: char)
    requires NoTriple(s, c)
    ensures CapRuns(s, c) == s
    decreases |s|
  {
    if s != [] {
      if s[0] == c {
        var k := LeadEnd(s, {c}, 0);
        if |s| >= 3 {
          assert !(s[0] == c && s[1] == c && s[2] == c);
        }
        assert k < 3;
        forall i | 0 <= i < |s[k..]| - 2 ensures !(s[k..][i] == c && s[k..][i + 1] == c && s[k..][i + 2] == c) {
          assert s[k..][i] == s[k + i] && s[k..][i + 1] == s[k + i + 1] && s[k..][i + 2] == s[k + i + 2];
        }
        CapRunsFixed(s[k..], c);
        assert s == s[..k] + s[k..];
      } else {
        forall i | 0 <= i < |s[1..]| - 2 ensures !(s[1..][i] == c && s[1..][i + 1] == c && s[1..][i + 2] == c) {
          assert s[1..][i] == s[i + 1] && s[1..][i + 1] == s[i + 2] && s[1..][i + 2] == s[i + 3];
        }
        CapRunsFixed(s[1..], c);
        assert s == [s[0]] + s[1..];
      }
    }
  }

  /** `text.replace("\r\n", "\n").replace("\r", "\n")`. */
  function UnixNewlines(t: string): string {
    ReplaceAll(ReplaceAll(t, "\r\n", "\n"), "\r", "\n")
  }

  /** The character classes of `[ \t]+`. */
  const BLANKS: set<char> := {' ', '\t'}

  /**
   * `normalize_page_text`: newlines made Unix, runs of blanks made one space,
   * runs of three or more newlines made two, surrounding whitespace stripped.
   */
  function NormalizePageText(text: string): string {
    if text == "" then ""
    else Strip(CapRuns(CollapseRuns(UnixNewlines(text), BLANKS, ' '), '\n'))
  }

  /** The shape of a normalised page: no carriage return or tab, no double space, no triple newline. */
  predicate Tidy(s: string) {
    '\r' !in s && '\t' !in s && NoPair(s, ' ') && NoTriple(s, '\n')
  }

  /** Nothing to strip at either end. */
  predicate Stripped(s: string) {
    s == [] || (!IsSpace(s[0]) && !IsSpace(s[|s| - 1]))
  }

  lemma TidySlice(s: string, i: nat, j: nat)
    requires Tidy(s) && i <= j <= |s|
    ensures Tidy(s[i..j])
  {
    var u := s[i..j];
    assert forall k :: 0 <= k < |u| ==> u[k] == s[i + k];
  }

  /** What the normaliser guarantees of every page. */
  lemma NormalizePageTextShape(text: string)
    ensures Tidy(NormalizePageText(text)) && Stripped(NormalizePageText(text))
  {
    if text != "" {
      var a := UnixNewlines(text);
      ReplaceCharPointwise(ReplaceAll(text, "\r\n", "\n"), '\r', '\n');
      assert '\r' !in a;
      var b := CollapseRuns(a, BLANKS, ' ');
      CollapseRunsShape(a, BLANKS, ' ');
      assert '\r' !in b && '\t' !in b && NoPair(b, ' ');
      var c := CapRuns(b, '\n');
      CapRunsShape(b, '\n', ' ');
      assert Tidy(c);
      StripCharsSlice(c, WHITESPACE);
      var i, j :| 0 <= i <= j <= |c| && Strip(c) == c[i..j];
      TidySlice(c, i, j);
    }
  }

  /** A tidy, stripped text is its own normal form. */
  lemma NormalizePageTextFixed(s: string)
    requires Tidy(s) && Stripped(s)
    ensures NormalizePageText(s) == s
  {
    if s != "" {
      ReplaceAllAbsent(s, "\r\n", "\n");
      ReplaceAllAbsent(s, "\r", "\n");
      CollapseRunsFixed(s, BLANKS, ' ');
      CapRunsFixed(s, '\n');
      StripCharsNoop(s, WHITESPACE);
    }
  }

  /** Normalising twice is normalising once. */
  lemma NormalizePageTextIdempotent(text: string)
    ensures NormalizePageText(NormalizePageText(text)) == NormalizePageText(text)
  {
    NormalizePageTextShape(text);
    NormalizePageTextFixed(NormalizePageText(text));
  }

  // ---------------------------------------------------------------------
  // split_chunks
  // ---------------------------------------------------------------------

  /** What a group of lines costs against the budget: each line and its newline. */
  function Cost(g: seq<string>): (n: nat)
    ensures g != [] ==> n >= |g|
    decreases |g|
  {
    if g == [] then 0 else |g[0]| + 1 + Cost(g[1..])
  }

  lemma {:induction false} CostSnoc(g: seq<string>, line: string)
    ensures Cost(g + [line]) == Cost(g) + |line| + 1
    decreases |g|
  {
    if g == [] {
      assert [] + [line] == [line];
      assert [line][1..] == [];
    } else {
      assert (g + [line])[1..] == g[1..] + [line];
      CostSnoc(g[1..], line);
    }
  }

  /** A group of lines joined by newlines is one character shorter than its cost. */
  lemma {:induction false} JoinLength(g: seq<string>)
    requires g != []
    ensures |Join(g, "\n")| == Cost(g) - 1
    decreases |g|
  {
    if |g| > 1 {
      JoinLength(g[1..]);
    }
  }

  /** The accumulators of the chunking loop: finished groups, the open group and its cost. */
  datatype ChunkState = ChunkState(done: seq<seq<string>>, buf: seq<string>, cur: int)

  /** The chunking loop after it has consumed `lines`. */
  function Scan(lines: seq<string>, maxLen: int): ChunkState
    decreases |lines|
  {
    if lines == [] then ChunkState([], [], 0)
    else
      var st := Scan(lines[..|lines| - 1], maxLen);
      var line := lines[|lines| - 1];
      if st.cur + |line| + 1 > maxLen then ChunkState(st.done + [st.buf], [line], |line| + 1)
      else ChunkState(st.done, st.buf + [line], st.cur + |line| + 1)
  }

  /** The groups of lines the chunker emits: the finished ones and the open one if it has a line. */
  function Groups(lines: seq<string>, maxLen: int): seq<seq<string>> {
    var st := Scan(lines, maxLen);
    st.done + (if st.buf != [] then [st.buf] else [])
  }

  /** Each group of lines joined by newlines. */
  function JoinAll(gs: seq<seq<string>>): (r: seq<string>)
    ensures |r| == |gs|
    ensures forall k :: 0 <= k < |gs| ==> r[k] == Join(gs[k], "\n")
  {
    seq(|gs|, k requires 0 <= k < |gs| => Join(gs[k], "\n"))
  }

  /** `split_chunks(text, max_len)`. */
  function Chunks(text: string, maxLen: int): seq<string> {
    JoinAll(Groups(SplitLines(text), maxLen))
  }

  /** The state invariant of the chunking loop: cost bookkeeping and coverage. */
  lemma {:induction false} ScanCovers(lines: seq<string>, maxLen: int)
    ensures var st := Scan(lines, maxLen);
            Flatten(st.done) + st.buf == lines &&
            st.cur == Cost(st.buf) &&
            (lines != [] ==> st.buf != [])
    decreases |lines|
  {
    if lines != [] {
      var init := lines[..|lines| - 1];
      var line := lines[|lines| - 1];
      ScanCovers(init, maxLen);
      var st := Scan(init, maxLen);
      CoversStep(st.done, st.buf, st.cur, init, line, maxLen);
      assert lines == init + [line];
    }
  }

  /** One more line keeps the finished groups and the open group covering the lines seen. */
  lemma CoversStep(done: seq<seq<string>>, buf: seq<string>, cur: int, init: seq<string>, line: string, maxLen: int)
    requires Flatten(done) + buf == init && cur == Cost(buf)
    ensures var st := if cur + |line| + 1 > maxLen then ChunkState(done + [buf], [line], |line| + 1)
                      else ChunkState(done, buf + [line], cur + |line| + 1);
            Flatten(st.done) + st.buf == init + [line] && st.cur == Cost(st.buf) && st.buf != []
  {
    CostSnoc(buf, line);
    if cur + |line| + 1 > maxLen {
      CostSnoc([], line);
      assert [] + [line] == [line];
      FlattenAppend(done, [buf]);
      assert Flatten([buf]) == buf by {
        assert [buf][..0] == [];
      }
    }
  }

  /** A group of two or more lines fits the budget. */
  predicate Packed(g: seq<string>, maxLen: int) {
    |g| >= 2 ==> Cost(g) <= maxLen
  }

  lemma {:induction false} ScanPacked(lines: seq<string>, maxLen: int)
    ensures var st := Scan(lines, maxLen);
            Packed(st.buf, maxLen) && forall k :: 0 <= k < |st.done| ==> Packed(st.done[k], maxLen)
    decreases |lines|
  {
    if lines != [] {
      var init := lines[..|lines| - 1];
      var line := lines[|lines| - 1];
      ScanPacked(init, maxLen);
      ScanCovers(init, maxLen);
      var st := Scan(init, maxLen);
      CostSnoc(st.buf, line);
    }
  }

  /**
   * Only the first finished group can be empty, and it is exactly when the
   * first line does not fit the budget on its own.
   */
  lemma {:induction false} ScanEmptyGroups(lines: seq<string>, maxLen: int)
    ensures var st := Scan(lines, maxLen);
            (forall k :: 0 < k < |st.done| ==> st.done[k] != []) &&
            (lines != [] ==> (|st.done| > 0 && st.done[0] == [] <==> |lines[0]| + 1 > maxLen))
    decreases |lines|
  {
    if lines != [] {
      var init := lines[..|lines| - 1];
      ScanEmptyGroups(init, maxLen);
      ScanCovers(init, maxLen);
      if init != [] {
        assert init[0] == lines[0];
      }
    }
  }

  /** Group `a` was closed because the first line of the following group `b` did not fit. */
  predicate Closed(a: seq<string>, b: seq<string>, maxLen: int) {
    b != [] && Cost(a) + |b[0]| + 1 > maxLen
  }

  /** Every group but the last was closed by the group after it. */
  predicate Greedy(gs: seq<seq<string>>, maxLen: int) {
    forall k :: 0 <= k < |gs| - 1 ==> Closed(gs[k], gs[k + 1], maxLen)
  }

  /** Greedy packing: each finished group was closed because the next line did not fit. */
  lemma {:induction false} ScanGreedy(lines: seq<string>, maxLen: int)
    ensures Greedy(Scan(lines, maxLen).done + [Scan(lines, maxLen).buf], maxLen)
    decreases |lines|
  {
    if lines != [] {
      var init := lines[..|lines| - 1];
      var line := lines[|lines| - 1];
      ScanGreedy(init, maxLen);
      ScanCovers(init, maxLen);
      var st := Scan(init, maxLen);
      var gs := st.done + [st.buf];
      var st' := Scan(lines, maxLen);
      var gs' := st'.done + [st'.buf];
      if st.cur + |line| + 1 > maxLen {
        assert gs' == gs + [[line]];
        assert Closed(gs[|gs| - 1], [line], maxLen);
      } else {
        assert |gs'| == |gs|;
        forall k | 0 <= k < |gs'| - 1
          ensures Closed(gs'[k], gs'[k + 1], maxLen)
        {
          assert gs'[k] == gs[k];
          assert Closed(gs[k], gs[k + 1], maxLen);
          if k + 1 < |gs| - 1 {
            assert gs'[k + 1] == gs[k + 1];
          } else {
            assert gs[k + 1] == st.buf && gs'[k + 1] == st.buf + [line];
          }
        }
      }
    }
  }

  /** The chunks' lines, concatenated in order, are the lines of the text. */
  lemma GroupsCover(text: string, maxLen: int)
    ensures Flatten(Groups(SplitLines(text), maxLen)) == SplitLines(text)
  {
    var lines := SplitLines(text);
    var st := Scan(lines, maxLen);
    ScanCovers(lines, maxLen);
    if st.buf != [] {
      FlattenAppend(st.done, [st.buf]);
      assert Flatten([st.buf]) == Flatten([st.buf][..0]) + st.buf;
    } else {
      assert Groups(lines, maxLen) == st.done;
    }
  }

  /** Empty text gives no chunk, and any other text at least one. */
  lemma ChunksEmpty(text: string, maxLen: int)
    ensures Chunks(text, maxLen) == [] <==> text == ""
  {
    ScanCovers(SplitLines(text), maxLen);
  }

  /** A chunk of two or more lines is shorter than the budget. */
  lemma ChunkBound(text: string, maxLen: int, k: nat)
    requires k < |Groups(SplitLines(text), maxLen)|
    ensures |Groups(SplitLines(text), maxLen)[k]| >= 2 ==> |Chunks(text, maxLen)[k]| < maxLen
  {
    var lines := SplitLines(text);
    var g := Groups(lines, maxLen)[k];
    ScanPacked(lines, maxLen);
    if |g| >= 2 {
      JoinLength(g);
    }
  }

  /**
   * A chunk of no line (the string "") is the first chunk, and occurs exactly
   * when the first line is too long for the budget.
   */
  lemma EmptyGroupFirst(text: string, maxLen: int)
    ensures var gs := Groups(SplitLines(text), maxLen);
            (forall k :: 0 < k < |gs| ==> gs[k] != []) &&
            (|gs| > 0 && gs[0] == [] <==> text != "" && |SplitLines(text)[0]| + 1 > maxLen)
  {
    var lines := SplitLines(text);
    ScanEmptyGroups(lines, maxLen);
    ScanCovers(lines, maxLen);
  }

  /** Each chunk but the last was closed because the first line of the next did not fit. */
  lemma ChunksGreedy(text: string, maxLen: int, k: nat)
    requires k + 1 < |Groups(SplitLines(text), maxLen)|
    ensures Closed(Groups(SplitLines(text), maxLen)[k], Groups(SplitLines(text), maxLen)[k + 1], maxLen)
  {
    var lines := SplitLines(text);
    ScanGreedy(lines, maxLen);
    ScanCovers(lines, maxLen);
  }

  /** `split_chunks`: the loop over the lines with its `buf`/`cur` accumulators. */
  method SplitChunks(text: string, maxLen: int) returns (chunks: seq<string>)
    ensures chunks == Chunks(text, maxLen)
  {
    var lines := SplitLines(text);
    chunks := [];
    var buf: seq<string> := [];
    var cur := 0;
    var i := 0;
    while i < |lines|
      invariant 0 <= i <= |lines|
      invariant chunks == JoinAll(Scan(lines[..i], maxLen).done)
      invariant buf == Scan(lines[..i], maxLen).buf && cur == Scan(lines[..i], maxLen).cur
    {
      var line := lines[i];
      assert lines[..i + 1][..i] == lines[..i];
      ghost var done := Scan(lines[..i], maxLen).done;
      if cur + |line| + 1 > maxLen {
        assert JoinAll(done + [buf]) == JoinAll(done) + [Join(buf, "\n")];
        chunks := chunks + [Join(buf, "\n")];
        buf := [line];
        cur := |line| + 1;
      } else {
        buf := buf + [line];
        cur := cur + |line| + 1;
      }
      i := i + 1;
    }
    assert lines[..i] == lines;
    if buf != [] {
      ghost var done := Scan(lines, maxLen).done;
      assert JoinAll(done + [buf]) == JoinAll(done) + [Join(buf, "\n")];
      chunks := chunks + [Join(buf, "\n")];
    } else {
      assert Groups(lines, maxLen) == Scan(lines, maxLen).done;
    }
  }

  // ---------------------------------------------------------------------
  // Page selection in extract_text_pdf
  // ---------------------------------------------------------------------

  /**
   * A page as the PDF reader and the OCR engine present it: its text layer,
   * the text field of each of its blocks (`None` for a block without a
   * string at index 4) and the text OCR would read from it.
   */
  datatype Page = Page(text: string, blocks: seq<Option<string>>, ocr: string)

  /** The string text fields of the blocks, in order. */
  function BlockTexts(blocks: seq<Option<string>>): (ts: seq<string>)
    ensures |ts| <= |blocks|
    ensures forall t :: t in ts <==> Some(t) in blocks
    decreases |blocks|
  {
    if blocks == [] then []
    else
      var ts := BlockTexts(blocks[..|blocks| - 1]);
      assert blocks == blocks[..|blocks| - 1] + [blocks[|blocks| - 1]];
      match blocks[|blocks| - 1]
      case Some(t) => ts + [t]
      case None => ts
  }

  /** The normalised text of the page's blocks joined by newlines. */
  function BlockText(p: Page): string {
    NormalizePageText(Join(BlockTexts(p.blocks), "\n"))
  }

  /** The text layer, replaced by the block text when the layer is short (under 80) and the block text longer. */
  function LayerText(p: Page): string {
    var pt := NormalizePageText(p.text);
    if |pt| < 80 && |BlockText(p)| > |pt| then BlockText(p) else pt
  }

  /** Whether OCR is attempted on the page: it is enabled and the text found so far is under 200 characters. */
  predicate TriesOcr(p: Page, useOcr: bool) {
    useOcr && |LayerText(p)| < 200
  }

  /** What the page contributes to the document text ("" for nothing). */
  function PagePick(p: Page, useOcr: bool): string {
    var pt := LayerText(p);
    var ot := NormalizePageText(p.ocr);
    if TriesOcr(p, useOcr) && ot != "" && (pt == "" || |ot| > |pt|) then ot else pt
  }

  /** The contributions of the pages, in page order. */
  function Picks(pages: seq<Page>, useOcr: bool): (r: seq<string>)
    ensures |r| == |pages|
    decreases |pages|
  {
    if pages == [] then []
    else Picks(pages[..|pages| - 1], useOcr) + [PagePick(pages[|pages| - 1], useOcr)]
  }

  /** Python's `s[:n]`, a negative `n` counting from the end. */
  function PyPrefix(s: string, n: int): (r: string)
    ensures n >= 0 ==> |r| == if n < |s| then n else |s|
    ensures n < 0 ==> |r| == if |s| + n > 0 then |s| + n else 0
    ensures r <= s
  {
    if n >= 0 then (if n < |s| then s[..n] else s)
    else if |s| + n > 0 then s[..|s| + n] else []
  }

  /** The document text: the non-empty contributions joined by newlines, stripped, capped at `maxChars`. */
  function ExtractText(pages: seq<Page>, maxChars: int, useOcr: bool): string {
    PyPrefix(Strip(Join(NonEmpty(Picks(pages, useOcr)), "\n")), maxChars)
  }

  /** The page's contribution is one of its three candidate texts. */
  lemma PagePickSource(p: Page, useOcr: bool)
    ensures var r := PagePick(p, useOcr);
            r == NormalizePageText(p.text) || r == BlockText(p) || r == NormalizePageText(p.ocr)
  {
  }

  /**
   * The contribution is at least as long as every candidate the page
   * considers: the text layer always, the block text when the layer is under
   * 80 characters, the OCR text when OCR is tried. On a tie between the layer
   * and OCR the layer is kept.
   */
  lemma PagePickLongest(p: Page, useOcr: bool)
    ensures var r := PagePick(p, useOcr);
            var pt := NormalizePageText(p.text);
            |r| >= |pt| &&
            (|pt| < 80 ==> |r| >= |BlockText(p)|) &&
            (TriesOcr(p, useOcr) ==> |r| >= |NormalizePageText(p.ocr)|) &&
            (|NormalizePageText(p.ocr)| == |LayerText(p)| && LayerText(p) != "" ==> r == LayerText(p))
  {
  }

  /** A page contributes nothing exactly when every candidate it considers is empty. */
  lemma PagePickEmpty(p: Page, useOcr: bool)
    ensures PagePick(p, useOcr) == "" <==>
            NormalizePageText(p.text) == "" &&
            BlockText(p) == "" &&
            (TriesOcr(p, useOcr) ==> NormalizePageText(p.ocr) == "")
  {
  }

  /** Every contribution has the normalised shape. */
  lemma PagePickTidy(p: Page, useOcr: bool)
    ensures Tidy(PagePick(p, useOcr)) && Stripped(PagePick(p, useOcr))
  {
    NormalizePageTextShape(p.text);
    NormalizePageTextShape(p.ocr);
    NormalizePageTextShape(Join(BlockTexts(p.blocks), "\n"));
  }

  /** The first and the last character of a join of non-empty parts come from the first and the last part. */
  lemma {:induction false} JoinEnds(parts: seq<string>, sep: string)
    requires parts != [] && forall k :: 0 <= k < |parts| ==> parts[k] != ""
    ensures var j := Join(parts, sep);
            j != [] && j[0] == parts[0][0] && j[|j| - 1] == parts[|parts| - 1][|parts[|parts| - 1]| - 1]
    decreases |parts|
  {
    if |parts| > 1 {
      JoinEnds(parts[1..], sep);
    }
  }

  lemma {:induction false} PicksTidy(pages: seq<Page>, useOcr: bool)
    ensures forall t :: t in Picks(pages, useOcr) ==> Stripped(t)
    decreases |pages|
  {
    if pages != [] {
      PicksTidy(pages[..|pages| - 1], useOcr);
      PagePickTidy(pages[|pages| - 1], useOcr);
    }
  }

  /**
   * The final strip leaves the join of the contributions as it is, so the
   * document text is the newline join of the non-empty contributions, cut at
   * `maxChars`.
   */
  lemma ExtractTextJoin(pages: seq<Page>, maxChars: int, useOcr: bool)
    ensures var j := Join(NonEmpty(Picks(pages, useOcr)), "\n");
            ExtractText(pages, maxChars, useOcr) == PyPrefix(j, maxChars)
  {
    var kept := NonEmpty(Picks(pages, useOcr));
    NonEmptyMembers(Picks(pages, useOcr));
    PicksTidy(pages, useOcr);
    if kept != [] {
      assert forall k :: 0 <= k < |kept| ==> kept[k] in kept;
      JoinEnds(kept, "\n");
      assert kept[0] in kept && kept[|kept| - 1] in kept;
    }
    StripCharsNoop(Join(kept, "\n"), WHITESPACE);
  }

  /** The document text is never longer than the cap, and is a prefix of the joined contributions. */
  lemma ExtractTextBound(pages: seq<Page>, maxChars: nat, useOcr: bool)
    ensures var r := ExtractText(pages, maxChars, useOcr);
            |r| <= maxChars && r <= Join(NonEmpty(Picks(pages, useOcr)), "\n")
  {
    ExtractTextJoin(pages, maxChars, useOcr);
  }

  lemma KeptSnoc(pages: seq<Page>, idx: nat, useOcr: bool)
    requires idx < |pages|
    ensures var pick := PagePick(pages[idx], useOcr);
            NonEmpty(Picks(pages[..idx + 1], useOcr)) ==
            NonEmpty(Picks(pages[..idx], useOcr)) + (if pick != "" then [pick] else [])
  {
    assert pages[..idx + 1][..idx] == pages[..idx];
  }

  /** `extract_text_pdf` over given pages: the page loop that grows and revises `text_chunks`. */
  method ExtractTextPdf(pages: seq<Page>, maxChars: int, useOcr: bool) returns (r: string)
    ensures r == ExtractText(pages, maxChars, useOcr)
  {
    var textChunks: seq<string> := [];
    for idx := 0 to |pages|
      invariant textChunks == NonEmpty(Picks(pages[..idx], useOcr))
    {
      var page := pages[idx];
      KeptSnoc(pages, idx, useOcr);
      var pageText := NormalizePageText(page.text);
      if |pageText| < 80 {
        var blockText := NormalizePageText(Join(BlockTexts(page.blocks), "\n"));
        if |blockText| > |pageText| {
          pageText := blockText;
        }
      }
      assert pageText == LayerText(page);
      if pageText != "" {
        textChunks := textChunks + [pageText];
      }
      var shouldTryOcr := useOcr && |pageText| < 200;
      if shouldTryOcr {
        var ocrText := NormalizePageText(page.ocr);
        if ocrText != "" {
          if pageText != "" && textChunks != [] {
            var candidate := if |ocrText| > |pageText| then ocrText else pageText;
            textChunks := textChunks[..|textChunks| - 1] + [candidate];
          } else {
            textChunks := textChunks + [ocrText];
          }
        }
      }
    }
    assert pages[..|pages|] == pages;
    var joined := Strip(Join(textChunks, "\n"));
    r := if maxChars >= 0 then (if maxChars < |joined| then joined[..maxChars] else joined)
         else if |joined| + maxChars > 0 then joined[..|joined| + maxChars] else [];
  }
}
