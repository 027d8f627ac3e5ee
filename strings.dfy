/**
 * The Python `str` operations the model relies on, restricted to ASCII:
 * character classes (`isspace`, `isalnum`, regex `\s`, `\d`, `\w`), case
 * mapping, `strip`, `split`, `join`, `replace`, `splitlines`,
 * `os.path.splitext`, `os.path.basename`, `str(int)` and `int(str)`.
 */
module Strings {

  // ---------------------------------------------------------------------
  // Character classes
  // ---------------------------------------------------------------------

  /** What `str.isspace` and the regex class `\s` accept among ASCII characters. */
  const WHITESPACE: set<char> :=
    {9 as char, 10 as char, 11 as char, 12 as char, 13 as char,
     28 as char, 29 as char, 30 as char, 31 as char, ' '}

  predicate IsSpace(c: char) { c in WHITESPACE }
  predicate IsDigit(c: char) { '0' <= c <= '9' }
  predicate IsUpper(c: char) { 'A' <= c <= 'Z' }
  predicate IsLower(c: char) { 'a' <= c <= 'z' }
  predicate IsLetter(c: char) { IsUpper(c) || IsLower(c) }
  predicate IsAlnum(c: char) { IsLetter(c) || IsDigit(c) }

  /** The regex class `\w`, whose edges `\b` detects. */
  predicate IsWordChar(c: char) { IsAlnum(c) || c == '_' }

  /** A line boundary of `str.splitlines` (the pair "\r\n" is one boundary). */
  predicate IsLineBreak(c: char) {
    c == '\n' || c == '\r' || c == 11 as char || c == 12 as char ||
    c == 28 as char || c == 29 as char || c == 30 as char
  }

  function Lower(c: char): (r: char)
    ensures IsUpper(c) ==> IsLower(r)
    ensures !IsUpper(c) ==> r == c
    ensures IsAlnum(r) <==> IsAlnum(c)
  {
    if IsUpper(c) then (c as int + 32) as char else c
  }

  function Upper(c: char): (r: char)
    ensures IsLower(c) ==> IsUpper(r)
    ensures !IsLower(c) ==> r == c
    ensures IsAlnum(r) <==> IsAlnum(c)
  {
    if IsLower(c) then (c as int - 32) as char else c
  }

  /** `s.lower()`. */
  function LowerStr(s: string): (r: string)
    ensures |r| == |s|
    ensures forall i :: 0 <= i < |s| ==> r[i] == Lower(s[i])
  {
    seq(|s|, i requires 0 <= i < |s| => Lower(s[i]))
  }

  /** `s.upper()`. */
  function UpperStr(s: string): (r: string)
    ensures |r| == |s|
    ensures forall i :: 0 <= i < |s| ==> r[i] == Upper(s[i])
  {
    seq(|s|, i requires 0 <= i < |s| => Upper(s[i]))
  }

  lemma LowerAppend(a: string, b: string)
    ensures LowerStr(a + b) == LowerStr(a) + LowerStr(b)
  {
    var l, r := LowerStr(a + b), LowerStr(a) + LowerStr(b);
    forall i | 0 <= i < |l|
      ensures l[i] == r[i]
    {
      if i < |a| {
        assert (a + b)[i] == a[i];
      } else {
        assert (a + b)[i] == b[i - |a|];
      }
    }
  }

  /** A string with no upper-case letter is its own lower case. */
  lemma LowerOfLower(s: string)
    requires forall i :: 0 <= i < |s| ==> !IsUpper(s[i])
    ensures LowerStr(s) == s
  {
  }

  lemma LowerOfUpper(s: string)
    requires forall i :: 0 <= i < |s| ==> IsAlnum(s[i])
    ensures LowerStr(UpperStr(s)) == LowerStr(s)
  {
  }

  // ---------------------------------------------------------------------
  // strip
  // ---------------------------------------------------------------------

  /** The end of the run of characters of `cs` that starts at `i`. */
  function LeadEnd(s: string, cs: set<char>, i: nat): (k: nat)
    requires i <= |s|
    ensures i <= k <= |s|
    ensures forall j :: i <= j < k ==> s[j] in cs
    ensures k < |s| ==> s[k] !in cs
    decreases |s| - i
  {
    if i < |s| && s[i] in cs then LeadEnd(s, cs, i + 1) else i
  }

  /** The start of the run of characters of `cs` that ends just before `j`. */
  function TrailStart(s: string, cs: set<char>, j: nat): (k: nat)
    requires j <= |s|
    ensures k <= j
    ensures forall i :: k <= i < j ==> s[i] in cs
    ensures k > 0 ==> s[k - 1] !in cs
    decreases j
  {
    if j > 0 && s[j - 1] in cs then TrailStart(s, cs, j - 1) else j
  }

  /** `s.lstrip(chars)`. */
  function LStrip(s: string, cs: set<char>): string {
    s[LeadEnd(s, cs, 0)..]
  }

  /** `s.strip(chars)`: what lies between the leading and the trailing run of `cs`. */
  function StripChars(s: string, cs: set<char>): (r: string)
    ensures r == [] || (r[0] !in cs && r[|r| - 1] !in cs)
  {
    var l := LeadEnd(s, cs, 0);
    if l == |s| then [] else s[l..TrailStart(s, cs, |s|)]
  }

  /** `s.strip()`. */
  function Strip(s: string): string {
    StripChars(s, WHITESPACE)
  }

  /** Stripping a string that has nothing to strip at either end leaves it as it is. */
  lemma StripCharsNoop(s: string, cs: set<char>)
    requires s == [] || (s[0] !in cs && s[|s| - 1] !in cs)
    ensures StripChars(s, cs) == s
  {
    if s != [] {
      assert LeadEnd(s, cs, 0) == 0;
      assert TrailStart(s, cs, |s|) == |s|;
    }
  }

  /** The stripped string is a slice of the original. */
  lemma StripCharsSlice(s: string, cs: set<char>)
    ensures exists i, j :: 0 <= i <= j <= |s| && StripChars(s, cs) == s[i..j]
  {
    var l := LeadEnd(s, cs, 0);
    if l == |s| {
      assert StripChars(s, cs) == s[0..0];
    } else {
      var t := TrailStart(s, cs, |s|);
      assert s[l] !in cs;
      assert l < t;
      assert StripChars(s, cs) == s[l..t];
    }
  }

  // ---------------------------------------------------------------------
  // Searching
  // ---------------------------------------------------------------------

  predicate StartsWith(s: string, p: string) {
    |p| <= |s| && s[..|p|] == p
  }

  predicate EndsWith(s: string, p: string) {
    |p| <= |s| && s[|s| - |p|..] == p
  }

  /** `sub in s`. */
  predicate Contains(s: string, sub: string)
    decreases |s|
  {
    if |sub| > |s| then false
    else s[..|sub|] == sub || (|s| > 0 && Contains(s[1..], sub))
  }

  lemma ContainsAt(s: string, sub: string, i: nat)
    requires i + |sub| <= |s| && s[i..i + |sub|] == sub
    ensures Contains(s, sub)
    decreases i
  {
    if i > 0 {
      assert s[1..][i - 1..i - 1 + |sub|] == sub;
      ContainsAt(s[1..], sub, i - 1);
    }
  }

  /** `sub` occurs in `s` at position `i`. */
  predicate OccursAt(s: string, sub: string, i: int) {
    0 <= i && i + |sub| <= |s| && s[i..i + |sub|] == sub
  }

  lemma ContainsIsSomewhere(s: string, sub: string)
    requires Contains(s, sub)
    ensures exists i :: OccursAt(s, sub, i)
    decreases |s|
  {
    if s[..|sub|] != sub {
      ContainsIsSomewhere(s[1..], sub);
      var i :| OccursAt(s[1..], sub, i);
      assert s[i + 1..i + 1 + |sub|] == sub;
      assert OccursAt(s, sub, i + 1);
    } else {
      assert OccursAt(s, sub, 0);
    }
  }

  /** Index of the first `c` in `s`, or -1 (`s.find(c)`). */
  function IndexOf(s: string, c: char): (k: int)
    ensures -1 <= k < |s|
    ensures k == -1 <==> c !in s
    ensures k >= 0 ==> s[k] == c && c !in s[..k]
  {
    if s == [] then -1
    else if s[0] == c then 0
    else
      var k := IndexOf(s[1..], c);
      assert s[1..][..(if k < 0 then 0 else k)] == s[1..1 + (if k < 0 then 0 else k)];
      if k < 0 then -1 else k + 1
  }

  /** Index of the last `c` in `s`, or -1 (`s.rfind(c)`). */
  function LastIndexOf(s: string, c: char): (k: int)
    ensures -1 <= k < |s|
    ensures k >= 0 ==> s[k] == c
    ensures forall j :: k < j < |s| ==> s[j] != c
    decreases |s|
  {
    if s == [] then -1
    else if s[|s| - 1] == c then |s| - 1
    else LastIndexOf(s[..|s| - 1], c)
  }

  /** Nothing after the last `c` is a `c`. */
  lemma AfterLastIndex(s: string, c: char)
    ensures c !in s[LastIndexOf(s, c) + 1..]
  {
    var k := LastIndexOf(s, c);
    var t := s[k + 1..];
    forall m | 0 <= m < |t|
      ensures t[m] != c
    {
      assert t[m] == s[k + 1 + m];
    }
  }

  // ---------------------------------------------------------------------
  // split, join, replace
  // ---------------------------------------------------------------------

  /** `s.split(c)` for a one-character separator: every piece, empty ones included. */
  function Split(s: string, c: char): (parts: seq<string>)
    ensures |parts| >= 1
    ensures forall i :: 0 <= i < |parts| ==> c !in parts[i]
    decreases |s|
  {
    var i := IndexOf(s, c);
    if i < 0 then [s] else [s[..i]] + Split(s[i + 1..], c)
  }

  /** The first separator of `a + [c] + b` is the one after `a` when `a` has none. */
  lemma SplitConcat(a: string, c: char, b: string)
    requires c !in a
    ensures Split(a + ([c] + b), c) == [a] + Split(b, c)
  {
    var s := a + ([c] + b);
    IndexOfConcat(a, [c] + b, c);
    assert IndexOf([c] + b, c) == 0;
    assert s[..|a|] == a && s[|a| + 1..] == b;
  }

  /** A prefix without `c` shifts the first `c` of what follows. */
  lemma {:induction false} IndexOfConcat(a: string, t: string, c: char)
    requires c !in a
    ensures IndexOf(a + t, c) == if IndexOf(t, c) < 0 then -1 else |a| + IndexOf(t, c)
    decreases |a|
  {
    if a == [] {
      assert a + t == t;
    } else {
      assert (a + t)[1..] == a[1..] + t;
      assert (a + t)[0] == a[0];
      IndexOfConcat(a[1..], t, c);
    }
  }

  lemma SplitNoSep(s: string, c: char)
    requires c !in s
    ensures Split(s, c) == [s]
  {
  }

  /** `sep.join(parts)`. */
  function Join(parts: seq<string>, sep: string): string
    decreases |parts|
  {
    if parts == [] then ""
    else if |parts| == 1 then parts[0]
    else parts[0] + sep + Join(parts[1..], sep)
  }

  /** Position of the first occurrence of `sub` in `s`, or -1 (`s.find(sub)`). */
  function Find(s: string, sub: string): (k: int)
    ensures k == -1 || OccursAt(s, sub, k)
    decreases |s|
  {
    if |sub| > |s| then -1
    else if s[..|sub|] == sub then 0
    else
      var k := Find(s[1..], sub);
      if k < 0 then -1
      else
        assert s[k + 1..k + 1 + |sub|] == s[1..][k..k + |sub|];
        k + 1
  }

  /** `s.split(sep, 1)`: one piece when `sep` does not occur, otherwise the parts around its first occurrence. */
  function SplitOnce(s: string, sep: string): (parts: seq<string>)
    requires sep != ""
    ensures 1 <= |parts| <= 2
    ensures |parts| == 1 ==> parts[0] == s
    ensures |parts| == 2 ==> s == parts[0] + sep + parts[1]
  {
    var k := Find(s, sep);
    if k < 0 then [s]
    else
      assert s == s[..k] + s[k..k + |sep|] + s[k + |sep|..];
      [s[..k], s[k + |sep|..]]
  }

  /** `s.replace(pat, rep)`: every non-overlapping occurrence, scanned left to right. */
  function ReplaceAll(s: string, pat: string, rep: string): string
    requires pat != ""
    decreases |s|
  {
    if |s| < |pat| then s
    else if s[..|pat|] == pat then rep + ReplaceAll(s[|pat|..], pat, rep)
    else [s[0]] + ReplaceAll(s[1..], pat, rep)
  }

  /** Replacing a one-character string by another maps the characters one by one. */
  lemma ReplaceCharPointwise(s: string, a: char, b: char)
    ensures var r := ReplaceAll(s, [a], [b]);
            |r| == |s| && forall i :: 0 <= i < |s| ==> r[i] == (if s[i] == a then b else s[i])
    decreases |s|
  {
    if |s| > 0 {
      ReplaceCharPointwise(s[1..], a, b);
    }
  }

  /** `re.sub("[cs]+", r, s)`: every maximal run of characters of `cs` becomes the single `r`. */
  function CollapseRuns(s: string, cs: set<char>, r: char): (t: string)
    ensures |t| <= |s|
    decreases |s|
  {
    if s == [] then []
    else if s[0] in cs then
      [r] + CollapseRuns(s[LeadEnd(s, cs, 0)..], cs, r)
    else [s[0]] + CollapseRuns(s[1..], cs, r)
  }

  /** Collapsing runs of characters that do not occur changes nothing. */
  lemma {:induction false} CollapseRunsAbsent(s: string, cs: set<char>, r: char)
    requires forall i :: 0 <= i < |s| ==> s[i] !in cs
    ensures CollapseRuns(s, cs, r) == s
    decreases |s|
  {
    if s != [] {
      CollapseRunsAbsent(s[1..], cs, r);
    }
  }

  /** No two consecutive characters of `s` are both `x`. */
  predicate NoPair(s: string, x: char) {
    forall i :: 0 <= i < |s| - 1 ==> !(s[i] == x && s[i + 1] == x)
  }

  /**
   * A string whose only characters of `cs` are isolated occurrences of the
   * replacement character is left as it is.
   */
  lemma {:induction false} CollapseRunsFixed(s: string, cs: set<char>, r: char)
    requires r in cs
    requires forall i :: 0 <= i < |s| && s[i] in cs ==> s[i] == r
    requires NoPair(s, r)
    ensures CollapseRuns(s, cs, r) == s
    decreases |s|
  {
    if s != [] {
      if s[0] in cs {
        assert LeadEnd(s, cs, 0) == 1 by {
          if |s| > 1 { assert s[1] != r; }
          assert LeadEnd(s, cs, 1) == 1;
        }
      }
      CollapseRunsFixed(s[1..], cs, r);
    }
  }

  /**
   * After collapsing, the characters of `cs` left are isolated replacement
   * characters, and every other character occurs exactly when it did before.
   */
  lemma {:induction false} CollapseRunsShape(s: string, cs: set<char>, r: char)
    requires r in cs
    ensures var t := CollapseRuns(s, cs, r);
            (forall i :: 0 <= i < |t| && t[i] in cs ==> t[i] == r) && NoPair(t, r) &&
            (forall ch :: ch !in cs ==> (ch in t <==> ch in s)) &&
            (s != [] ==> t != [] && t[0] == if s[0] in cs then r else s[0])
    decreases |s|
  {
    if s != [] {
      var t := CollapseRuns(s, cs, r);
      if s[0] in cs {
        var k := LeadEnd(s, cs, 0);
        var rest := s[k..];
        CollapseRunsShape(rest, cs, r);
        var t' := CollapseRuns(rest, cs, r);
        assert t == [r] + t';
        forall ch | ch !in cs ensures ch in t <==> ch in s {
          assert s == s[..k] + rest;
        }
        if rest != [] {
          assert rest[0] !in cs;
        }
      } else {
        CollapseRunsShape(s[1..], cs, r);
        var t' := CollapseRuns(s[1..], cs, r);
        assert t == [s[0]] + t';
        assert s == [s[0]] + s[1..];
      }
    }
  }

  /** Replacing one character by another distributes over concatenation. */
  lemma {:induction false} ReplaceCharAppend(a: string, b: string, c: char, d: char)
    ensures ReplaceAll(a + b, [c], [d]) == ReplaceAll(a, [c], [d]) + ReplaceAll(b, [c], [d])
    decreases |a|
  {
    if a == [] {
      assert a + b == b;
    } else {
      assert (a + b)[1..] == a[1..] + b;
      assert (a + b)[..1] == a[..1];
      ReplaceCharAppend(a[1..], b, c, d);
    }
  }

  /** Replacing a pattern whose first character does not occur changes nothing. */
  lemma {:induction false} ReplaceAllAbsent(s: string, pat: string, rep: string)
    requires pat != "" && pat[0] !in s
    ensures ReplaceAll(s, pat, rep) == s
    decreases |s|
  {
    if |s| >= |pat| {
      assert s[..|pat|][0] == s[0];
      ReplaceAllAbsent(s[1..], pat, rep);
    }
  }

  // ---------------------------------------------------------------------
  // Lines
  // ---------------------------------------------------------------------

  /** Index of the first line boundary in `s`, or |s|. */
  function LineEnd(s: string): (k: nat)
    ensures k <= |s|
    ensures forall i :: 0 <= i < k ==> !IsLineBreak(s[i])
    ensures k < |s| ==> IsLineBreak(s[k])
  {
    if s == [] || IsLineBreak(s[0]) then 0 else 1 + LineEnd(s[1..])
  }

  /** `s.splitlines()`: the lines without their boundaries; a final boundary opens no new line. */
  function SplitLines(s: string): (lines: seq<string>)
    ensures s == [] <==> lines == []
    ensures forall i, j :: 0 <= i < |lines| && 0 <= j < |lines[i]| ==> !IsLineBreak(lines[i][j])
    decreases |s|
  {
    if s == [] then []
    else
      var k := LineEnd(s);
      if k == |s| then [s]
      else
        var w := if s[k] == '\r' && k + 1 < |s| && s[k + 1] == '\n' then 2 else 1;
        [s[..k]] + SplitLines(s[k + w..])
  }

  // ---------------------------------------------------------------------
  // Paths (POSIX)
  // ---------------------------------------------------------------------

  /** `os.path.basename(p)`: what follows the last '/'. */
  function Basename(p: string): (b: string)
    ensures '/' !in b
    ensures EndsWith(p, b)
  {
    p[LastIndexOf(p, '/') + 1..]
  }

  predicate AllDots(s: string) {
    forall i :: 0 <= i < |s| ==> s[i] == '.'
  }

  /**
   * `os.path.splitext(p)`: the extension is the part from the last '.' of the last
   * path component, provided some character other than '.' precedes that dot in
   * the component; otherwise the extension is empty.
   */
  function SplitExt(p: string): (r: (string, string))
    ensures r.0 + r.1 == p
    ensures r.1 == [] || (r.1[0] == '.' && forall i :: 0 < i < |r.1| ==> r.1[i] != '.' && r.1[i] != '/')
  {
    var sep := LastIndexOf(p, '/');
    var dot := LastIndexOf(p, '.');
    if dot > sep && !AllDots(p[sep + 1..dot]) then
      SplitAt(p, dot, sep)
    else (p, "")
  }

  function SplitAt(p: string, dot: nat, sep: int): (r: (string, string))
    requires -1 <= sep < dot < |p| && p[dot] == '.'
    requires forall j :: dot < j < |p| ==> p[j] != '.'
    requires forall j :: sep < j < |p| ==> p[j] != '/'
    ensures r.0 + r.1 == p
    ensures r.1 == p[dot..]
    ensures r.1[0] == '.' && forall i :: 0 < i < |r.1| ==> r.1[i] != '.' && r.1[i] != '/'
  {
    assert p == p[..dot] + p[dot..];
    (p[..dot], p[dot..])
  }

  // ---------------------------------------------------------------------
  // Decimal numerals
  // ---------------------------------------------------------------------

  function DigitChar(d: nat): (c: char)
    requires d < 10
    ensures IsDigit(c)
  {
    (48 + d) as char
  }

  function DigitValue(c: char): (d: nat)
    requires IsDigit(c)
    ensures d < 10 && DigitChar(d) == c
  {
    c as int - 48
  }

  predicate AllDigits(s: string) {
    forall i :: 0 <= i < |s| ==> IsDigit(s[i])
  }

  /** `str(n)` for a natural number. */
  function NatToDec(n: nat): (s: string)
    ensures |s| >= 1 && AllDigits(s)
    ensures n < 10 <==> |s| == 1
    decreases n
  {
    if n < 10 then [DigitChar(n)] else NatToDec(n / 10) + [DigitChar(n % 10)]
  }

  /** `int(s)` for a string of decimal digits. */
  function DecValue(s: string): nat
    requires AllDigits(s)
    decreases |s|
  {
    if s == [] then 0 else DecValue(s[..|s| - 1]) * 10 + DigitValue(s[|s| - 1])
  }

  lemma DecValueOfNatToDec(n: nat)
    ensures DecValue(NatToDec(n)) == n
    decreases n
  {
    if n >= 10 {
      DecValueOfNatToDec(n / 10);
      var s := NatToDec(n);
      assert s[..|s| - 1] == NatToDec(n / 10);
    }
  }

  /** Different numbers have different numerals. */
  lemma NatToDecInjective(m: nat, n: nat)
    requires NatToDec(m) == NatToDec(n)
    ensures m == n
  {
    DecValueOfNatToDec(m);
    DecValueOfNatToDec(n);
  }
}
