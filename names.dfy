/**
 * Name clean-up shared by the analyser and the patient profiles: removal of a
 * trailing copy counter such as " (2)" (`strip_copy_suffix`, in the two
 * variants the code has), Python's `capitalize` and `title`, and the
 * analyser's `normalize_name`.
 */
module Names {
  import opened Wrappers
  import opened Strings

  // ---------------------------------------------------------------------
  // strip_copy_suffix
  // ---------------------------------------------------------------------

  /** The start of the run of digits that ends just before `j`. */
  function DigitRunStart(s: string, j: nat): (k: nat)
    requires j <= |s|
    ensures k <= j
    ensures forall i :: k <= i < j ==> IsDigit(s[i])
    ensures k > 0 ==> !IsDigit(s[k - 1])
    decreases j
  {
    if j == 0 || !IsDigit(s[j - 1]) then j else DigitRunStart(s, j - 1)
  }

  /** The index of the first '\n' of `s`, or |s|. */
  function FirstNewline(s: string): (f: nat)
    ensures f <= |s| && '\n' !in s[..f]
    ensures f < |s| ==> s[f] == '\n'
  {
    var k := IndexOf(s, '\n');
    if k < 0 then |s| else k
  }

  /**
   * Group 1 of `^(.*)\s+\((\d+)\)` matched against the whole of `u`: the
   * greedy `(.*)`, which cannot cross a newline, ends at the last position
   * from which a non-empty run of whitespace reaches the parenthesis.
   */
  function CounterPrefix(u: string): (g: Option<string>)
    ensures g.Some? ==> '\n' !in g.value && |g.value| < |u|
  {
    if |u| < 4 || u[|u| - 1] != ')' then None
    else
      var j := DigitRunStart(u, |u| - 1);
      if j == |u| - 1 || j < 2 || u[j - 1] != '(' then None
      else
        var r := TrailStart(u, WHITESPACE, j - 1);
        var f := FirstNewline(u);
        var k := if j - 2 < f then j - 2 else f;
        if r < j - 1 && r <= k then
          assert u[..k] == u[..f][..k];
          Some(u[..k])
        else None
  }

  /** Group 1 of `re.match(r"^(.*)\s+\((\d+)\)$", v)`, `$` also matching before a final newline. */
  function CopySuffixMatch(v: string): Option<string> {
    if v != [] && v[|v| - 1] == '\n' then CounterPrefix(v[..|v| - 1]) else CounterPrefix(v)
  }

  /** `strip_copy_suffix` of the patient profiles: the regex on the value as given. */
  function StripCopySuffix(v: string): string {
    CopySuffixMatch(v).GetOr(v)
  }

  /** `strip_copy_suffix` of the analyser: the regex on the stripped value, the stripped value otherwise. */
  function StripCopySuffixStripped(v: string): string {
    var t := Strip(v);
    CopySuffixMatch(t).GetOr(t)
  }

  /**
   * A copy counter appended to a name that ends in a non-space and has no
   * newline is removed, whatever the counter.
   */
  lemma CounterPrefixOf(g: string, d: string)
    requires '\n' !in g && (g == [] || !IsSpace(g[|g| - 1]))
    requires d != [] && AllDigits(d)
    ensures CopySuffixMatch(g + " (" + d + ")") == Some(g)
  {
    var u := g + " (" + d + ")";
    assert |u| == |g| + |d| + 3;
    assert u[|u| - 1] == ')';
    assert u[|g|] == ' ' && u[|g| + 1] == '(';
    assert forall i :: |g| + 2 <= i < |u| - 1 ==> u[i] == d[i - |g| - 2];
    assert forall i :: 0 <= i < |g| ==> u[i] == g[i];
    var j := DigitRunStart(u, |u| - 1);
    assert j == |g| + 2;
    var r := TrailStart(u, WHITESPACE, j - 1);
    if g != [] {
      assert u[|g| - 1] == g[|g| - 1];
    }
    assert r == |g|;
    assert forall i :: 0 <= i < |u| ==> u[i] != '\n';
    assert FirstNewline(u) == |u|;
    assert u[..|g|] == g;
  }

  lemma StripCopySuffixExample()
    ensures StripCopySuffix("referto (2)") == "referto"
  {
    assert "referto (2)" == "referto" + " (" + "2" + ")";
    CounterPrefixOf("referto", "2");
  }

  /** Without a closing parenthesis at the end there is nothing to remove. */
  lemma StripCopySuffixNone(v: string)
    requires v == [] || (v[|v| - 1] != ')' && v[|v| - 1] != '\n')
    ensures StripCopySuffix(v) == v
  {
  }

  // ---------------------------------------------------------------------
  // capitalize, title, normalize_name
  // ---------------------------------------------------------------------

  /** `s.capitalize()`: the first character upper case, the others lower case. */
  function Capitalize(s: string): (r: string)
    ensures |r| == |s|
    ensures s != [] ==> r[0] == Upper(s[0])
    ensures forall i :: 0 < i < |s| ==> r[i] == Lower(s[i])
  {
    if s == [] then [] else [Upper(s[0])] + LowerStr(s[1..])
  }

  /** Whether `s[i]` starts a word for `str.title`: it follows no letter. */
  predicate WordStart(s: string, i: nat)
    requires i < |s|
  {
    i == 0 || !IsLetter(s[i - 1])
  }

  /** `s.title()`: each letter upper case after a non-letter, lower case after a letter. */
  function Title(s: string): (r: string)
    ensures |r| == |s|
    ensures forall i :: 0 <= i < |s| ==>
              r[i] == if !IsLetter(s[i]) then s[i] else if WordStart(s, i) then Upper(s[i]) else Lower(s[i])
  {
    seq(|s|, i requires 0 <= i < |s| =>
      if !IsLetter(s[i]) then s[i] else if WordStart(s, i) then Upper(s[i]) else Lower(s[i]))
  }

  /** Title-casing twice is title-casing once. */
  lemma TitleIdempotent(s: string)
    ensures Title(Title(s)) == Title(s)
  {
    var t := Title(s);
    assert forall i :: 0 <= i < |s| ==> (IsLetter(t[i]) <==> IsLetter(s[i]));
    forall i | 0 <= i < |s| ensures Title(t)[i] == t[i] {
      if i > 0 {
        assert IsLetter(t[i - 1]) <==> IsLetter(s[i - 1]);
      }
    }
  }

  /** The characters `re.split(r"[\\s]+", ...)` splits at: backslash and the letter 's'. */
  const NAME_SEPARATORS: set<char> := {'\\', 's'}

  /** The parts of `raw` longer than one character, in order. */
  function LongParts(parts: seq<string>): (r: seq<string>)
    ensures forall p :: p in r ==> |p| > 1 && p in parts
    decreases |parts|
  {
    if parts == [] then []
    else LongParts(parts[..|parts| - 1]) + (if |parts[|parts| - 1]| > 1 then [parts[|parts| - 1]] else [])
  }

  lemma LongPartsSnoc(parts: seq<string>, p: string)
    ensures LongParts(parts + [p]) == LongParts(parts) + (if |p| > 1 then [p] else [])
  {
    assert (parts + [p])[..|parts|] == parts;
  }

  /** Each part capitalised. */
  function CapitalizeAll(parts: seq<string>): (r: seq<string>)
    ensures |r| == |parts|
    ensures forall i :: 0 <= i < |parts| ==> r[i] == Capitalize(parts[i])
  {
    seq(|parts|, i requires 0 <= i < |parts| => Capitalize(parts[i]))
  }

  /** `re.split(r"[\\s]+", t)`: `t` cut at every run of backslashes and letters 's'. */
  function SplitAtSeparators(t: string): seq<string> {
    Split(CollapseRuns(t, NAME_SEPARATORS, 's'), 's')
  }

  /**
   * `normalize_name`: the copy counter and surrounding blanks removed, split at
   * runs of backslashes and 's' (the character class `[\\s]` of the code, not
   * the whitespace class), single characters dropped, the rest capitalised
   * and joined by spaces.
   */
  function NormalizeName(raw: string): string {
    var t := Strip(StripCopySuffixStripped(raw));
    if t == "" then "" else Join(CapitalizeAll(LongParts(SplitAtSeparators(t))), " ")
  }

  /** A name without a backslash or an 's' is one part: it is only capitalised. */
  lemma NormalizeNameWhole(raw: string)
    requires var t := Strip(StripCopySuffixStripped(raw));
             |t| > 1 && '\\' !in t && 's' !in t
    ensures NormalizeName(raw) == Capitalize(Strip(StripCopySuffixStripped(raw)))
  {
    var t := Strip(StripCopySuffixStripped(raw));
    CollapseRunsAbsent(t, NAME_SEPARATORS, 's');
    SplitNoSep(t, 's');
    assert [t][..0] == [];
    assert LongParts([t]) == [t];
  }

  /**
   * A name with one letter 's' between two parts of two or more characters
   * that hold neither an 's' nor a backslash is cut at that 's': the 's' is
   * lost, and the parts are capitalised one by one and joined by a space.
   */
  lemma NormalizeNameAtS(raw: string, a: string, b: string)
    requires Strip(StripCopySuffixStripped(raw)) == a + "s" + b
    requires |a| > 1 && |b| > 1
    requires 's' !in a && '\\' !in a && 's' !in b && '\\' !in b
    ensures NormalizeName(raw) == Capitalize(a) + " " + Capitalize(b)
  {
    var t := Strip(StripCopySuffixStripped(raw));
    assert t != "";
    NamePartsAtS(a, b);
    var ca, cb := Capitalize(a), Capitalize(b);
    var caps := CapitalizeAll(LongParts(SplitAtSeparators(t)));
    assert caps == [ca, cb];
    assert NormalizeName(raw) == Join(caps, " ");
    assert Join([ca, cb], " ") == ca + " " + Join([cb], " ");
  }

  lemma NamePartsAtS(a: string, b: string)
    requires |a| > 1 && |b| > 1
    requires 's' !in a && '\\' !in a && 's' !in b && '\\' !in b
    ensures LongParts(SplitAtSeparators(a + "s" + b)) == [a, b]
  {
    var t := a + "s" + b;
    assert t == a + (['s'] + b);
    SepCharsOf(a, b);
    CollapseRunsFixed(t, NAME_SEPARATORS, 's');
    SplitConcat(a, 's', b);
    SplitNoSep(b, 's');
    assert SplitAtSeparators(t) == [a, b];
    LongPartsSnoc([], a);
    LongPartsSnoc([a], b);
    assert [] + [a] == [a] && [a] + [b] == [a, b];
  }

  /** In `a + "s" + b` with `a`, `b` free of separators, the one separator is the 's' between them. */
  lemma SepCharsOf(a: string, b: string)
    requires a != [] && b != []
    requires 's' !in a && '\\' !in a && 's' !in b && '\\' !in b
    ensures var t := a + "s" + b;
            (forall i :: 0 <= i < |t| && t[i] in NAME_SEPARATORS ==> t[i] == 's') && NoPair(t, 's')
  {
    var t := a + "s" + b;
    forall i | 0 <= i < |t|
      ensures t[i] in NAME_SEPARATORS ==> t[i] == 's'
      ensures t[i] == 's' ==> i == |a|
    {
      if i < |a| {
        assert t[i] == a[i];
      } else if i > |a| {
        assert t[i] == b[i - |a| - 1];
      }
    }
  }
}
