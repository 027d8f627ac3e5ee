/**
 * Date tokens found in clinical documents (`normalize_date_token` and
 * `extract_iso_date`): day-month-year or year-month-day with '/', '-', '.' or
 * blanks as separators, normalised to the ISO form YYYY-MM-DD.
 */
module Dates {
  import opened Wrappers
  import opened Strings

  // ---------------------------------------------------------------------
  // The proleptic Gregorian calendar, as Python's `datetime` accepts it
  // ---------------------------------------------------------------------

  predicate IsLeap(y: int) {
    y % 4 == 0 && (y % 100 != 0 || y % 400 == 0)
  }

  function DaysInMonth(y: int, m: int): (n: int)
    requires 1 <= m <= 12
    ensures 28 <= n <= 31
  {
    if m == 2 then (if IsLeap(y) then 29 else 28)
    else if m == 4 || m == 6 || m == 9 || m == 11 then 30
    else 31
  }

  /** What `datetime(year, month, day)` accepts: years 1 to 9999 (MINYEAR to MAXYEAR). */
  predicate ValidDate(y: int, m: int, d: int) {
    1 <= y <= 9999 && 1 <= m <= 12 && 1 <= d <= DaysInMonth(y, m)
  }

  // ---------------------------------------------------------------------
  // Fixed-width numerals
  // ---------------------------------------------------------------------

  lemma DecValueSnoc(s: string, c: char)
    requires AllDigits(s) && IsDigit(c)
    ensures AllDigits(s + [c])
    ensures DecValue(s + [c]) == DecValue(s) * 10 + DigitValue(c)
  {
    assert (s + [c])[..|s|] == s;
  }

  lemma DecValue2(s: string)
    requires |s| == 2 && AllDigits(s)
    ensures DecValue(s) == 10 * DigitValue(s[0]) + DigitValue(s[1])
  {
    assert s == [s[0]] + [s[1]];
    assert [s[0]] == [] + [s[0]];
    DecValueSnoc([], s[0]);
    DecValueSnoc([s[0]], s[1]);
  }

  lemma DecValue4(s: string)
    requires |s| == 4 && AllDigits(s)
    ensures DecValue(s) == 1000 * DigitValue(s[0]) + 100 * DigitValue(s[1]) + 10 * DigitValue(s[2]) + DigitValue(s[3])
  {
    DecValue2(s[..2]);
    assert s[..3] == s[..2] + [s[2]];
    DecValueSnoc(s[..2], s[2]);
    assert s == s[..3] + [s[3]];
    DecValueSnoc(s[..3], s[3]);
  }

  /** `%02d`. */
  function Pad2(n: nat): (s: string)
    requires n < 100
    ensures |s| == 2 && AllDigits(s) && DecValue(s) == n
  {
    var s := [DigitChar(n / 10), DigitChar(n % 10)];
    DecValue2(s);
    s
  }

  /** `%04d`. */
  function Pad4(n: nat): (s: string)
    requires n < 10000
    ensures |s| == 4 && AllDigits(s) && DecValue(s) == n
  {
    var r3 := n % 1000;
    var r2 := r3 % 100;
    var s := [DigitChar(n / 1000), DigitChar(r3 / 100), DigitChar(r2 / 10), DigitChar(r2 % 10)];
    assert n == 1000 * (n / 1000) + r3 && r3 == 100 * (r3 / 100) + r2 && r2 == 10 * (r2 / 10) + r2 % 10;
    DecValue4(s);
    s
  }

  /** A two-digit numeral is the padded form of its value. */
  lemma Pad2OfDecValue(s: string)
    requires |s| == 2 && AllDigits(s)
    ensures DecValue(s) < 100 && Pad2(DecValue(s)) == s
  {
    DecValue2(s);
  }

  lemma Pad4OfDecValue(s: string)
    requires |s| == 4 && AllDigits(s)
    ensures DecValue(s) < 10000 && Pad4(DecValue(s)) == s
  {
    DecValue4(s);
    var v0, v1, v2, v3 := DigitValue(s[0]), DigitValue(s[1]), DigitValue(s[2]), DigitValue(s[3]);
    var n := DecValue(s);
    assert n / 1000 == v0 && n % 1000 == 100 * v1 + 10 * v2 + v3;
    assert (n % 1000) / 100 == v1 && (n % 1000) % 100 == 10 * v2 + v3;
    assert ((n % 1000) % 100) / 10 == v2 && ((n % 1000) % 100) % 10 == v3;
  }

  // ---------------------------------------------------------------------
  // The ISO form
  // ---------------------------------------------------------------------

  /** `datetime(y, m, d).strftime("%Y-%m-%d")`, with the year written on four digits. */
  function IsoDate(y: nat, m: nat, d: nat): (s: string)
    requires ValidDate(y, m, d)
    ensures |s| == 10
  {
    Pad4(y) + ("-" + (Pad2(m) + ("-" + Pad2(d))))
  }

  /** `s` is YYYY-MM-DD naming a day of the calendar. */
  predicate IsIsoDate(s: string) {
    |s| == 10 && s[4] == '-' && s[7] == '-' &&
    AllDigits(s[..4]) && AllDigits(s[5..7]) && AllDigits(s[8..]) &&
    ValidDate(DecValue(s[..4]), DecValue(s[5..7]), DecValue(s[8..]))
  }

  lemma IsoDateIsIso(y: nat, m: nat, d: nat)
    requires ValidDate(y, m, d)
    ensures IsIsoDate(IsoDate(y, m, d))
  {
    var s := IsoDate(y, m, d);
    assert s[..4] == Pad4(y) && s[5..7] == Pad2(m) && s[8..] == Pad2(d);
  }

  // ---------------------------------------------------------------------
  // normalize_date_token
  // ---------------------------------------------------------------------

  /** `token.replace("/", "-").replace(".", "-")`. */
  function Dashed(t: string): string {
    ReplaceAll(ReplaceAll(t, "/", "-"), ".", "-")
  }

  /** `re.sub("-+", "-", re.sub(r"\s+", "-", dashed)).strip("-")`. */
  function Cleaned(t: string): string {
    StripChars(CollapseRuns(CollapseRuns(Dashed(t), WHITESPACE, '-'), {'-'}, '-'), {'-'})
  }

  /** The pieces `cleaned.split("-")` of a token. */
  function DateParts(token: string): seq<string> {
    Split(Cleaned(Strip(token)), '-')
  }

  /** A non-empty string of decimal digits: what `int()` is modelled to accept. */
  predicate IsNumeral(s: string) {
    s != "" && AllDigits(s)
  }

  /**
   * The (year, month, day) that three parts stand for: year first when the first
   * part has four characters, else year last when the last one has; every part
   * must be a numeral (`int()` fails otherwise).
   */
  function Fields(parts: seq<string>): Option<(nat, nat, nat)>
    requires |parts| == 3
  {
    if !(IsNumeral(parts[0]) && IsNumeral(parts[1]) && IsNumeral(parts[2])) then None
    else if |parts[0]| == 4 then Some((DecValue(parts[0]), DecValue(parts[1]), DecValue(parts[2])))
    else if |parts[2]| == 4 then Some((DecValue(parts[2]), DecValue(parts[1]), DecValue(parts[0])))
    else None
  }

  /**
   * `normalize_date_token`: the ISO form of a date token, or None for a blank
   * token, a token that does not split into exactly three parts, one with no
   * four-character first or last part, a non-numeric part or a day that is not
   * in the calendar.
   */
  function NormalizeDateToken(token: string): (r: Option<string>)
    ensures r.Some? ==> IsIsoDate(r.value)
    ensures r.Some? ==> Strip(token) != "" && |DateParts(token)| == 3 &&
                        (|DateParts(token)[0]| == 4 || |DateParts(token)[2]| == 4)
  {
    var t := Strip(token);
    if t == "" then None
    else
      var parts := DateParts(token);
      if |parts| != 3 then None
      else
        match Fields(parts)
        case None => None
        case Some((y, m, d)) =>
          if ValidDate(y, m, d) then
            IsoDateIsIso(y, m, d);
            Some(IsoDate(y, m, d))
          else None
  }

  /** `looks_like_date`. */
  predicate LooksLikeDate(s: string) {
    NormalizeDateToken(s).Some?
  }

  // How the cleaning treats three numerals between separators.

  /** `a + sep + b + sep + c`. */
  function Joined3(a: string, b: string, c: string, sep: char): string {
    a + ([sep] + (b + ([sep] + c)))
  }

  lemma Joined3At(a: string, b: string, c: string, sep: char, i: int)
    requires 0 <= i < |Joined3(a, b, c, sep)|
    ensures Joined3(a, b, c, sep)[i] ==
            if i < |a| then a[i]
            else if i == |a| then sep
            else if i < |a| + 1 + |b| then b[i - |a| - 1]
            else if i == |a| + 1 + |b| then sep
            else c[i - |a| - |b| - 2]
  {
  }

  lemma DashedGroups(a: string, b: string, c: string, sep: char)
    requires IsNumeral(a) && IsNumeral(b) && IsNumeral(c)
    requires sep == '/' || sep == '-' || sep == '.'
    ensures Dashed(Joined3(a, b, c, sep)) == Joined3(a, b, c, '-')
  {
    var t := Joined3(a, b, c, sep);
    var x := Joined3(a, b, c, '-');
    ReplaceCharPointwise(t, '/', '-');
    var t1 := ReplaceAll(t, "/", "-");
    ReplaceCharPointwise(t1, '.', '-');
    var t2 := ReplaceAll(t1, ".", "-");
    forall i | 0 <= i < |x| ensures t2[i] == x[i] {
      Joined3At(a, b, c, sep, i);
      Joined3At(a, b, c, '-', i);
    }
  }

  lemma NoBlanksInGroups(a: string, b: string, c: string)
    requires IsNumeral(a) && IsNumeral(b) && IsNumeral(c)
    ensures CollapseRuns(Joined3(a, b, c, '-'), WHITESPACE, '-') == Joined3(a, b, c, '-')
  {
    var x := Joined3(a, b, c, '-');
    forall i | 0 <= i < |x| ensures x[i] !in WHITESPACE {
      Joined3At(a, b, c, '-', i);
    }
    CollapseRunsAbsent(x, WHITESPACE, '-');
  }

  lemma SingleDashesInGroups(a: string, b: string, c: string)
    requires IsNumeral(a) && IsNumeral(b) && IsNumeral(c)
    ensures CollapseRuns(Joined3(a, b, c, '-'), {'-'}, '-') == Joined3(a, b, c, '-')
  {
    var x := Joined3(a, b, c, '-');
    forall i | 0 <= i < |x| - 1 ensures !(x[i] == '-' && x[i + 1] == '-') {
      Joined3At(a, b, c, '-', i);
      Joined3At(a, b, c, '-', i + 1);
    }
    CollapseRunsFixed(x, {'-'}, '-');
  }

  lemma NoEdgeDashesInGroups(a: string, b: string, c: string)
    requires IsNumeral(a) && IsNumeral(b) && IsNumeral(c)
    ensures StripChars(Joined3(a, b, c, '-'), {'-'}) == Joined3(a, b, c, '-')
  {
    var x := Joined3(a, b, c, '-');
    Joined3At(a, b, c, '-', 0);
    Joined3At(a, b, c, '-', |x| - 1);
    StripCharsNoop(x, {'-'});
  }

  lemma SplitGroups(a: string, b: string, c: string)
    requires IsNumeral(a) && IsNumeral(b) && IsNumeral(c)
    ensures Split(Joined3(a, b, c, '-'), '-') == [a, b, c]
  {
    NumeralNoDash(a);
    NumeralNoDash(b);
    NumeralNoDash(c);
    SplitNoSep(c, '-');
    SplitConcat(b, '-', c);
    assert Split(b + (['-'] + c), '-') == [b, c];
    SplitConcat(a, '-', b + (['-'] + c));
  }

  lemma NumeralNoDash(a: string)
    requires IsNumeral(a)
    ensures '-' !in a
  {
    assert forall i :: 0 <= i < |a| ==> IsDigit(a[i]);
  }

  lemma CleanedDashedGroups(a: string, b: string, c: string)
    requires IsNumeral(a) && IsNumeral(b) && IsNumeral(c)
    ensures var x := Joined3(a, b, c, '-');
            StripChars(CollapseRuns(CollapseRuns(x, WHITESPACE, '-'), {'-'}, '-'), {'-'}) == x
  {
    NoBlanksInGroups(a, b, c);
    SingleDashesInGroups(a, b, c);
    NoEdgeDashesInGroups(a, b, c);
  }

  lemma CleanedGroups(a: string, b: string, c: string, sep: char)
    requires IsNumeral(a) && IsNumeral(b) && IsNumeral(c)
    requires sep == '/' || sep == '-' || sep == '.'
    ensures Cleaned(Joined3(a, b, c, sep)) == Joined3(a, b, c, '-')
  {
    DashedGroups(a, b, c, sep);
    CleanedDashedGroups(a, b, c);
  }

  lemma StripGroups(a: string, b: string, c: string, sep: char)
    requires IsNumeral(a) && IsNumeral(b) && IsNumeral(c)
    requires sep == '/' || sep == '-' || sep == '.'
    ensures Strip(Joined3(a, b, c, sep)) == Joined3(a, b, c, sep)
  {
    var t := Joined3(a, b, c, sep);
    Joined3At(a, b, c, sep, 0);
    Joined3At(a, b, c, sep, |t| - 1);
    StripCharsNoop(t, WHITESPACE);
  }

  /** Three numerals joined by one of the separators split back into those numerals. */
  lemma DatePartsOfGroups(a: string, b: string, c: string, sep: char)
    requires IsNumeral(a) && IsNumeral(b) && IsNumeral(c)
    requires sep == '/' || sep == '-' || sep == '.'
    ensures Strip(Joined3(a, b, c, sep)) != ""
    ensures DateParts(Joined3(a, b, c, sep)) == [a, b, c]
  {
    StripGroups(a, b, c, sep);
    CleanedGroups(a, b, c, sep);
    SplitGroups(a, b, c);
  }

  /** Day-month-year tokens: "05/03/2024", "5.3.2024", "05-03-2024". */
  lemma DayMonthYearForm(a: string, b: string, c: string, sep: char)
    requires IsNumeral(a) && IsNumeral(b) && IsNumeral(c) && |a| != 4 && |c| == 4
    requires sep == '/' || sep == '-' || sep == '.'
    ensures var (y, m, d) := (DecValue(c), DecValue(b), DecValue(a));
            NormalizeDateToken(Joined3(a, b, c, sep)) ==
              if ValidDate(y, m, d) then Some(IsoDate(y, m, d)) else None
  {
    DatePartsOfGroups(a, b, c, sep);
  }

  /** Year-month-day tokens: "2024-03-05", "2024/3/5". */
  lemma YearMonthDayForm(a: string, b: string, c: string, sep: char)
    requires IsNumeral(a) && IsNumeral(b) && IsNumeral(c) && |a| == 4
    requires sep == '/' || sep == '-' || sep == '.'
    ensures var (y, m, d) := (DecValue(a), DecValue(b), DecValue(c));
            NormalizeDateToken(Joined3(a, b, c, sep)) ==
              if ValidDate(y, m, d) then Some(IsoDate(y, m, d)) else None
  {
    DatePartsOfGroups(a, b, c, sep);
  }

  /** An ISO date is its own normal form. */
  lemma NormalizeIso(s: string)
    requires IsIsoDate(s)
    ensures NormalizeDateToken(s) == Some(s)
  {
    var y, m, d := s[..4], s[5..7], s[8..];
    assert s == Joined3(y, m, d, '-');
    YearMonthDayForm(y, m, d, '-');
    Pad4OfDecValue(y);
    Pad2OfDecValue(m);
    Pad2OfDecValue(d);
  }

  /** The output of the normaliser is a fixed point of it. */
  lemma NormalizeIdempotent(token: string)
    requires NormalizeDateToken(token).Some?
    ensures NormalizeDateToken(NormalizeDateToken(token).value) == NormalizeDateToken(token)
  {
    NormalizeIso(NormalizeDateToken(token).value);
  }

  lemma DecValueExamples()
    ensures DecValue("05") == 5 && DecValue("03") == 3 && DecValue("5") == 5 && DecValue("3") == 3
    ensures DecValue("31") == 31 && DecValue("02") == 2 && DecValue("2024") == 2024
  {
    DecValue2("05");
    DecValue2("03");
    DecValue2("31");
    DecValue2("02");
    DecValue4("2024");
    assert "5"[..0] == [] && "3"[..0] == [];
  }

  // Five spellings of 5 March 2024, and a day February does not have.

  lemma Iso20240305()
    ensures ValidDate(2024, 3, 5) && IsoDate(2024, 3, 5) == "2024-03-05"
  {
  }

  lemma NormalizeExampleSlashes()
    ensures NormalizeDateToken("05/03/2024") == Some("2024-03-05")
  {
    DecValueExamples();
    Iso20240305();
    assert "05/03/2024" == Joined3("05", "03", "2024", '/');
    DayMonthYearForm("05", "03", "2024", '/');
  }

  lemma NormalizeExampleDashes()
    ensures NormalizeDateToken("05-03-2024") == Some("2024-03-05")
  {
    DecValueExamples();
    Iso20240305();
    assert "05-03-2024" == Joined3("05", "03", "2024", '-');
    DayMonthYearForm("05", "03", "2024", '-');
  }

  lemma NormalizeExampleDots()
    ensures NormalizeDateToken("05.03.2024") == Some("2024-03-05")
  {
    DecValueExamples();
    Iso20240305();
    assert "05.03.2024" == Joined3("05", "03", "2024", '.');
    DayMonthYearForm("05", "03", "2024", '.');
  }

  lemma NormalizeExampleShort()
    ensures NormalizeDateToken("5/3/2024") == Some("2024-03-05")
  {
    DecValueExamples();
    Iso20240305();
    assert "5/3/2024" == Joined3("5", "3", "2024", '/');
    DayMonthYearForm("5", "3", "2024", '/');
  }

  lemma NormalizeExampleIso()
    ensures NormalizeDateToken("2024-03-05") == Some("2024-03-05")
  {
    DecValueExamples();
    Iso20240305();
    assert "2024-03-05" == Joined3("2024", "03", "05", '-');
    YearMonthDayForm("2024", "03", "05", '-');
  }

  lemma NormalizeExampleNoSuchDay()
    ensures NormalizeDateToken("31-02-2024") == None
  {
    DecValueExamples();
    assert !ValidDate(2024, 2, 31);
    assert "31-02-2024" == Joined3("31", "02", "2024", '-');
    DayMonthYearForm("31", "02", "2024", '-');
  }

  // ---------------------------------------------------------------------
  // extract_iso_date: the search patterns
  // ---------------------------------------------------------------------

  /** The regular-expression atoms the date patterns use: `\d{lo,hi}` and a literal. */
  datatype Atom = Digits(lo: nat, hi: nat) | Lit(c: char)

  type Pattern = seq<Atom>

  /** `DATE_SEARCH_PATTERNS`, in the order they are tried. */
  const DATE_SEARCH_PATTERNS: seq<Pattern> := [
    [Digits(4, 4), Lit('-'), Digits(1, 2), Lit('-'), Digits(1, 2)],
    [Digits(1, 2), Lit('/'), Digits(1, 2), Lit('/'), Digits(4, 4)],
    [Digits(1, 2), Lit('-'), Digits(1, 2), Lit('-'), Digits(4, 4)],
    [Digits(1, 2), Lit('.'), Digits(1, 2), Lit('.'), Digits(4, 4)]
  ]

  /** The number of digits starting at `i`, at most `hi`. */
  function DigitRun(s: string, i: nat, hi: nat): (n: nat)
    requires i <= |s|
    ensures n <= hi && i + n <= |s|
    ensures forall j :: i <= j < i + n ==> IsDigit(s[j])
    ensures n < hi && i + n < |s| ==> !IsDigit(s[i + n])
    decreases hi
  {
    if hi == 0 || i == |s| || !IsDigit(s[i]) then 0 else 1 + DigitRun(s, i + 1, hi - 1)
  }

  /**
   * The end of the match of `p` anchored at `i`, trying the counts of a `\d{lo,hi}`
   * atom from the largest down, as a backtracking matcher does.
   */
  function MatchAt(s: string, i: nat, p: Pattern): (r: Option<nat>)
    requires i <= |s|
    ensures r.Some? ==> i <= r.value <= |s|
    decreases |p|, 1, 0
  {
    if p == [] then Some(i)
    else
      match p[0]
      case Lit(c) => if i < |s| && s[i] == c then MatchAt(s, i + 1, p[1..]) else None
      case Digits(lo, hi) => TryCounts(s, i, lo, DigitRun(s, i, hi), p[1..])
  }

  function TryCounts(s: string, i: nat, lo: nat, k: nat, rest: Pattern): (r: Option<nat>)
    requires i + k <= |s|
    ensures r.Some? ==> i <= r.value <= |s|
    decreases |rest| + 1, 0, k
  {
    if k < lo then None
    else
      match MatchAt(s, i + k, rest)
      case Some(e) => Some(e)
      case None => if k == 0 then None else TryCounts(s, i, lo, k - 1, rest)
  }

  /** `re.search(p, s)`: the span of the leftmost match at or after `from`. */
  function Search(s: string, p: Pattern, from: nat): (r: Option<(nat, nat)>)
    requires from <= |s|
    ensures r.Some? ==> from <= r.value.0 <= r.value.1 <= |s| && MatchAt(s, r.value.0, p) == Some(r.value.1)
    ensures r.Some? ==> forall j :: from <= j < r.value.0 ==> MatchAt(s, j, p).None?
    ensures r.None? ==> forall j :: from <= j <= |s| ==> MatchAt(s, j, p).None?
    decreases |s| - from
  {
    match MatchAt(s, from, p)
    case Some(e) => Some((from, e))
    case None => if from == |s| then None else Search(s, p, from + 1)
  }

  /**
   * The patterns of `ps` tried in order; the first match of a pattern whose text
   * normalises gives the result.
   */
  function ExtractWith(value: string, ps: seq<Pattern>): (r: Option<(string, string)>)
    ensures r.Some? ==> IsIsoDate(r.value.0) && NormalizeDateToken(r.value.1) == Some(r.value.0)
    ensures r.Some? ==> exists i :: OccursAt(value, r.value.1, i)
    decreases |ps|
  {
    if ps == [] then None
    else
      match Search(value, ps[0], 0)
      case None => ExtractWith(value, ps[1..])
      case Some((i, e)) =>
        var fragment := value[i..e];
        match NormalizeDateToken(fragment)
        case Some(iso) =>
          assert OccursAt(value, fragment, i);
          Some((iso, fragment))
        case None => ExtractWith(value, ps[1..])
  }

  /**
   * `extract_iso_date`: the ISO date of the first normalisable match found by the
   * search patterns, with the matched text; the text occurs in the value.
   */
  function ExtractIsoDate(value: string): (r: Option<(string, string)>)
    ensures r.Some? ==> IsIsoDate(r.value.0) && NormalizeDateToken(r.value.1) == Some(r.value.0)
    ensures r.Some? ==> exists i :: OccursAt(value, r.value.1, i)
  {
    ExtractWith(value, DATE_SEARCH_PATTERNS)
  }

  /** A value that is an ISO date is found whole by the first pattern. */
  lemma ExtractOfIso(s: string)
    requires IsIsoDate(s)
    ensures ExtractIsoDate(s) == Some((s, s))
  {
    var p := DATE_SEARCH_PATTERNS[0];
    assert MatchAt(s, 10, []) == Some(10);
    assert DigitRun(s, 8, 2) == 2 by {
      assert s[8..][0] == s[8] && s[8..][1] == s[9];
    }
    assert MatchAt(s, 8, [Digits(1, 2)]) == Some(10);
    assert MatchAt(s, 7, p[3..]) == Some(10);
    assert DigitRun(s, 5, 2) == 2 by {
      assert s[5..7][0] == s[5] && s[5..7][1] == s[6];
    }
    assert MatchAt(s, 5, p[2..]) == Some(10);
    assert MatchAt(s, 4, p[1..]) == Some(10);
    assert DigitRun(s, 0, 4) == 4 by {
      assert forall j :: 0 <= j < 4 ==> s[..4][j] == s[j];
      assert DigitRun(s, 3, 1) == 1;
      assert DigitRun(s, 2, 2) == 2;
      assert DigitRun(s, 1, 3) == 3;
    }
    assert MatchAt(s, 0, p) == Some(10);
    assert s[0..10] == s;
    NormalizeIso(s);
  }
}
