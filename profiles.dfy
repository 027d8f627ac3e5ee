/**
 * The identity and aggregation helpers of the patient profiles: `slugify`,
 * `build_patient_id` (which `compute_patient_id_for_result` calls unchanged),
 * `unique`, `select_speciality` and `compute_aggregates`.
 */
module Profiles {
  import opened Wrappers
  import opened Strings
  import opened Lists
  import opened Taxonomy
  import opened Records
  import opened Names
  import opened Heuristics

  // ---------------------------------------------------------------------
  // slugify
  // ---------------------------------------------------------------------

  /** The characters `slugify` turns into a hyphen. */
  const HYPHENATED: set<char> := {' ', '-', '_'}

  /** A character a slug may hold: a lower-case letter, a digit or a hyphen. */
  predicate SlugChar(c: char) {
    (IsAlnum(c) && !IsUpper(c)) || c == '-'
  }

  /** A string in the form `slugify` returns. */
  predicate IsSlug(s: string) {
    s != [] && (forall i :: 0 <= i < |s| ==> SlugChar(s[i])) &&
    NoPair(s, '-') && s[0] != '-' && s[|s| - 1] != '-'
  }

  /** What a lower-cased character adds to `keep`: itself, a hyphen, or nothing. */
  function SlugPiece(c: char): string {
    if IsAlnum(c) then [c] else if c in HYPHENATED then "-" else ""
  }

  /** The `keep` list of `slugify`, joined: the value lower-cased and filtered. */
  function Kept(s: string): (r: string)
    ensures forall i :: 0 <= i < |r| ==> SlugChar(r[i])
    decreases |s|
  {
    if s == [] then [] else Kept(s[..|s| - 1]) + SlugPiece(Lower(s[|s| - 1]))
  }

  /** The `while "--" in slug` loop once done: every run of hyphens shortened to one. */
  function SingleHyphens(s: string): (r: string)
    ensures |r| <= |s|
    ensures s != [] ==> r != [] && r[0] == s[0]
    ensures forall i :: 0 <= i < |r| ==> r[i] in s
    decreases |s|
  {
    if |s| < 2 then s
    else if s[0] == '-' && s[1] == '-' then SingleHyphens(s[1..])
    else [s[0]] + SingleHyphens(s[1..])
  }

  /** `slugify(value)`. */
  function Slug(value: string): string {
    var t := StripChars(SingleHyphens(Kept(value)), {'-'});
    if t == "" then "sconosciuto" else t
  }

  /** How `SingleHyphens` treats a first character. */
  lemma SingleHyphensCons(c: char, x: string)
    ensures SingleHyphens([c] + x) ==
            if c == '-' && x != [] && x[0] == '-' then SingleHyphens(x) else [c] + SingleHyphens(x)
  {
    if x != [] {
      assert ([c] + x)[1..] == x;
    }
  }

  /** One `slug.replace("--", "-")` keeps the first character and never lengthens the slug. */
  lemma {:induction false} ReplacePairHead(s: string)
    ensures var t := ReplaceAll(s, "--", "-");
            |t| <= |s| && (s != [] ==> t != [] && t[0] == s[0])
    decreases |s|
  {
    if |s| >= 2 {
      if s[..2] == "--" {
        ReplacePairHead(s[2..]);
      } else {
        ReplacePairHead(s[1..]);
      }
    }
  }

  /** A slug holding "--" gets shorter with each replacement: the loop ends. */
  lemma {:induction false} ReplacePairShorter(s: string)
    requires Contains(s, "--")
    ensures |ReplaceAll(s, "--", "-")| < |s|
    decreases |s|
  {
    if s[..2] == "--" {
      ReplacePairHead(s[2..]);
    } else {
      ReplacePairShorter(s[1..]);
    }
  }

  /** One `slug.replace("--", "-")` leaves the collapsed form unchanged. */
  lemma {:induction false} HalveHyphens(s: string)
    ensures SingleHyphens(ReplaceAll(s, "--", "-")) == SingleHyphens(s)
    decreases |s|
  {
    if |s| >= 2 {
      if s[..2] == "--" {
        var rest := s[2..];
        HalveHyphens(rest);
        ReplacePairHead(rest);
        var t' := ReplaceAll(rest, "--", "-");
        assert ReplaceAll(s, "--", "-") == ['-'] + t';
        SingleHyphensCons('-', t');
        SingleHyphensCons('-', rest);
        assert s[1..] == ['-'] + rest;
      } else {
        var rest := s[1..];
        HalveHyphens(rest);
        ReplacePairHead(rest);
        var t' := ReplaceAll(rest, "--", "-");
        assert ReplaceAll(s, "--", "-") == [s[0]] + t';
        SingleHyphensCons(s[0], t');
        SingleHyphensCons(s[0], rest);
        assert s == [s[0]] + rest;
      }
    }
  }

  /** A string without "--" has no two adjacent hyphens. */
  lemma NoPairOfNoContains(s: string)
    requires !Contains(s, "--")
    ensures NoPair(s, '-')
  {
    forall i | 0 <= i < |s| - 1 ensures !(s[i] == '-' && s[i + 1] == '-') {
      if s[i..i + 2] == "--" {
        ContainsAt(s, "--", i);
      }
    }
  }

  /** Without adjacent hyphens there is nothing to collapse. */
  lemma {:induction false} SingleHyphensFixed(s: string)
    requires NoPair(s, '-')
    ensures SingleHyphens(s) == s
    decreases |s|
  {
    if |s| >= 2 {
      SingleHyphensFixed(s[1..]);
    }
  }

  /** After collapsing, no two hyphens are adjacent. */
  lemma {:induction false} SingleHyphensNoPair(s: string)
    ensures NoPair(SingleHyphens(s), '-')
    decreases |s|
  {
    if |s| >= 2 {
      SingleHyphensNoPair(s[1..]);
    }
  }

  /** A slice of a string without adjacent hyphens has none either. */
  lemma NoPairSlice(s: string, i: nat, j: nat)
    requires i <= j <= |s| && NoPair(s, '-')
    ensures NoPair(s[i..j], '-')
  {
    assert forall k :: 0 <= k < j - i ==> s[i..j][k] == s[i + k];
  }

  /**
   * A slug has only lower-case letters, digits and single hyphens, neither
   * starts nor ends with a hyphen, and is never empty.
   */
  lemma SlugShape(value: string)
    ensures IsSlug(Slug(value))
  {
    var k := Kept(value);
    var u := SingleHyphens(k);
    SingleHyphensNoPair(k);
    SingleHyphensSlugChars(k);
    StripCharsSlice(u, {'-'});
    var t := StripChars(u, {'-'});
    var i, j :| 0 <= i <= j <= |u| && t == u[i..j];
    if t == "" {
      UnknownSlug();
    } else {
      StrippedSlug(u, t, i, j);
    }
  }

  /** Collapsing hyphens keeps a string of slug characters one. */
  lemma SingleHyphensSlugChars(s: string)
    requires forall i :: 0 <= i < |s| ==> SlugChar(s[i])
    ensures var u := SingleHyphens(s); forall i :: 0 <= i < |u| ==> SlugChar(u[i])
  {
    var u := SingleHyphens(s);
    forall i | 0 <= i < |u|
      ensures SlugChar(u[i])
    {
      assert u[i] in s;
    }
  }

  /** A non-empty slice with no hyphen at either end of a string of single hyphens is a slug. */
  lemma StrippedSlug(u: string, t: string, i: nat, j: nat)
    requires i <= j <= |u| && t == u[i..j] && t != []
    requires forall k :: 0 <= k < |u| ==> SlugChar(u[k])
    requires NoPair(u, '-')
    requires t[0] != '-' && t[|t| - 1] != '-'
    ensures IsSlug(t)
  {
    NoPairSlice(u, i, j);
    forall k | 0 <= k < |t|
      ensures SlugChar(t[k])
    {
      assert t[k] == u[i + k];
    }
  }

  /** The fallback slug is a slug. */
  lemma UnknownSlug()
    ensures IsSlug("sconosciuto")
  {
    var u := "sconosciuto";
    assert forall i :: 0 <= i < |u| ==> IsLower(u[i]);
  }

  /** `Kept` leaves a string of slug characters as it is. */
  lemma {:induction false} KeptOfSlugChars(s: string)
    requires forall i :: 0 <= i < |s| ==> SlugChar(s[i])
    ensures Kept(s) == s
    decreases |s|
  {
    if s != [] {
      KeptOfSlugChars(s[..|s| - 1]);
      assert s == s[..|s| - 1] + [s[|s| - 1]];
    }
  }

  /** A slug is its own slug. */
  lemma SlugOfSlug(s: string)
    requires IsSlug(s)
    ensures Slug(s) == s
  {
    KeptOfSlugChars(s);
    SingleHyphensFixed(s);
    StripCharsNoop(s, {'-'});
  }

  /** `slugify` is idempotent. */
  lemma SlugIdempotent(value: string)
    ensures Slug(Slug(value)) == Slug(value)
  {
    SlugShape(value);
    SlugOfSlug(Slug(value));
  }

  /** On letters, digits, spaces, hyphens and underscores, `Kept` works character by character. */
  lemma {:induction false} KeptPointwise(s: string)
    requires forall i :: 0 <= i < |s| ==> IsAlnum(s[i]) || s[i] in HYPHENATED
    ensures |Kept(s)| == |s|
    ensures forall i :: 0 <= i < |s| ==> Kept(s)[i] == if IsAlnum(s[i]) then Lower(s[i]) else '-'
    decreases |s|
  {
    if s != [] {
      KeptPointwise(s[..|s| - 1]);
    }
  }

  /** The characters of a slug that is made of lower-case letters or digits only are the input's, lower-cased. */
  lemma SlugOfAlnum(s: string)
    requires s != [] && forall i :: 0 <= i < |s| ==> IsAlnum(s[i])
    ensures Slug(s) == LowerStr(s)
  {
    KeptPointwise(s);
    var k := Kept(s);
    assert k == LowerStr(s);
    assert forall i :: 0 <= i < |k| ==> k[i] != '-';
    SingleHyphensFixed(k);
    StripCharsNoop(k, {'-'});
  }

  /** `slugify` as the code runs it: the `keep` loop, the replace loop, the final strip. */
  method Slugify(value: string) returns (slug: string)
    ensures slug == Slug(value)
  {
    var lowered := LowerStr(value);
    var keep: string := [];
    for i := 0 to |lowered|
      invariant keep == Kept(value[..i])
    {
      assert value[..i + 1][..i] == value[..i];
      var ch := lowered[i];
      if IsAlnum(ch) {
        keep := keep + [ch];
      } else if ch in HYPHENATED {
        keep := keep + ['-'];
      }
    }
    assert value[..|value|] == value;
    slug := keep;
    while Contains(slug, "--")
      invariant SingleHyphens(slug) == SingleHyphens(keep)
      decreases |slug|
    {
      HalveHyphens(slug);
      ReplacePairShorter(slug);
      slug := ReplaceAll(slug, "--", "-");
    }
    NoPairOfNoContains(slug);
    SingleHyphensFixed(slug);
    slug := StripChars(slug, {'-'});
    if slug == "" {
      slug := "sconosciuto";
    }
  }

  // ---------------------------------------------------------------------
  // build_patient_id
  // ---------------------------------------------------------------------

  /** The parts joined when there is no fiscal code: the name and the birth date that are present, else the fallback. */
  function IdParts(name: string, birth: string, fallback: string): (parts: seq<string>)
    ensures parts != []
  {
    var parts := (if name != "" then [name] else []) + (if birth != "" then [birth] else []);
    if parts == [] then [fallback] else parts
  }

  /** The fiscal code as `build_patient_id` reads it: stripped and upper-cased. */
  function CodeOf(info: Fields): string {
    UpperStr(Strip(Get(info, "codice_fiscale")))
  }

  /**
   * `build_patient_id(patient_info, fallback_name)`: the slug of the fiscal
   * code when there is one, else of "nome_datanascita" over the parts
   * present, else of the fallback name without its copy counter.
   */
  function BuildPatientId(info: Fields, fallbackName: string): string {
    var cf := CodeOf(info);
    if cf != "" then Slug(cf)
    else
      var parts := IdParts(Strip(Get(info, "nome")), Strip(Get(info, "data_nascita")), StripCopySuffix(fallbackName));
      Slug(Join(parts, "_"))
  }

  /** Every patient id is a slug. */
  lemma PatientIdShape(info: Fields, fallbackName: string)
    ensures IsSlug(BuildPatientId(info, fallbackName))
  {
    var cf := CodeOf(info);
    if cf != "" {
      SlugShape(cf);
    } else {
      SlugShape(Join(IdParts(Strip(Get(info, "nome")), Strip(Get(info, "data_nascita")), StripCopySuffix(fallbackName)), "_"));
    }
  }

  /** With a fiscal code, the name, the birth date and the fallback do not matter. */
  lemma PatientIdByCode(info: Fields, fallbackName: string, other: Fields, otherFallback: string)
    requires CodeOf(info) != "" && Get(other, "codice_fiscale") == Get(info, "codice_fiscale")
    ensures BuildPatientId(info, fallbackName) == BuildPatientId(other, otherFallback)
    ensures BuildPatientId(info, fallbackName) == Slug(CodeOf(info))
  {
  }

  /** A code of the fiscal-code grammar gives the id that is the code in lower case. */
  lemma PatientIdOfFiscalCode(info: Fields, fallbackName: string)
    requires IsFiscalCode(Get(info, "codice_fiscale"))
    ensures BuildPatientId(info, fallbackName) == LowerStr(UpperStr(Get(info, "codice_fiscale")))
  {
    var code := Get(info, "codice_fiscale");
    FiscalCodeAlnum(code);
    StripCharsNoop(code, WHITESPACE);
    var up := UpperStr(code);
    assert forall i :: 0 <= i < |up| ==> IsAlnum(up[i]);
    SlugOfAlnum(up);
  }

  /** Upper-cased strings agree when their lower-cased forms do. */
  lemma LowerOfUpperInjective(a: string, b: string)
    requires |a| == |b| && LowerStr(UpperStr(a)) == LowerStr(UpperStr(b))
    ensures UpperStr(a) == UpperStr(b)
  {
    var ua, ub := UpperStr(a), UpperStr(b);
    forall i | 0 <= i < |a| ensures ua[i] == ub[i] {
      assert Lower(ua[i]) == Lower(ub[i]);
    }
  }

  /** Two fiscal codes give the same id exactly when they agree up to case. */
  lemma PatientIdDistinct(infoA: Fields, infoB: Fields, fallbackA: string, fallbackB: string)
    requires IsFiscalCode(Get(infoA, "codice_fiscale")) && IsFiscalCode(Get(infoB, "codice_fiscale"))
    ensures BuildPatientId(infoA, fallbackA) == BuildPatientId(infoB, fallbackB)
            <==> UpperStr(Get(infoA, "codice_fiscale")) == UpperStr(Get(infoB, "codice_fiscale"))
  {
    PatientIdOfFiscalCode(infoA, fallbackA);
    PatientIdOfFiscalCode(infoB, fallbackB);
    var a, b := Get(infoA, "codice_fiscale"), Get(infoB, "codice_fiscale");
    if LowerStr(UpperStr(a)) == LowerStr(UpperStr(b)) {
      LowerOfUpperInjective(a, b);
    }
  }

  /**
   * Words joined by single separators: letters, digits, spaces, hyphens and
   * underscores, never two separators in a row, a letter or digit at each end
   * ("Mario Rossi", "1980-01-01").
   */
  predicate Words(s: string) {
    s != [] && IsAlnum(s[0]) && IsAlnum(s[|s| - 1]) &&
    (forall i :: 0 <= i < |s| ==> IsAlnum(s[i]) || s[i] in HYPHENATED) &&
    (forall i :: 0 <= i < |s| - 1 ==> IsAlnum(s[i]) || IsAlnum(s[i + 1]))
  }

  /** Words lower-cased, each separator a hyphen. */
  function Hyphenated(s: string): (r: string)
    ensures |r| == |s|
    decreases |s|
  {
    if s == [] then [] else Hyphenated(s[..|s| - 1]) + [if IsAlnum(s[|s| - 1]) then Lower(s[|s| - 1]) else '-']
  }

  lemma {:induction false} HyphenatedAt(s: string)
    ensures forall i :: 0 <= i < |s| ==> Hyphenated(s)[i] == if IsAlnum(s[i]) then Lower(s[i]) else '-'
    decreases |s|
  {
    if s != [] {
      HyphenatedAt(s[..|s| - 1]);
    }
  }

  /** On letters, digits and separators, `Kept` is `Hyphenated`. */
  lemma KeptIsHyphenated(s: string)
    requires forall i :: 0 <= i < |s| ==> IsAlnum(s[i]) || s[i] in HYPHENATED
    ensures Kept(s) == Hyphenated(s)
  {
    KeptPointwise(s);
    HyphenatedAt(s);
  }

  /** Hyphenated words have single hyphens and none at either end. */
  lemma HyphenatedWords(s: string)
    requires Words(s)
    ensures var h := Hyphenated(s); NoPair(h, '-') && h[0] != '-' && h[|h| - 1] != '-'
  {
    HyphenatedAt(s);
    var h := Hyphenated(s);
    forall i | 0 <= i < |h| - 1
      ensures !(h[i] == '-' && h[i + 1] == '-')
    {
      assert IsAlnum(s[i]) || IsAlnum(s[i + 1]);
    }
    assert h[0] == Lower(s[0]) && h[|h| - 1] == Lower(s[|s| - 1]);
  }

  /** The slug of words is the words hyphenated: `slugify` drops nothing and collapses nothing. */
  lemma SlugOfWords(s: string)
    requires Words(s)
    ensures Slug(s) == Hyphenated(s)
  {
    KeptIsHyphenated(s);
    HyphenatedWords(s);
    var h := Hyphenated(s);
    SingleHyphensFixed(h);
    StripCharsNoop(h, {'-'});
  }

  lemma {:induction false} HyphenatedAppend(x: string, y: string)
    ensures Hyphenated(x + y) == Hyphenated(x) + Hyphenated(y)
    decreases |y|
  {
    if y == [] {
      assert x + y == x;
    } else {
      var y' := y[..|y| - 1];
      HyphenatedAppend(x, y');
      assert (x + y)[..|x + y| - 1] == x + y';
    }
  }

  /** Two word lists joined by '_' are one word list. */
  lemma WordsJoinShape(a: string, b: string)
    requires Words(a) && Words(b)
    ensures Words(a + "_" + b)
  {
    var s := a + "_" + b;
    forall i | 0 <= i < |s|
      ensures IsAlnum(s[i]) || s[i] in HYPHENATED
    {
      if i < |a| {
        assert s[i] == a[i];
      } else if i > |a| {
        assert s[i] == b[i - |a| - 1];
      }
    }
    forall i | 0 <= i < |s| - 1
      ensures IsAlnum(s[i]) || IsAlnum(s[i + 1])
    {
      if i < |a| - 1 {
        assert s[i] == a[i] && s[i + 1] == a[i + 1];
      } else if i == |a| - 1 {
        assert s[i] == a[|a| - 1];
      } else if i == |a| {
        assert s[i + 1] == b[0];
      } else {
        assert s[i] == b[i - |a| - 1] && s[i + 1] == b[i - |a|];
      }
    }
    assert s[0] == a[0] && s[|s| - 1] == b[|b| - 1];
  }

  /** Two word lists joined by '_' are one word list, hyphenated piece by piece. */
  lemma WordsJoin(a: string, b: string)
    requires Words(a) && Words(b)
    ensures Words(a + "_" + b)
    ensures Hyphenated(a + "_" + b) == Hyphenated(a) + "-" + Hyphenated(b)
  {
    WordsJoinShape(a, b);
    HyphenatedAppend(a + "_", b);
    HyphenatedAppend(a, "_");
    assert Hyphenated("_") == Hyphenated([]) + ['-'];
  }

  /**
   * Without a fiscal code, a name and a birth date that are word lists give
   * the id "name-birth", both hyphenated: "Mario Rossi" and "1980-01-01" give
   * "mario-rossi-1980-01-01", whatever the fallback name.
   */
  lemma PatientIdOfNameAndBirth(info: Fields, fallbackName: string)
    requires CodeOf(info) == ""
    requires Words(Strip(Get(info, "nome"))) && Words(Strip(Get(info, "data_nascita")))
    ensures BuildPatientId(info, fallbackName)
            == Hyphenated(Strip(Get(info, "nome"))) + "-" + Hyphenated(Strip(Get(info, "data_nascita")))
  {
    var name, birth := Strip(Get(info, "nome")), Strip(Get(info, "data_nascita"));
    assert IdParts(name, birth, StripCopySuffix(fallbackName)) == [name, birth];
    assert Join([name, birth], "_") == name + "_" + birth;
    WordsJoin(name, birth);
    SlugOfWords(name + "_" + birth);
  }

  lemma RefertoSlug()
    ensures IsSlug("referto")
  {
    var u := "referto";
    assert forall i :: 0 <= i < |u| ==> IsLower(u[i]);
  }

  /** Without a code, a name or a birth date, the fallback loses its copy counter: "referto (2)" becomes "referto". */
  lemma PatientIdOfFallback()
    ensures BuildPatientId(map[], "referto (2)") == "referto"
  {
    StripCopySuffixExample();
    StripCharsNoop("", WHITESPACE);
    assert IdParts("", "", "referto") == ["referto"];
    RefertoSlug();
    SlugOfSlug("referto");
  }

  // ---------------------------------------------------------------------
  // unique
  // ---------------------------------------------------------------------

  /** `unique(seq)`: the truthy items stripped, each stripped value kept at its first occurrence. */
  function Unique(xs: seq<string>): (r: seq<string>)
    ensures NoDup(r)
  {
    Dedup(MapTruthy(xs, Strip))
  }

  /** The values kept are exactly the stripped truthy items. */
  lemma UniqueMembers(xs: seq<string>, y: string)
    ensures y in Unique(xs) <==> exists i :: 0 <= i < |xs| && xs[i] != "" && y == Strip(xs[i])
  {
    MapTruthyMembers(xs, Strip, y);
  }

  /** One more item: it is skipped when falsy or already seen once stripped, otherwise appended stripped. */
  lemma UniqueSnoc(xs: seq<string>, x: string)
    ensures Unique(xs + [x]) ==
            if x == "" || Strip(x) in Unique(xs) then Unique(xs) else Unique(xs) + [Strip(x)]
  {
    var m := MapTruthy(xs, Strip);
    assert (xs + [x])[..|xs|] == xs;
    assert MapTruthy(xs + [x], Strip) == m + (if x == "" then [] else [Strip(x)]);
    if x != "" {
      DedupSnoc(m, Strip(x));
      assert Strip(x) in Unique(xs) <==> Strip(x) in m;
    } else {
      assert m + [] == m;
    }
  }

  lemma StripBlank()
    ensures Strip("  ") == ""
  {
    assert LeadEnd("  ", WHITESPACE, 0) == 2;
  }

  /** A whitespace-only item gives one empty string, which a second pass would drop. */
  lemma UniqueOfBlank()
    ensures Unique(["  "]) == [""]
    ensures Unique([""]) == []
  {
    StripBlank();
    UniqueSnoc([], "  ");
    UniqueSnoc([], "");
    assert [] + ["  "] == ["  "] && [] + [""] == [""];
  }

  /** The `unique` loop with its `seen` set. */
  method CollectUnique(xs: seq<string>) returns (out: seq<string>)
    ensures out == Unique(xs)
  {
    var seen: set<string> := {};
    out := [];
    for i := 0 to |xs|
      invariant out == Unique(xs[..i])
      invariant forall k :: k in seen <==> k in out
    {
      var item := xs[i];
      assert xs[..i + 1] == xs[..i] + [item];
      UniqueSnoc(xs[..i], item);
      if item == "" {
        continue;
      }
      var key := Strip(item);
      if key !in seen {
        seen := seen + {key};
        out := out + [key];
      }
    }
    assert xs[..|xs|] == xs;
  }

  // ---------------------------------------------------------------------
  // select_speciality
  // ---------------------------------------------------------------------

  /** `select_speciality(raw)`. */
  function SelectSpeciality(raw: Option<string>): string {
    if raw.None? || raw.value == "" then "altro"
    else
      var rawNorm := LowerStr(Strip(raw.value));
      match FindKnown(rawNorm, MEDICAL_SPECIALTIES)
      case Some(spec) => spec
      case None => if rawNorm != "" then rawNorm else "altro"
  }

  /** The profiles file a document under the same specialty the analyser writes back. */
  lemma SelectSpecialityAgrees(raw: string)
    ensures SelectSpeciality(Some(raw)) == CanonicalSpecialty(raw)
  {
    if raw == "" {
      KnownNonEmpty();
      StripCharsNoop("", WHITESPACE);
      assert FindKnown("", MEDICAL_SPECIALTIES).None?;
    }
  }

  /**
   * A missing, empty or blank value gives "altro"; any other gives a known
   * specialty when one matches it case-insensitively, else the stripped
   * lower-cased value.
   */
  lemma SelectSpecialityIs(raw: Option<string>)
    ensures var r := SelectSpeciality(raw);
            (raw.None? || LowerStr(Strip(raw.value)) == "" ==> r == "altro") &&
            (raw.Some? && LowerStr(Strip(raw.value)) != "" ==>
               var s := LowerStr(Strip(raw.value));
               LowerStr(r) == s &&
               (FindKnown(s, MEDICAL_SPECIALTIES).Some? ==> r in MEDICAL_SPECIALTIES) &&
               (FindKnown(s, MEDICAL_SPECIALTIES).None? ==> r == s))
  {
    if raw.Some? {
      SelectSpecialityAgrees(raw.value);
      CanonicalSpecialtyIs(raw.value);
    }
  }

  // ---------------------------------------------------------------------
  // compute_aggregates
  // ---------------------------------------------------------------------

  /** The document entries of a profile, as far as the aggregation reads them. */
  datatype ProfileDoc = ProfileDoc(
    file: string,
    storedFilename: string,
    pdfPath: string,
    dataDocumento: string,
    tipologia: string,
    riassunto: string,
    specialita: Option<string>,
    anamnesi: seq<string>,
    terapie: seq<string>,
    esamiLaboratorio: seq<string>,
    esamiPrincipali: seq<string>,
    esamiDiagnostica: seq<string>)

  /** The entry filed under a specialty. */
  datatype DocEntry = DocEntry(file: string, storedFilename: string, dataDocumento: string, tipologia: string, riassunto: string)

  datatype Aggregates = Aggregates(
    anamnesi: seq<string>,
    terapie: seq<string>,
    esamiLaboratorio: seq<string>,
    esamiDiagnostica: seq<string>,
    perSpecialita: map<string, seq<DocEntry>>)

  /** The entry of a document: the stored file name, else the base name of its PDF path. */
  function EntryOf(d: ProfileDoc): DocEntry {
    DocEntry(d.file, if d.storedFilename != "" then d.storedFilename else Basename(d.pdfPath),
             d.dataDocumento, d.tipologia, d.riassunto)
  }

  function AnamnesiOf(d: ProfileDoc): seq<string> { d.anamnesi }
  function TerapieOf(d: ProfileDoc): seq<string> { d.terapie }
  /** The laboratory list with the main examinations folded in. */
  function LabOf(d: ProfileDoc): seq<string> { d.esamiLaboratorio + d.esamiPrincipali }
  function DiagnosticaOf(d: ProfileDoc): seq<string> { d.esamiDiagnostica }

  /** The lists `sel` picks from each document, concatenated in order. */
  function Collected(docs: seq<ProfileDoc>, sel: ProfileDoc -> seq<string>): seq<string>
    decreases |docs|
  {
    if docs == [] then [] else Collected(docs[..|docs| - 1], sel) + sel(docs[|docs| - 1])
  }

  lemma CollectedSnoc(docs: seq<ProfileDoc>, i: nat, sel: ProfileDoc -> seq<string>)
    requires i < |docs|
    ensures Collected(docs[..i + 1], sel) == Collected(docs[..i], sel) + sel(docs[i])
  {
    assert docs[..i + 1][..i] == docs[..i];
  }

  /** The specialty a document is filed under. */
  function SpecialityOf(d: ProfileDoc): string {
    SelectSpeciality(d.specialita)
  }

  /** `{spec: [] for spec in MEDICAL_SPECIALTIES}`. */
  function InitialPer(): (m: map<string, seq<DocEntry>>)
    ensures forall k :: k in m <==> k in MEDICAL_SPECIALTIES
    ensures forall k :: k in m ==> m[k] == []
  {
    map s | s in MEDICAL_SPECIALTIES :: []
  }

  /** Each document with the specialty it is filed under. */
  function Filings(docs: seq<ProfileDoc>): (fs: seq<(string, DocEntry)>)
    ensures |fs| == |docs| && forall i :: 0 <= i < |docs| ==> fs[i] == (SpecialityOf(docs[i]), EntryOf(docs[i]))
  {
    seq(|docs|, i requires 0 <= i < |docs| => (SpecialityOf(docs[i]), EntryOf(docs[i])))
  }

  lemma PerSpecialitaSnoc(docs: seq<ProfileDoc>, i: nat)
    requires i < |docs|
    ensures PerSpecialita(docs[..i + 1]) ==
            var m := PerSpecialita(docs[..i]);
            var k := SpecialityOf(docs[i]);
            m[k := (if k in m then m[k] else []) + [EntryOf(docs[i])]]
  {
    assert Filings(docs[..i + 1])[..i] == Filings(docs[..i]);
  }

  /** `per_specialita` after the documents `docs`, in order. */
  function PerSpecialita(docs: seq<ProfileDoc>): map<string, seq<DocEntry>> {
    Group(InitialPer(), Filings(docs))
  }

  /** `compute_aggregates(documents)`. */
  function AggregatesOf(docs: seq<ProfileDoc>): Aggregates {
    Aggregates(
      Unique(Collected(docs, AnamnesiOf)),
      Unique(Collected(docs, TerapieOf)),
      Unique(Collected(docs, LabOf)),
      Unique(Collected(docs, DiagnosticaOf)),
      PerSpecialita(docs))
  }

  /**
   * `per_specialita` has a key for every known specialty and for the
   * specialty of every document, and no other; under each key are the
   * entries of exactly the documents filed there, each once, in input order.
   */
  lemma PerSpecialitaIs(docs: seq<ProfileDoc>, k: string)
    ensures var per := PerSpecialita(docs);
            (k in per <==> k in MEDICAL_SPECIALTIES || exists i :: 0 <= i < |docs| && SpecialityOf(docs[i]) == k) &&
            (k in per ==> per[k] == ValuesWithKey(Filings(docs), k))
  {
    var fs := Filings(docs);
    GroupIs(InitialPer(), fs, k);
    if exists i :: 0 <= i < |fs| && fs[i].0 == k {
      var i :| 0 <= i < |fs| && fs[i].0 == k;
      assert SpecialityOf(docs[i]) == k;
    }
    if exists i :: 0 <= i < |docs| && SpecialityOf(docs[i]) == k {
      var i :| 0 <= i < |docs| && SpecialityOf(docs[i]) == k;
      assert fs[i].0 == k;
    }
  }

  /** An item of a collected list is an item of one of the documents' lists. */
  lemma {:induction false} CollectedMembers(docs: seq<ProfileDoc>, sel: ProfileDoc -> seq<string>, i: nat, x: string)
    requires i < |docs| && x in sel(docs[i])
    ensures x in Collected(docs, sel)
    decreases |docs|
  {
    if i < |docs| - 1 {
      var init := docs[..|docs| - 1];
      assert init[i] == docs[i];
      CollectedMembers(init, sel, i, x);
    }
  }

  /** Every truthy `esami_principali` item of a document, stripped, is among the laboratory aggregates. */
  lemma MainExamsFolded(docs: seq<ProfileDoc>, i: nat, x: string)
    requires i < |docs| && x in docs[i].esamiPrincipali && x != ""
    ensures Strip(x) in AggregatesOf(docs).esamiLaboratorio
  {
    assert x in LabOf(docs[i]);
    CollectedMembers(docs, LabOf, i, x);
    var xs := Collected(docs, LabOf);
    var j :| 0 <= j < |xs| && xs[j] == x;
    UniqueMembers(xs, Strip(x));
  }

  /** The aggregation loop: the lists extended and the entries filed document by document. */
  method CollectDocuments(docs: seq<ProfileDoc>)
    returns (aggAnamnesi: seq<string>, aggTerapie: seq<string>, aggLab: seq<string>, aggDiag: seq<string>,
             per: map<string, seq<DocEntry>>)
    ensures aggAnamnesi == Collected(docs, AnamnesiOf) && aggTerapie == Collected(docs, TerapieOf)
    ensures aggLab == Collected(docs, LabOf) && aggDiag == Collected(docs, DiagnosticaOf)
    ensures per == PerSpecialita(docs)
  {
    aggAnamnesi, aggTerapie, aggLab, aggDiag := [], [], [], [];
    per := InitialPer();
    for i := 0 to |docs|
      invariant aggAnamnesi == Collected(docs[..i], AnamnesiOf)
      invariant aggTerapie == Collected(docs[..i], TerapieOf)
      invariant aggLab == Collected(docs[..i], LabOf)
      invariant aggDiag == Collected(docs[..i], DiagnosticaOf)
      invariant per == PerSpecialita(docs[..i])
    {
      var doc := docs[i];
      CollectedSnoc(docs, i, AnamnesiOf);
      CollectedSnoc(docs, i, TerapieOf);
      CollectedSnoc(docs, i, LabOf);
      CollectedSnoc(docs, i, DiagnosticaOf);
      aggAnamnesi := aggAnamnesi + doc.anamnesi;
      aggTerapie := aggTerapie + doc.terapie;
      assert aggLab + doc.esamiLaboratorio + doc.esamiPrincipali == aggLab + LabOf(doc);
      aggLab := aggLab + doc.esamiLaboratorio;
      aggLab := aggLab + doc.esamiPrincipali;
      aggDiag := aggDiag + doc.esamiDiagnostica;
      var spec := SpecialityOf(doc);
      PerSpecialitaSnoc(docs, i);
      var filed := if spec in per then per[spec] else [];  // setdefault(spec, [])
      per := per[spec := filed + [EntryOf(doc)]];
    }
    assert docs[..|docs|] == docs;
  }

  /** `compute_aggregates(documents)`: the loop, then `unique` of each list. */
  method ComputeAggregates(docs: seq<ProfileDoc>) returns (agg: Aggregates)
    ensures agg == AggregatesOf(docs)
  {
    var aggAnamnesi, aggTerapie, aggLab, aggDiag, per := CollectDocuments(docs);
    var a := CollectUnique(aggAnamnesi);
    var t := CollectUnique(aggTerapie);
    var l := CollectUnique(aggLab);
    var g := CollectUnique(aggDiag);
    agg := Aggregates(a, t, l, g, per);
  }
}
