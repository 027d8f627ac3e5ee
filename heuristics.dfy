/**
 * Heuristic gap-filling from the document text: the fiscal-code grammar and
 * the scoring of fiscal-code candidates in `extract_patient_metadata_from_text`,
 * `enrich_record_with_heuristics`, and the specialty inference
 * `infer_specialty_from_text` with the way the analysis applies it.
 */
module Heuristics {
  import opened Wrappers
  import opened Strings
  import opened Lists
  import opened Taxonomy
  import opened Dates
  import opened Records
  import opened Names

  // ---------------------------------------------------------------------
  // The fiscal-code grammar (CF_REGEX, case-insensitive)
  // ---------------------------------------------------------------------

  /** The positions of the code that hold a letter; the others hold a digit or one of LMNPQRSTUV. */
  predicate LetterSlot(i: int) {
    0 <= i < 6 || i == 8 || i == 11 || i == 15
  }

  /** `[0-9LMNPQRSTUV]` under IGNORECASE. */
  predicate CfDigit(c: char) {
    IsDigit(c) || Upper(c) in {'L', 'M', 'N', 'P', 'Q', 'R', 'S', 'T', 'U', 'V'}
  }

  /** `[A-Z]{6}[0-9LMNPQRSTUV]{2}[A-Z][0-9LMNPQRSTUV]{2}[A-Z][0-9LMNPQRSTUV]{3}[A-Z]`, any case. */
  predicate IsFiscalCode(s: string) {
    |s| == 16 && forall i :: 0 <= i < 16 ==> if LetterSlot(i) then IsLetter(s[i]) else CfDigit(s[i])
  }

  /** A fiscal code is made of letters and digits only. */
  lemma FiscalCodeAlnum(s: string)
    requires IsFiscalCode(s)
    ensures forall i :: 0 <= i < |s| ==> IsAlnum(s[i])
  {
    forall i | 0 <= i < |s| ensures IsAlnum(s[i]) {
      if !LetterSlot(i) && !IsDigit(s[i]) {
        assert IsLetter(Upper(s[i]));
      }
    }
  }

  /** A fiscal code written in capitals, as the extraction reports it. */
  predicate UpperCode(s: string) {
    IsFiscalCode(s) && forall i :: 0 <= i < |s| ==> !IsLower(s[i])
  }

  /** Upper-casing a fiscal code gives it in capitals. */
  lemma FiscalCodeUpper(s: string)
    requires IsFiscalCode(s)
    ensures UpperCode(UpperStr(s))
  {
    var u := UpperStr(s);
    forall i | 0 <= i < 16 ensures if LetterSlot(i) then IsLetter(u[i]) else CfDigit(u[i]) {
      assert u[i] == Upper(s[i]);
      if !IsLower(s[i]) {
        assert u[i] == s[i];
      } else {
        assert Upper(u[i]) == u[i];
      }
    }
  }

  /** `\b` at position `i` of `s` (ASCII word characters). */
  predicate WordBoundary(s: string, i: nat)
    requires i <= |s|
  {
    (i > 0 && IsWordChar(s[i - 1])) != (i < |s| && IsWordChar(s[i]))
  }

  /** `\b(CODE)\b` matches at `i`. */
  predicate CfAt(s: string, i: nat) {
    i + 16 <= |s| && WordBoundary(s, i) && IsFiscalCode(s[i..i + 16]) && WordBoundary(s, i + 16)
  }

  /** `CF_REGEX.findall(s[from..])`, scanning from `from`: the codes, left to right, not overlapping. */
  function FindAllCf(s: string, from: nat): (r: seq<string>)
    ensures forall c :: c in r ==> IsFiscalCode(c)
    decreases |s| - from
  {
    if from + 16 > |s| then []
    else if CfAt(s, from) then [s[from..from + 16]] + FindAllCf(s, from + 16)
    else FindAllCf(s, from + 1)
  }

  /**
   * `CF_REGEX.search(s[from..])`: the leftmost code at or after `from`, and
   * nothing when no code stands anywhere there.
   */
  function SearchCf(s: string, from: nat): (r: Option<string>)
    ensures r.Some? ==> IsFiscalCode(r.value) && Contains(s, r.value)
    ensures r.Some? ==> exists i :: from <= i && CfAt(s, i) && s[i..i + 16] == r.value &&
                                    forall j :: from <= j < i ==> !CfAt(s, j)
    ensures r.None? <==> forall j :: from <= j ==> !CfAt(s, j)
    decreases |s| - from
  {
    if from + 16 > |s| then None
    else if CfAt(s, from) then
      ContainsAt(s, s[from..from + 16], from);
      Some(s[from..from + 16])
    else SearchCf(s, from + 1)
  }

  /** `re.sub(r"[^A-Z0-9]", "", s)`: the upper-case letters and digits of `s`, in order. */
  function Compact(s: string): (r: string)
    ensures forall i :: 0 <= i < |r| ==> IsUpper(r[i]) || IsDigit(r[i])
    decreases |s|
  {
    if s == [] then []
    else Compact(s[..|s| - 1]) + (if IsUpper(s[|s| - 1]) || IsDigit(s[|s| - 1]) then [s[|s| - 1]] else [])
  }

  /** Inside a string of word characters there is no word boundary. */
  lemma NoInnerBoundary(s: string, i: nat)
    requires forall j :: 0 <= j < |s| ==> IsAlnum(s[j])
    requires 0 < i < |s|
    ensures !WordBoundary(s, i)
  {
  }

  lemma {:induction false} FindAllCfInner(s: string, from: nat)
    requires forall j :: 0 <= j < |s| ==> IsAlnum(s[j])
    requires from >= 1
    ensures FindAllCf(s, from) == []
    decreases |s| - from
  {
    if from + 16 <= |s| {
      NoInnerBoundary(s, from);
      FindAllCfInner(s, from + 1);
    }
  }

  /**
   * The scoring loop looks for codes in the line stripped of everything but
   * letters and digits, where `\b` holds only at the two ends: a candidate is
   * found only when the whole compacted line is exactly one fiscal code.
   */
  lemma CandidatesOfCompactLine(s: string)
    requires forall j :: 0 <= j < |s| ==> IsAlnum(s[j])
    ensures FindAllCf(s, 0) == if IsFiscalCode(s) then [s] else []
  {
    if 16 <= |s| {
      FindAllCfInner(s, 1);
      if 16 < |s| {
        NoInnerBoundary(s, 16);
      } else {
        assert s[0..16] == s;
        FindAllCfInner(s, 16);
      }
    }
  }

  // ---------------------------------------------------------------------
  // Fiscal-code candidates and their scores
  // ---------------------------------------------------------------------

  /** A fiscal-code candidate: its score, the index of its line and the code. */
  datatype Candidate = Candidate(score: int, line: nat, code: string)

  /** The lowercased lines around line `idx`: two before, the line and two after, joined by spaces. */
  function Neighborhood(lines: seq<string>, idx: nat): string
    requires idx < |lines|
  {
    var lo := if idx >= 2 then idx - 2 else 0;
    var hi := if idx + 3 <= |lines| then idx + 3 else |lines|;
    LowerStr(Join(lines[lo..hi], " "))
  }

  /** +3 for a fiscal-code label, +2 for a patient label, -2 for a doctor nearby. */
  function Score(nb: string): (n: int)
    ensures -2 <= n <= 5
  {
    (if Contains(nb, "codice") && Contains(nb, "fisc") then 3 else 0) +
    (if Contains(nb, "assistito") || Contains(nb, "paziente") || Contains(nb, "nome") then 2 else 0) -
    (if Contains(nb, "medico") || Contains(nb, "dott") then 2 else 0)
  }

  /** The compacted upper-case form of a stripped line, where the scoring loop looks for codes. */
  function Sanitized(line: string): string {
    Compact(UpperStr(Strip(line)))
  }

  /** The candidates line `idx` contributes. */
  function LineCandidates(lines: seq<string>, idx: nat): (r: seq<Candidate>)
    requires idx < |lines|
    ensures forall c :: c in r ==> c.line == idx && UpperCode(c.code)
  {
    if Strip(lines[idx]) == "" then []
    else
      var found := FindAllCf(Sanitized(lines[idx]), 0);
      UpperCodes(found);
      Scored(found, Score(Neighborhood(lines, idx)), idx)
  }

  /** The found codes, upper-cased, each with the score and line of its line. */
  function Scored(found: seq<string>, score: int, idx: nat): (r: seq<Candidate>)
    ensures |r| == |found|
    ensures forall k :: 0 <= k < |found| ==> r[k] == Candidate(score, idx, UpperStr(found[k]))
  {
    seq(|found|, k requires 0 <= k < |found| => Candidate(score, idx, UpperStr(found[k])))
  }

  lemma UpperCodes(found: seq<string>)
    requires forall c :: c in found ==> IsFiscalCode(c)
    ensures forall k :: 0 <= k < |found| ==> UpperCode(UpperStr(found[k]))
  {
    forall k | 0 <= k < |found| ensures UpperCode(UpperStr(found[k])) {
      FiscalCodeUpper(found[k]);
    }
  }

  /** The candidates of the first `n` lines, in line order. */
  function Candidates(lines: seq<string>, n: nat): (r: seq<Candidate>)
    requires n <= |lines|
    ensures forall c :: c in r ==> c.line < n && UpperCode(c.code)
    decreases n
  {
    if n == 0 then [] else Candidates(lines, n - 1) + LineCandidates(lines, n - 1)
  }

  /** A line yields a candidate only when, compacted, it is exactly a fiscal code. */
  lemma LineCandidatesExact(lines: seq<string>, idx: nat)
    requires idx < |lines|
    ensures var san := Sanitized(lines[idx]);
            LineCandidates(lines, idx) ==
              if Strip(lines[idx]) != "" && IsFiscalCode(san) then [Candidate(Score(Neighborhood(lines, idx)), idx, san)] else []
  {
    var san := Sanitized(lines[idx]);
    assert forall j :: 0 <= j < |san| ==> IsAlnum(san[j]);
    CandidatesOfCompactLine(san);
    if Strip(lines[idx]) != "" && IsFiscalCode(san) {
      assert UpperStr(san) == san;
    }
  }

  /** The order of `cf_candidates.sort(key=lambda x: (-x[0], x[1]))`: higher score, then earlier line. */
  predicate Before(a: Candidate, b: Candidate) {
    a.score > b.score || (a.score == b.score && a.line < b.line)
  }

  /** The first candidate of the stable sort. */
  function Best(cs: seq<Candidate>): (b: Candidate)
    requires cs != []
    ensures b in cs
    ensures forall c :: c in cs ==> !Before(c, b)
    decreases |cs|
  {
    if |cs| == 1 then cs[0]
    else
      var b := Best(cs[..|cs| - 1]);
      var last := cs[|cs| - 1];
      assert forall c :: c in cs ==> c in cs[..|cs| - 1] || c == last;
      if Before(last, b) then last else b
  }

  /** The code of the first line that mentions "codice" and "fisc" but not "medic" and has a code. */
  function LabelledCf(lines: seq<string>, n: nat): (r: Option<string>)
    requires n <= |lines|
    ensures r.Some? ==> UpperCode(r.value)
    decreases n
  {
    if n == 0 then None
    else
      var before := LabelledCf(lines, n - 1);
      if before.Some? then before
      else LineLabelledCf(lines[n - 1])
  }

  /** The labelled-line check on one line. */
  function LineLabelledCf(line: string): (r: Option<string>)
    ensures r.Some? ==> UpperCode(r.value)
  {
    var clean := Strip(line);
    var lower := LowerStr(clean);
    if clean != "" && Contains(lower, "codice") && Contains(lower, "fisc") && !Contains(lower, "medic") then
      match SearchCf(UpperStr(clean), 0)
      case Some(m) => FiscalCodeUpper(m); Some(UpperStr(m))
      case None => None
    else None
  }

  /**
   * The fiscal code `extract_patient_metadata_from_text` finds: the best scored
   * candidate, unless its score is negative and a labelled line gave a code;
   * failing both, the first code of the upper-cased text, then of its
   * compacted form.
   */
  function FiscalCodeOf(text: string): (r: Option<string>)
    ensures r.Some? ==> UpperCode(r.value)
  {
    if text == "" then None
    else
      var lines := SplitLines(text);
      var cands := Candidates(lines, |lines|);
      var labelled := LabelledCf(lines, |lines|);
      var chosen :=
        if cands != [] && (Best(cands).score >= 0 || labelled.None?) then
          assert Best(cands) in cands;
          Some(Best(cands).code)
        else labelled;
      if chosen.Some? then chosen
      else
        var upper := UpperStr(text);
        match SearchCf(upper, 0)
        case Some(m) => FiscalCodeUpper(m); Some(UpperStr(m))
        case None =>
          match SearchCf(Compact(upper), 0)
          case Some(m) => FiscalCodeUpper(m); Some(UpperStr(m))
          case None => None
  }

  /**
   * The candidate kept wins by score then line: no candidate has a higher
   * score, and none with the same score comes from an earlier line; a
   * labelled code survives only against a best score below zero.
   */
  lemma FiscalCodeChoice(text: string)
    requires text != ""
    ensures var lines := SplitLines(text);
            var cands := Candidates(lines, |lines|);
            var labelled := LabelledCf(lines, |lines|);
            (cands != [] && (Best(cands).score >= 0 || labelled.None?) ==> FiscalCodeOf(text) == Some(Best(cands).code)) &&
            (labelled.Some? && (cands == [] || Best(cands).score < 0) ==> FiscalCodeOf(text) == labelled)
  {
  }

  /** What is found is sixteen capitals and digits, and empty text gives nothing. */
  lemma FiscalCodeOfShape(text: string)
    ensures text == "" ==> FiscalCodeOf(text).None?
    ensures FiscalCodeOf(text).Some? ==>
              var c := FiscalCodeOf(text).value;
              |c| == 16 && forall i :: 0 <= i < 16 ==> IsUpper(c[i]) || IsDigit(c[i])
  {
    if FiscalCodeOf(text).Some? {
      FiscalCodeAlnum(FiscalCodeOf(text).value);
    }
  }

  /** The fiscal-code part of `extract_patient_metadata_from_text`. */
  method ExtractFiscalCode(text: string) returns (r: Option<string>)
    ensures r == FiscalCodeOf(text)
  {
    if text == "" {
      return None;
    }
    var lines := SplitLines(text);
    var cands, labelled := ScanFiscalCodes(lines);
    r := labelled;
    if cands != [] {
      var best := Best(cands);
      if best.score >= 0 || labelled.None? {
        r := Some(best.code);
      }
    }
    if r.None? {
      var upper := UpperStr(text);
      var m := SearchCf(upper, 0);
      if m.Some? {
        r := Some(UpperStr(m.value));
      } else {
        var m2 := SearchCf(Compact(upper), 0);
        if m2.Some? {
          r := Some(UpperStr(m2.value));
        }
      }
    }
  }

  /** The loop over the lines that gathers `cf_candidates` and the labelled code. */
  method ScanFiscalCodes(lines: seq<string>) returns (cands: seq<Candidate>, labelled: Option<string>)
    ensures cands == Candidates(lines, |lines|) && labelled == LabelledCf(lines, |lines|)
  {
    cands := [];
    labelled := None;
    for idx := 0 to |lines|
      invariant cands == Candidates(lines, idx) && labelled == LabelledCf(lines, idx)
    {
      var lineClean := Strip(lines[idx]);
      if lineClean == "" {
        continue;
      }
      var lowerLine := LowerStr(lineClean);
      var upperLine := UpperStr(lineClean);
      var lineCands := ScoreLine(lines, idx, Compact(upperLine));
      cands := cands + lineCands;
      if labelled.None? && Contains(lowerLine, "codice") && Contains(lowerLine, "fisc") && !Contains(lowerLine, "medic") {
        var m := SearchCf(upperLine, 0);
        if m.Some? {
          labelled := Some(UpperStr(m.value));
        }
      }
    }
  }

  /** The inner loop of the scan: one scored candidate per code found in the sanitised line. */
  method ScoreLine(lines: seq<string>, idx: nat, sanitized: string) returns (out: seq<Candidate>)
    requires idx < |lines| && Strip(lines[idx]) != "" && sanitized == Sanitized(lines[idx])
    ensures out == LineCandidates(lines, idx)
  {
    var found := FindAllCf(sanitized, 0);
    var score := Score(Neighborhood(lines, idx));
    out := [];
    for k := 0 to |found|
      invariant out == Scored(found[..k], score, idx)
    {
      out := out + [Candidate(score, idx, UpperStr(found[k]))];
    }
    assert found[..|found|] == found;
  }

  /** The patient metadata found in the text; the name and date label searches are given. */
  datatype Meta = Meta(codiceFiscale: Option<string>, nome: Option<string>, dataNascita: Option<string>, dataDocumento: Option<string>)

  /**
   * `extract_patient_metadata_from_text` with the results of the name,
   * birth-date and document-date label searches given: the fiscal code as
   * above, and the document date falling back to the first ISO date of the
   * text. Empty text gives nothing.
   */
  function ExtractMeta(text: string, nome: Option<string>, dataNascita: Option<string>, labelledDate: Option<string>): Meta {
    if text == "" then Meta(None, None, None, None)
    else
      var docDate := if labelledDate.Some? then labelledDate
                     else match ExtractIsoDate(text) case Some(hit) => Some(hit.0) case None => None;
      Meta(FiscalCodeOf(text), nome, dataNascita, docDate)
  }

  // ---------------------------------------------------------------------
  // enrich_record_with_heuristics
  // ---------------------------------------------------------------------

  /** Sets `d[k]` to `f(v)` when the metadata value `v` is truthy and `d[k]` is blank. */
  function FillBlank(d: Fields, k: string, v: Option<string>, upper: bool, title: bool): Fields {
    if v.Some? && v.value != "" && Get(d, k) == "" then
      d[k := if upper then UpperStr(v.value) else if title then Title(v.value) else v.value]
    else d
  }

  /** `enrich_record_with_heuristics(record, text)` with the metadata given. */
  function Enrich(r: Record, meta: Meta): Record {
    var p := FillBlank(r.paziente, "codice_fiscale", meta.codiceFiscale, true, false);
    var p := FillBlank(p, "nome", meta.nome, false, true);
    var p := FillBlank(p, "data_nascita", meta.dataNascita, false, false);
    var d := FillBlank(r.documento, "data_documento", meta.dataDocumento, false, false);
    r.(paziente := p, documento := d)
  }

  /** The keys the enrichment may fill. */
  predicate EnrichedKey(k: string) {
    k == "codice_fiscale" || k == "nome" || k == "data_nascita"
  }

  /**
   * The enrichment touches only the fields that are blank: `codice_fiscale`
   * (upper-cased), `nome` (title-cased) and `data_nascita` of the patient and
   * `data_documento` of the document. Nothing else changes.
   */
  lemma EnrichFillsOnlyBlanks(r: Record, meta: Meta, k: string)
    ensures var e := Enrich(r, meta);
            e.(paziente := r.paziente, documento := r.documento) == r &&
            (Get(e.paziente, k) != Get(r.paziente, k) ==> Get(r.paziente, k) == "" && EnrichedKey(k)) &&
            (Get(e.documento, k) != Get(r.documento, k) ==> Get(r.documento, k) == "" && k == "data_documento") &&
            (k in r.paziente ==> k in e.paziente) && (k in r.documento ==> k in e.documento)
  {
  }

  /** Blank fields with a truthy metadata value are filled with it, in the stated case. */
  lemma EnrichFills(r: Record, meta: Meta)
    ensures var e := Enrich(r, meta);
            (Get(r.paziente, "codice_fiscale") == "" && meta.codiceFiscale.Some? && meta.codiceFiscale.value != "" ==>
               Get(e.paziente, "codice_fiscale") == UpperStr(meta.codiceFiscale.value)) &&
            (Get(r.paziente, "nome") == "" && meta.nome.Some? && meta.nome.value != "" ==>
               Get(e.paziente, "nome") == Title(meta.nome.value)) &&
            (Get(r.paziente, "data_nascita") == "" && meta.dataNascita.Some? && meta.dataNascita.value != "" ==>
               Get(e.paziente, "data_nascita") == meta.dataNascita.value) &&
            (Get(r.documento, "data_documento") == "" && meta.dataDocumento.Some? && meta.dataDocumento.value != "" ==>
               Get(e.documento, "data_documento") == meta.dataDocumento.value)
  {
  }

  /** Enriching twice with the same metadata is enriching once. */
  lemma EnrichIdempotent(r: Record, meta: Meta)
    ensures Enrich(Enrich(r, meta), meta) == Enrich(r, meta)
  {
    UpperNonEmpty(meta.codiceFiscale);
    TitleNonEmpty(meta.nome);
    var p1 := FillBlank(r.paziente, "codice_fiscale", meta.codiceFiscale, true, false);
    var p2 := FillBlank(p1, "nome", meta.nome, false, true);
    var p3 := FillBlank(p2, "data_nascita", meta.dataNascita, false, false);
    assert Get(p3, "codice_fiscale") == Get(p1, "codice_fiscale");
    assert Get(p3, "nome") == Get(p2, "nome");
    FillBlankFixed(p3, "codice_fiscale", meta.codiceFiscale, true, false);
    FillBlankFixed(p3, "nome", meta.nome, false, true);
    FillBlankFixed(p3, "data_nascita", meta.dataNascita, false, false);
    var d := FillBlank(r.documento, "data_documento", meta.dataDocumento, false, false);
    FillBlankFixed(d, "data_documento", meta.dataDocumento, false, false);
  }

  /** A field already set, or a falsy value, leaves the fields as they are. */
  lemma FillBlankFixed(d: Fields, k: string, v: Option<string>, upper: bool, title: bool)
    requires Get(d, k) != "" || v.None? || v.value == ""
    ensures FillBlank(d, k, v, upper, title) == d
  {
  }

  lemma UpperNonEmpty(v: Option<string>)
    ensures v.Some? && v.value != "" ==> UpperStr(v.value) != ""
  {
  }

  lemma TitleNonEmpty(v: Option<string>)
    ensures v.Some? && v.value != "" ==> Title(v.value) != ""
  {
  }

  // ---------------------------------------------------------------------
  // infer_specialty_from_text and its use
  // ---------------------------------------------------------------------

  /** Some keyword of `kws` occurs in `lowered`. */
  predicate AnyKeyword(lowered: string, kws: seq<string>) {
    exists i :: 0 <= i < |kws| && Contains(lowered, kws[i])
  }

  /** The first specialty of `table` with a keyword in `lowered`. */
  function FirstSpecialty(lowered: string, table: seq<(string, seq<string>)>): (r: Option<string>)
    ensures r.None? <==> forall i :: 0 <= i < |table| ==> !AnyKeyword(lowered, table[i].1)
    ensures r.Some? ==> exists i :: 0 <= i < |table| && table[i].0 == r.value && AnyKeyword(lowered, table[i].1) &&
                                    forall j :: 0 <= j < i ==> !AnyKeyword(lowered, table[j].1)
    decreases |table|
  {
    if table == [] then None
    else if AnyKeyword(lowered, table[0].1) then
      assert table[0].0 == table[0].0;
      Some(table[0].0)
    else
      var r := FirstSpecialty(lowered, table[1..]);
      if r.Some? then
        var i :| 0 <= i < |table[1..]| && table[1..][i].0 == r.value && AnyKeyword(lowered, table[1..][i].1) &&
                 forall j :: 0 <= j < i ==> !AnyKeyword(lowered, table[1..][j].1);
        assert table[i + 1] == table[1..][i];
        assert forall j :: 1 <= j < i + 1 ==> table[j] == table[1..][j - 1];
        r
      else
        assert forall i :: 1 <= i < |table| ==> table[i] == table[1..][i - 1];
        r
  }

  /** `infer_specialty_from_text(text)`. */
  function InferSpecialty(text: string): Option<string> {
    var lowered := LowerStr(text);
    if lowered == "" then None else FirstSpecialty(lowered, SPECIALTY_KEYWORDS)
  }

  /** Entry `i` wins when it has a keyword and no earlier entry has one. */
  lemma {:induction false} FirstSpecialtyAt(lowered: string, table: seq<(string, seq<string>)>, i: nat)
    requires i < |table| && AnyKeyword(lowered, table[i].1)
    requires forall j :: 0 <= j < i ==> !AnyKeyword(lowered, table[j].1)
    ensures FirstSpecialty(lowered, table) == Some(table[i].0)
    decreases i
  {
    if i > 0 {
      assert table[1..][i - 1] == table[i];
      assert forall j :: 0 <= j < i - 1 ==> table[1..][j] == table[j + 1];
      FirstSpecialtyAt(lowered, table[1..], i - 1);
    }
  }

  lemma EndocrinologiaEntry()
    ensures SPECIALTY_KEYWORDS[3].0 == "endocrinologia" && SPECIALTY_KEYWORDS[3].1[0] == "tiroide"
  {
  }

  /**
   * A text mentioning "tiroide" with no keyword of ematologia, cardiologia or
   * gastroenterologia (the three entries before endocrinologia) is inferred
   * to be endocrinologia.
   */
  lemma TiroideIsEndocrinologia(text: string)
    requires Contains(LowerStr(text), "tiroide")
    requires forall j :: 0 <= j < 3 ==> !AnyKeyword(LowerStr(text), SPECIALTY_KEYWORDS[j].1)
    ensures InferSpecialty(text) == Some("endocrinologia")
  {
    EndocrinologiaEntry();
    var l := LowerStr(text);
    assert AnyKeyword(l, SPECIALTY_KEYWORDS[3].1);
    FirstSpecialtyAt(l, SPECIALTY_KEYWORDS, 3);
  }

  /** The category an inferred specialty maps to: spaces made underscores if that is a category, else the specialty. */
  function InferredCategory(sp: string): (c: string)
    ensures c in CATEGORY_CHOICES || c == sp
  {
    var c := ReplaceAll(sp, " ", "_");
    if c in CATEGORY_CHOICES then c else sp
  }

  /** Whether a specialty reads as unknown: blank or "altro" once stripped and lowercased. */
  predicate UnknownSpecialty(raw: string) {
    var s := LowerStr(Strip(raw));
    s == "" || s == "altro"
  }

  /**
   * The inference step of the analysis, given what `infer_specialty` found:
   * only an unknown specialty is replaced by the inferred one, and then only
   * a category "" or "altro" is replaced by the matching category.
   */
  function ApplyInferred(r: Record, inferred: Option<string>): Record {
    if !UnknownSpecialty(Get(r.documento, "specialita")) then r
    else
      match inferred
      case None => r
      case Some(sp) =>
        var doc := r.documento["specialita" := sp];
        if r.categoria == "" || r.categoria == "altro" then r.(documento := doc, categoria := InferredCategory(sp))
        else r.(documento := doc)
  }

  /** The inference step on the text of the document. */
  function ApplyInference(r: Record, text: string): Record {
    ApplyInferred(r, InferSpecialty(text))
  }

  /** The inference step changes nothing but the specialty and the category. */
  lemma ApplyInferredFrame(r: Record, inferred: Option<string>)
    ensures var a := ApplyInferred(r, inferred);
            a.(documento := r.documento, categoria := r.categoria) == r &&
            forall k :: k != "specialita" ==> Get(a.documento, k) == Get(r.documento, k)
  {
  }

  /** A changed specialty was unknown, and is now the inferred one. */
  lemma ApplyInferredSpecialty(r: Record, inferred: Option<string>)
    ensures var a := ApplyInferred(r, inferred);
            Get(a.documento, "specialita") != Get(r.documento, "specialita") ==>
              UnknownSpecialty(Get(r.documento, "specialita")) && inferred == Some(Get(a.documento, "specialita"))
  {
  }

  /** A changed category was "" or "altro", and is now a category or the inferred specialty. */
  lemma ApplyInferredCategory(r: Record, inferred: Option<string>)
    ensures var a := ApplyInferred(r, inferred);
            a.categoria != r.categoria ==>
              (r.categoria == "" || r.categoria == "altro") &&
              (a.categoria in CATEGORY_CHOICES || Some(a.categoria) == inferred)
  {
    var a := ApplyInferred(r, inferred);
    if a.categoria != r.categoria {
      var sp := inferred.value;
      assert a.categoria == InferredCategory(sp);
    }
  }

  /** A known specialty is never overridden by the inference. */
  lemma ApplyInferredKeepsKnown(r: Record, inferred: Option<string>)
    requires !UnknownSpecialty(Get(r.documento, "specialita"))
    ensures ApplyInferred(r, inferred) == r
  {
  }

  /** Two space-free words joined by a space map to the category that joins them by '_'. */
  lemma InferredCategoryJoin(a: string, b: string)
    requires ' ' !in a && ' ' !in b
    requires a + "_" + b in CATEGORY_CHOICES
    ensures InferredCategory(a + " " + b) == a + "_" + b
  {
    SpaceJoinReplaced(a, b);
  }

  lemma SpaceJoinReplaced(a: string, b: string)
    requires ' ' !in a && ' ' !in b
    ensures ReplaceAll(a + " " + b, " ", "_") == a + "_" + b
  {
    assert a + " " + b == a + (" " + b);
    ReplaceCharAppend(a, " " + b, ' ', '_');
    ReplaceCharAppend(" ", b, ' ', '_');
    ReplaceAllAbsent(a, " ", "_");
    ReplaceAllAbsent(b, " ", "_");
    assert ReplaceAll(" ", " ", "_") == "_";
    assert a + ("_" + b) == a + "_" + b;
  }

  /** `medicina generale` maps to the category `medicina_generale`. */
  lemma MedicinaGeneraleCategory()
    ensures InferredCategory("medicina generale") == "medicina_generale"
  {
    var a, b := "medicina", "generale";
    assert "medicina generale" == a + " " + b;
    assert CATEGORY_CHOICES[14] == a + "_" + b;
    InferredCategoryJoin(a, b);
  }
}
