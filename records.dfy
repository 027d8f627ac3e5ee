/**
 * The analysis record of one PDF and the merge that fills the gaps of a
 * primary record from a fallback record (`merge_record_with_fallback`), with
 * the blank record the chunk fusion starts from (`make_empty_record`) and the
 * canonicalisation of the specialty (`normalize_specialty_field`).
 *
 * A record is the JSON object the analyser writes. Its scalar fields are
 * strings, "" standing for a missing or falsy value; the nested `documento`
 * and `paziente` objects are maps from key to string, a missing key reading
 * as ""; the list fields are a map from `ListField` to the list, a missing or
 * non-list field reading as [].
 */
module Records {
  import opened Wrappers
  import opened Strings
  import opened Lists
  import opened Taxonomy

  /** The list fields of a record, in the order the merge visits them. */
  datatype ListField =
    | DiagnosiPrincipali
    | FarmaciPrescritti
    | Terapie
    | EsamiLaboratorio
    | EsamiDiagnostica
    | Anamnesi
    | DateRilevanti
    | NoteRilevanti

  const LIST_FIELDS: seq<ListField> :=
    [DiagnosiPrincipali, FarmaciPrescritti, Terapie, EsamiLaboratorio,
     EsamiDiagnostica, Anamnesi, DateRilevanti, NoteRilevanti]

  lemma ListFieldsComplete()
    ensures forall f: ListField :: f in LIST_FIELDS
  {
    forall f: ListField ensures f in LIST_FIELDS {
      match f
      case DiagnosiPrincipali => assert LIST_FIELDS[0] == f;
      case FarmaciPrescritti => assert LIST_FIELDS[1] == f;
      case Terapie => assert LIST_FIELDS[2] == f;
      case EsamiLaboratorio => assert LIST_FIELDS[3] == f;
      case EsamiDiagnostica => assert LIST_FIELDS[4] == f;
      case Anamnesi => assert LIST_FIELDS[5] == f;
      case DateRilevanti => assert LIST_FIELDS[6] == f;
      case NoteRilevanti => assert LIST_FIELDS[7] == f;
    }
  }

  /** A nested object (`documento`, `paziente`). */
  type Fields = map<string, string>

  /** `d.get(k) or ""`. */
  function Get(d: Fields, k: string): string {
    if k in d then d[k] else ""
  }

  datatype Record = Record(
    file: string,
    path: string,
    timestamp: string,
    documento: Fields,
    paziente: Fields,
    categoria: string,
    riassunto: string,
    medicoEnte: string,
    lists: map<ListField, seq<string>>)
  {
    /** The list stored under `f`, [] when there is none. */
    function List(f: ListField): seq<string> {
      if f in lists then lists[f] else []
    }
  }

  /** The list fields that `make_empty_record` creates, all empty. */
  function EmptyLists(): (m: map<ListField, seq<string>>)
    ensures forall f :: f in m && m[f] == []
  {
    ListFieldsComplete();
    map f: ListField | f in LIST_FIELDS :: []
  }

  /**
   * `make_empty_record(name, fpath)` with the analysis timestamp given: every
   * text field blank except `documento.specialita` and `categoria`, which are
   * "altro", and every list empty.
   */
  function MakeEmptyRecord(name: string, fpath: string, timestamp: string): (r: Record)
    ensures r.file == name && r.path == fpath
    ensures forall f :: r.List(f) == []
    ensures Get(r.documento, "specialita") == "altro" && r.categoria == "altro"
    ensures forall k :: k != "specialita" ==> Get(r.documento, k) == ""
    ensures forall k :: Get(r.paziente, k) == ""
    ensures r.riassunto == "" && r.medicoEnte == ""
  {
    Record(
      name, fpath, timestamp,
      map["tipologia" := "", "specialita" := "altro", "data_documento" := ""],
      map["nome" := "", "codice_fiscale" := "", "data_nascita" := ""],
      "altro", "", "", EmptyLists())
  }

  // ---------------------------------------------------------------------
  // merge_record_with_fallback
  // ---------------------------------------------------------------------

  /**
   * Whether the primary value `current` of a nested key may be replaced: when
   * it is blank, or, for `documento.specialita` only, when it is "altro" in
   * any case.
   */
  predicate Replaceable(isDocumento: bool, key: string, current: string) {
    current == "" || (isDocumento && key == "specialita" && LowerStr(current) == "altro")
  }

  /** Whether the nested merge takes the fallback value of `k`. */
  predicate TakesNested(dest: Fields, src: Fields, isDocumento: bool, k: string) {
    k in src && src[k] != "" && Replaceable(isDocumento, k, Get(dest, k))
  }

  /** The nested object after the merge of `src` into `dest`. */
  function MergeFields(dest: Fields, src: Fields, isDocumento: bool): Fields {
    map k | k in dest.Keys + src.Keys && (k in dest || src[k] != "") ::
      if TakesNested(dest, src, isDocumento, k) then src[k] else dest[k]
  }

  /** Whether a top-level text field (`categoria`, `riassunto`, `medico_ente`) takes the fallback value. */
  predicate TakesTop(current: string, value: string) {
    value != "" && (current == "" || current == "altro")
  }

  function MergeTop(current: string, value: string): string {
    if TakesTop(current, value) then value else current
  }

  /** Whether `file` or `path` takes the fallback value: only when blank. */
  function MergeBlank(current: string, value: string): string {
    if current == "" && value != "" then value else current
  }

  /** The list fields after the merge: each primary list extended by the fallback's. */
  function MergeLists(p: Record, f: Record): map<ListField, seq<string>> {
    map lf: ListField | lf in LIST_FIELDS :: Extend(p.List(lf), f.List(lf))
  }

  /** `merge_record_with_fallback(primary, fallback)`; `None` stands for a fallback that is not a dict. */
  function Merge(primary: Record, fallback: Option<Record>): Record {
    match fallback
    case None => primary
    case Some(f) =>
      primary.(
        documento := MergeFields(primary.documento, f.documento, true),
        paziente := MergeFields(primary.paziente, f.paziente, false),
        categoria := MergeTop(primary.categoria, f.categoria),
        riassunto := MergeTop(primary.riassunto, f.riassunto),
        medicoEnte := MergeTop(primary.medicoEnte, f.medicoEnte),
        lists := MergeLists(primary, f),
        file := MergeBlank(primary.file, f.file),
        path := MergeBlank(primary.path, f.path))
  }

  /**
   * The nested merge key by key: a primary value that is present and not
   * replaceable is kept; otherwise a truthy fallback value wins; otherwise the
   * primary value stays.
   */
  lemma MergeFieldsAt(dest: Fields, src: Fields, isDocumento: bool, k: string)
    ensures var m := MergeFields(dest, src, isDocumento);
            (Get(dest, k) != "" && !Replaceable(isDocumento, k, Get(dest, k)) ==> Get(m, k) == Get(dest, k)) &&
            (Replaceable(isDocumento, k, Get(dest, k)) && Get(src, k) != "" ==> Get(m, k) == Get(src, k)) &&
            (Get(src, k) == "" ==> Get(m, k) == Get(dest, k)) &&
            (k in m <==> k in dest || Get(src, k) != "")
  {
  }

  /**
   * The merge never overwrites a non-empty primary `documento` or `paziente`
   * value, except a `documento.specialita` that reads "altro" in any case.
   */
  lemma MergeKeepsPrimary(primary: Record, f: Record, k: string)
    ensures var m := Merge(primary, Some(f));
            (Get(primary.paziente, k) != "" ==> Get(m.paziente, k) == Get(primary.paziente, k)) &&
            ((Get(primary.documento, k) != "" && !(k == "specialita" && LowerStr(Get(primary.documento, k)) == "altro")) ==>
               Get(m.documento, k) == Get(primary.documento, k))
  {
    MergeFieldsAt(primary.documento, f.documento, true, k);
    MergeFieldsAt(primary.paziente, f.paziente, false, k);
  }

  /**
   * The top-level text fields change only from "" or "altro", and then to the
   * fallback's truthy value; `file` and `path` change only from "".
   */
  lemma MergeTopFields(primary: Record, f: Record)
    ensures var m := Merge(primary, Some(f));
            (m.categoria != primary.categoria ==> (primary.categoria in {"", "altro"} && m.categoria == f.categoria != "")) &&
            (m.riassunto != primary.riassunto ==> (primary.riassunto in {"", "altro"} && m.riassunto == f.riassunto != "")) &&
            (m.medicoEnte != primary.medicoEnte ==> (primary.medicoEnte in {"", "altro"} && m.medicoEnte == f.medicoEnte != "")) &&
            (m.file != primary.file ==> primary.file == "" && m.file == f.file) &&
            (m.path != primary.path ==> primary.path == "" && m.path == f.path) &&
            m.timestamp == primary.timestamp
  {
  }

  /**
   * Each merged list is the primary list followed by the fallback's truthy
   * items not already present, in fallback order: the primary list is a
   * prefix and no new duplicate appears.
   */
  lemma MergeListsShape(primary: Record, f: Record, lf: ListField)
    ensures var r := Merge(primary, Some(f)).List(lf);
            var e := primary.List(lf);
            |e| <= |r| && r[..|e|] == e &&
            (forall x :: x in r <==> x in e || (x in f.List(lf) && x != "")) &&
            (NoDup(e) ==> NoDup(r))
  {
    ListFieldsComplete();
    ExtendProperties(primary.List(lf), f.List(lf));
  }

  /** A fallback that is not a dict leaves the primary record as it is. */
  lemma MergeNoFallback(primary: Record)
    ensures Merge(primary, None) == primary
  {
  }

  lemma MergeFieldsIdempotent(dest: Fields, src: Fields, isDocumento: bool)
    ensures var m := MergeFields(dest, src, isDocumento);
            MergeFields(m, src, isDocumento) == m
  {
    var m := MergeFields(dest, src, isDocumento);
    var m2 := MergeFields(m, src, isDocumento);
    forall k | k in m2 ensures k in m && m2[k] == m[k] {
      MergeFieldsAt(dest, src, isDocumento, k);
      MergeFieldsAt(m, src, isDocumento, k);
    }
    forall k | k in m ensures k in m2 {
      MergeFieldsAt(m, src, isDocumento, k);
    }
  }

  lemma MergeListsIdempotent(primary: Record, f: Record)
    ensures var m := Merge(primary, Some(f));
            MergeLists(m, f) == m.lists
  {
    var m := Merge(primary, Some(f));
    ListFieldsComplete();
    forall lf: ListField ensures MergeLists(m, f)[lf] == m.lists[lf] {
      ExtendIdempotent(primary.List(lf), f.List(lf));
    }
  }

  /** Merging the same fallback a second time changes nothing more. */
  lemma MergeIdempotent(primary: Record, f: Record)
    ensures Merge(Merge(primary, Some(f)), Some(f)) == Merge(primary, Some(f))
  {
    MergeFieldsIdempotent(primary.documento, f.documento, true);
    MergeFieldsIdempotent(primary.paziente, f.paziente, false);
    MergeListsIdempotent(primary, f);
  }

  /** The nested loop `for key, value in src.items(): ...` over one object. */
  method MergeNested(dest0: Fields, src: Fields, isDocumento: bool) returns (dest: Fields)
    ensures dest == MergeFields(dest0, src, isDocumento)
  {
    dest := dest0;
    var todo := src.Keys;
    while todo != {}
      invariant todo <= src.Keys
      invariant forall k :: k in dest <==> k in dest0 || (k in src && k !in todo && src[k] != "")
      invariant forall k :: k in dest ==>
                  dest[k] == if k !in todo && TakesNested(dest0, src, isDocumento, k) then src[k] else dest0[k]
      decreases todo
    {
      var key :| key in todo;
      var value := src[key];
      todo := todo - {key};
      if value != "" {
        var current := Get(dest, key);
        assert current == Get(dest0, key);
        if current == "" || (isDocumento && key == "specialita" && LowerStr(current) == "altro") {
          dest := dest[key := value];
        }
      }
    }
    ghost var m := MergeFields(dest0, src, isDocumento);
    assert forall k :: k in dest <==> k in m;
    assert dest == m;
  }

  /** The body of the loop over `categoria`, `riassunto` and `medico_ente`. */
  method MergeTopField(current: string, value: string) returns (r: string)
    ensures r == MergeTop(current, value)
  {
    r := current;
    if value != "" && (current == "" || current == "altro") {
      r := value;
    }
  }

  /** `if not primary.get(field) and fallback.get(field): primary[field] = fallback[field]`. */
  method MergeBlankField(current: string, value: string) returns (r: string)
    ensures r == MergeBlank(current, value)
  {
    r := current;
    if current == "" && value != "" {
      r := value;
    }
  }

  /** The append loops over the list fields. */
  method MergeListFields(primary: Record, f: Record) returns (lists: map<ListField, seq<string>>)
    ensures lists == MergeLists(primary, f)
  {
    lists := map[];
    for i := 0 to |LIST_FIELDS|
      invariant forall lf :: lf in lists <==> lf in LIST_FIELDS[..i]
      invariant forall lf :: lf in lists ==> lists[lf] == Extend(primary.List(lf), f.List(lf))
    {
      var field := LIST_FIELDS[i];
      var existing := ExtendList(primary.List(field), f.List(field));
      assert LIST_FIELDS[..i + 1] == LIST_FIELDS[..i] + [field];
      lists := lists[field := existing];
    }
    assert LIST_FIELDS[..|LIST_FIELDS|] == LIST_FIELDS;
  }

  /** `merge_record_with_fallback`: the nested loops, the field updates and the list append loops. */
  method MergeRecordWithFallback(primary: Record, fallback: Option<Record>) returns (merged: Record)
    ensures merged == Merge(primary, fallback)
  {
    if fallback.None? {
      return primary;
    }
    var f := fallback.value;
    var doc := MergeNested(primary.documento, f.documento, true);
    var paz := MergeNested(primary.paziente, f.paziente, false);
    var categoria := MergeTopField(primary.categoria, f.categoria);
    var riassunto := MergeTopField(primary.riassunto, f.riassunto);
    var medicoEnte := MergeTopField(primary.medicoEnte, f.medicoEnte);
    var lists := MergeListFields(primary, f);
    var file := MergeBlankField(primary.file, f.file);
    var path := MergeBlankField(primary.path, f.path);
    merged := Record(file, path, primary.timestamp, doc, paz, categoria, riassunto, medicoEnte, lists);
  }

  // ---------------------------------------------------------------------
  // normalize_specialty_field
  // ---------------------------------------------------------------------

  /** The first entry of `known` equal to `s` once lowercased. */
  function FindKnown(s: string, known: seq<string>): (r: Option<string>)
    ensures r.Some? ==> r.value in known && LowerStr(r.value) == s
    ensures r.None? ==> forall k :: k in known ==> LowerStr(k) != s
    decreases |known|
  {
    if known == [] then None
    else if s == LowerStr(known[0]) then Some(known[0])
    else FindKnown(s, known[1..])
  }

  /** The entry found is the first whose lowercase form matches. */
  lemma {:induction false} FindKnownAt(s: string, known: seq<string>, i: nat)
    requires i < |known| && LowerStr(known[i]) == s
    requires forall j :: 0 <= j < i ==> LowerStr(known[j]) != s
    ensures FindKnown(s, known) == Some(known[i])
    decreases i
  {
    if i > 0 {
      assert LowerStr(known[0]) != s;
      assert forall j :: 0 <= j < i - 1 ==> known[1..][j] == known[j + 1];
      FindKnownAt(s, known[1..], i - 1);
    }
  }

  /** The specialty as `normalize_specialty_field` writes it back, against the list `known`. */
  function CanonicalIn(raw: string, known: seq<string>): string {
    var s := LowerStr(Strip(raw));
    match FindKnown(s, known)
    case Some(k) => k
    case None => if s == "" then "altro" else s
  }

  /** The specialty as `normalize_specialty_field` writes it back. */
  function CanonicalSpecialty(raw: string): string {
    CanonicalIn(raw, MEDICAL_SPECIALTIES)
  }

  /** The document fields with `specialita` in canonical form. */
  function NormalizedDocumento(d: Fields): Fields {
    d["specialita" := CanonicalSpecialty(Get(d, "specialita"))]
  }

  lemma NormalizedDocumentoKeeps(d: Fields, k: string)
    requires k != "specialita"
    ensures Get(NormalizedDocumento(d), k) == Get(d, k)
  {
  }

  /** `normalize_specialty_field(record)`. */
  function NormalizeSpecialtyField(r: Record): Record {
    r.(documento := NormalizedDocumento(r.documento))
  }

  lemma KnownNonEmpty()
    ensures forall k :: k in MEDICAL_SPECIALTIES ==> k != []
  {
  }

  /** "altro" is the last known specialty and no other has its length. */
  lemma KnownAltro()
    ensures MEDICAL_SPECIALTIES[28] == "altro"
    ensures forall j :: 0 <= j < 28 ==> |MEDICAL_SPECIALTIES[j]| != 5
  {
  }

  /** A lowercased string without a space at either end has nothing to strip, nor has its preimage. */
  lemma StrippedLower(r: string, s: string)
    requires s != [] && LowerStr(r) == s && !IsSpace(s[0]) && !IsSpace(s[|s| - 1])
    ensures Strip(r) == r
  {
    assert Lower(r[0]) == s[0] && Lower(r[|r| - 1]) == s[|s| - 1];
    StripCharsNoop(r, WHITESPACE);
  }

  lemma CanonicalInIs(raw: string, known: seq<string>)
    requires forall k :: k in known ==> k != []
    ensures var s := LowerStr(Strip(raw));
            var r := CanonicalIn(raw, known);
            LowerStr(r) == (if s == "" then "altro" else s) &&
            Strip(r) == r &&
            (FindKnown(s, known).Some? ==> r in known)
  {
    var s := LowerStr(Strip(raw));
    if s == "" {
      StripCharsNoop("altro", WHITESPACE);
    } else {
      StrippedLower(CanonicalIn(raw, known), s);
    }
  }

  /**
   * The canonical form reads, in lower case, as the stripped lowercased value,
   * or "altro" when that is blank; it has nothing to strip; and it is a known
   * specialty whenever the value matches one case-insensitively.
   */
  lemma CanonicalSpecialtyIs(raw: string)
    ensures var s := LowerStr(Strip(raw));
            var r := CanonicalSpecialty(raw);
            LowerStr(r) == (if s == "" then "altro" else s) &&
            Strip(r) == r &&
            (FindKnown(s, MEDICAL_SPECIALTIES).Some? ==> r in MEDICAL_SPECIALTIES)
  {
    KnownNonEmpty();
    CanonicalInIs(raw, MEDICAL_SPECIALTIES);
  }

  lemma CanonicalInIdempotent(raw: string, known: seq<string>)
    requires forall k :: k in known ==> k != []
    requires CanonicalIn("altro", known) == "altro"
    ensures CanonicalIn(CanonicalIn(raw, known), known) == CanonicalIn(raw, known)
  {
    CanonicalInIs(raw, known);
    var s := LowerStr(Strip(raw));
    if s != "" {
      var r := CanonicalIn(raw, known);
      assert LowerStr(Strip(r)) == s;
    }
  }

  lemma CanonicalAltro()
    ensures CanonicalSpecialty("altro") == "altro"
  {
    KnownAltro();
    StripCharsNoop("altro", WHITESPACE);
    assert LowerStr("altro") == "altro";
    FindKnownAt("altro", MEDICAL_SPECIALTIES, 28);
  }

  /** Normalising the specialty twice is normalising it once. */
  lemma CanonicalSpecialtyIdempotent(raw: string)
    ensures CanonicalSpecialty(CanonicalSpecialty(raw)) == CanonicalSpecialty(raw)
  {
    KnownNonEmpty();
    CanonicalAltro();
    CanonicalInIdempotent(raw, MEDICAL_SPECIALTIES);
  }

  /** A specialty in the form `normalize_specialty_field` leaves: a fixed point, stripped and not blank. */
  predicate CanonicalForm(sp: string) {
    CanonicalSpecialty(sp) == sp && Strip(sp) == sp && sp != ""
  }

  /** Every value normalises to a specialty in canonical form. */
  lemma CanonicalSpecialtyForm(raw: string)
    ensures CanonicalForm(CanonicalSpecialty(raw))
  {
    CanonicalSpecialtyIdempotent(raw);
    CanonicalSpecialtyIs(raw);
  }
}
