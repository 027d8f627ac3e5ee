/**
 * The tail of `analyze_pdfs` for one document: the chunk records fused into
 * one, `date_rilevanti` rewritten, the OCR note, the heuristic enrichment,
 * the specialty inference, the vision-fallback decision, the final
 * `normalize_specialty_field`, the analysis timestamp and the document date
 * put first into `date_rilevanti`. The chunk fusion is chosen by `intended`:
 * as written, or corrected (see the findings).
 *
 * When the vision fallback is entered, the code always ends at the warning
 * that names `vision_exc` after the `try` (line 1370 is outside the `except`),
 * where the name is unbound: the analysis of the document raises. The model
 * gives no record in that case.
 */
module Analysis {
  import opened Wrappers
  import opened Strings
  import opened Lists
  import opened Dates
  import opened Records
  import opened Heuristics
  import opened Fusion

  /** What the tail needs besides the chunk records. */
  datatype Inputs = Inputs(
    text: string,
    useOcr: bool,
    nome: Option<string>,
    dataNascita: Option<string>,
    labelledDate: Option<string>,
    now: string,
    visionFallback: bool,
    visionModel: bool)

  /** `r` with the list `f` replaced by `xs`. */
  function WithList(r: Record, f: ListField, xs: seq<string>): (s: Record)
    ensures s.List(f) == xs && forall g :: g != f ==> s.List(g) == r.List(g)
    ensures s.(lists := r.lists) == r
  {
    r.(lists := r.lists[f := xs])
  }

  /** The dates rewritten and, when OCR was used, the OCR note added. */
  function Rewritten(merged: Record, useOcr: bool): Record {
    OcrNoted(WithList(merged, DateRilevanti, RewriteDates(merged.List(DateRilevanti))), useOcr)
  }

  /** The OCR note added to the notes when OCR was used. */
  function OcrNoted(r: Record, useOcr: bool): Record {
    if useOcr then WithList(r, NoteRilevanti, AddOcrNote(r.List(NoteRilevanti))) else r
  }

  /** The metadata the enrichment uses. */
  function MetaOf(inp: Inputs): Meta {
    ExtractMeta(inp.text, inp.nome, inp.dataNascita, inp.labelledDate)
  }

  /**
   * The enrichment and the specialty inference, `inferred` being what
   * `infer_specialty_from_text` finds in the text.
   */
  function Inferred(r: Record, meta: Meta, inferred: Option<string>): Record {
    ApplyInferred(Enrich(r, meta), inferred)
  }

  /** `specialty_unknown`: the specialty, stripped and lowercased, is blank or "altro". */
  predicate SpecialtyUnknown(r: Record) {
    UnknownSpecialty(Get(r.documento, "specialita"))
  }

  /** `patient_unknown`: neither the fiscal code nor the name is set. */
  predicate PatientUnknown(r: Record) {
    Get(r.paziente, "codice_fiscale") == "" && Get(r.paziente, "nome") == ""
  }

  /** Whether the vision fallback is asked for: enabled, and the specialty or the patient unknown. */
  predicate WantsVision(r: Record, inp: Inputs) {
    inp.visionFallback && (SpecialtyUnknown(r) || PatientUnknown(r))
  }

  const VISION_MISSING_NOTE: string := "[WARN] Vision fallback richiesto ma nessun modello vision configurato."

  /** Whether the missing-model warning is due: the fallback asked for, and no vision model configured. */
  predicate WarningDue(r: Record, inp: Inputs) {
    WantsVision(r, inp) && !inp.visionModel
  }

  /** The record with the missing-model warning appended to the notes when `due`. */
  function Warned(r: Record, due: bool): Record {
    if due then WithList(r, NoteRilevanti, r.List(NoteRilevanti) + [VISION_MISSING_NOTE]) else r
  }

  /** The warning, when `due`, and the final normalisation of the specialty. */
  function Settled(a: Record, due: bool): Record {
    NormalizeSpecialtyField(Warned(a, due))
  }

  /** The steps from the enrichment to the final normalisation of the specialty. */
  function Classified(r: Record, meta: Meta, inferred: Option<string>, inp: Inputs): Record {
    Settled(Inferred(r, meta, inferred), WarningDue(Inferred(r, meta, inferred), inp))
  }

  /** The timestamp set and the document date added to `date_rilevanti`. */
  function Stamped(r: Record, now: string): Record {
    WithList(r.(timestamp := now), DateRilevanti, AddDocumentDate(r.List(DateRilevanti), Get(r.documento, "data_documento")))
  }

  /**
   * Everything after the fusion of the chunk records, when the vision branch
   * is not entered, for the metadata `meta` and the inferred specialty
   * `inferred` found in the text.
   */
  function Finish(merged: Record, meta: Meta, inferred: Option<string>, inp: Inputs): Record {
    Stamped(Classified(Rewritten(merged, inp.useOcr), meta, inferred, inp), inp.now)
  }

  /** Whether the vision branch runs: the fallback asked for, and a vision model configured. */
  predicate EntersVision(merged: Record, meta: Meta, inferred: Option<string>, inp: Inputs) {
    WantsVision(Inferred(Rewritten(merged, inp.useOcr), meta, inferred), inp) && inp.visionModel
  }

  /**
   * The steps after the specialty inference, on the record `a` it left: no
   * record when the vision branch raises, else the warning when due, the
   * normalisation, the timestamp and the document date.
   */
  function Concluded(a: Record, inp: Inputs): Option<Record> {
    if WantsVision(a, inp) && inp.visionModel then None else Some(Stamped(Settled(a, WarningDue(a, inp)), inp.now))
  }

  /** The outcome after the fusion: no record when the vision branch raises. */
  function Outcome(merged: Record, inp: Inputs): Option<Record> {
    Concluded(Inferred(Rewritten(merged, inp.useOcr), MetaOf(inp), InferSpecialty(inp.text)), inp)
  }

  /**
   * The record `analyze_pdfs` produces for the chunk records `cs` of the
   * document `name`, with the chunk fusion as written or as intended.
   */
  function Analyze(name: string, fpath: string, timestamp: string, cs: seq<Chunk>, inp: Inputs, intended: bool): Option<Record> {
    Outcome(FuseWith(name, fpath, timestamp, cs, intended), inp)
  }

  // ---------------------------------------------------------------------
  // What the steps after the fusion keep
  // ---------------------------------------------------------------------

  /**
   * The warning and the final normalisation change the specialty and, when
   * the warning is due, append it to the notes; nothing else.
   */
  lemma SettledIs(a: Record, due: bool)
    ensures Settled(a, due) ==
              if due then a.(documento := NormalizedDocumento(a.documento),
                             lists := a.lists[NoteRilevanti := a.List(NoteRilevanti) + [VISION_MISSING_NOTE]])
              else a.(documento := NormalizedDocumento(a.documento))
  {
  }

  /** The warning and the normalisation touch no list but the notes. */
  lemma SettledLists(a: Record, due: bool)
    ensures forall g :: g != NoteRilevanti ==> Settled(a, due).List(g) == a.List(g)
  {
    SettledIs(a, due);
  }

  /** The notes after the warning: the warning appended exactly when it is due. */
  lemma SettledNotes(a: Record, due: bool)
    ensures Settled(a, due).List(NoteRilevanti) == a.List(NoteRilevanti) + (if due then [VISION_MISSING_NOTE] else [])
  {
    SettledIs(a, due);
  }

  /** The enrichment and the inference change no list and no identity field. */
  lemma InferredFrame(r: Record, meta: Meta, inferred: Option<string>)
    ensures var a := Inferred(r, meta, inferred);
            a.lists == r.lists && a.file == r.file && a.path == r.path && a.timestamp == r.timestamp &&
            a.riassunto == r.riassunto && a.medicoEnte == r.medicoEnte
  {
    EnrichFillsOnlyBlanks(r, meta, "");
    ApplyInferredFrame(Enrich(r, meta), inferred);
  }


  /** The enrichment and the inference keep every list. */
  lemma InferredLists(r: Record, meta: Meta, inferred: Option<string>)
    ensures forall g :: Inferred(r, meta, inferred).List(g) == r.List(g)
  {
    InferredFrame(r, meta, inferred);
  }

  /** The classification leaves `date_rilevanti` alone. */
  lemma ClassifiedDates(r: Record, meta: Meta, inferred: Option<string>, inp: Inputs)
    ensures Classified(r, meta, inferred, inp).List(DateRilevanti) == r.List(DateRilevanti)
  {
    InferredLists(r, meta, inferred);
    SettledLists(Inferred(r, meta, inferred), WarningDue(Inferred(r, meta, inferred), inp));
  }

  /** The classification changes only the nested objects, the category and the lists. */
  lemma ClassifiedIdentity(r: Record, meta: Meta, inferred: Option<string>, inp: Inputs)
    ensures Classified(r, meta, inferred, inp).(documento := r.documento, paziente := r.paziente,
                                                 categoria := r.categoria, lists := r.lists) == r
  {
    var a := Inferred(r, meta, inferred);
    InferredFrame(r, meta, inferred);
    SettledIs(a, WarningDue(a, inp));
  }

  /**
   * The notes after the classification: those before it, followed by the
   * missing-model warning exactly when the fallback is asked for and no
   * vision model is configured.
   */
  lemma ClassifiedNotes(r: Record, meta: Meta, inferred: Option<string>, inp: Inputs)
    ensures var a := Inferred(r, meta, inferred);
            Classified(r, meta, inferred, inp).List(NoteRilevanti) ==
              r.List(NoteRilevanti) + (if WarningDue(a, inp) then [VISION_MISSING_NOTE] else [])
  {
    InferredLists(r, meta, inferred);
    SettledNotes(Inferred(r, meta, inferred), WarningDue(Inferred(r, meta, inferred), inp));
  }

  /** Stamping sets the timestamp and touches no list but `date_rilevanti`. */
  lemma StampedKeeps(r: Record, now: string)
    ensures var t := Stamped(r, now);
            t.timestamp == now && t.file == r.file && t.path == r.path &&
            t.documento == r.documento && t.paziente == r.paziente &&
            forall g :: g != DateRilevanti ==> t.List(g) == r.List(g)
  {
  }

  /** The rewrite touches the dates and, with OCR, the notes, and nothing else. */
  lemma RewrittenNotes(merged: Record, useOcr: bool)
    ensures var r := Rewritten(merged, useOcr);
            r.List(DateRilevanti) == RewriteDates(merged.List(DateRilevanti)) &&
            r.List(NoteRilevanti) == (if useOcr then AddOcrNote(merged.List(NoteRilevanti)) else merged.List(NoteRilevanti)) &&
            r.file == merged.file && r.path == merged.path && r.paziente == merged.paziente &&
            r.documento == merged.documento
  {
  }

  /** The patient fields the enrichment and the inference leave: a set field stays. */
  lemma InferredKeepsPatient(r: Record, meta: Meta, inferred: Option<string>, k: string)
    requires Get(r.paziente, k) != ""
    ensures Get(Inferred(r, meta, inferred).paziente, k) == Get(r.paziente, k)
  {
    EnrichFillsOnlyBlanks(r, meta, k);
    ApplyInferredFrame(Enrich(r, meta), inferred);
  }

  /** The patient fields set by the fusion survive the rest of the analysis. */
  lemma FinishKeepsPatient(merged: Record, meta: Meta, inferred: Option<string>, inp: Inputs, k: string)
    requires Get(merged.paziente, k) != ""
    ensures Get(Finish(merged, meta, inferred, inp).paziente, k) == Get(merged.paziente, k)
  {
    var r := Rewritten(merged, inp.useOcr);
    RewrittenNotes(merged, inp.useOcr);
    var a := Inferred(r, meta, inferred);
    InferredKeepsPatient(r, meta, inferred, k);
    SettledIs(a, WarningDue(a, inp));
    StampedKeeps(Settled(a, WarningDue(a, inp)), inp.now);
  }

  /** The specialty of the final record is in canonical form: normalising it again changes nothing. */
  lemma FinishSpecialtyCanonical(merged: Record, meta: Meta, inferred: Option<string>, inp: Inputs)
    ensures CanonicalForm(Get(Finish(merged, meta, inferred, inp).documento, "specialita"))
  {
    var a := Inferred(Rewritten(merged, inp.useOcr), meta, inferred);
    var w := Warned(a, WarningDue(a, inp));
    var c := NormalizeSpecialtyField(w);
    StampedKeeps(c, inp.now);
    CanonicalSpecialtyForm(Get(w.documento, "specialita"));
  }

  /** The final `date_rilevanti` has no duplicates and holds every rewritten entry of the fused list. */
  lemma FinishDates(merged: Record, meta: Meta, inferred: Option<string>, inp: Inputs, raw: string)
    ensures NoDup(Finish(merged, meta, inferred, inp).List(DateRilevanti))
    ensures raw in merged.List(DateRilevanti) && raw != "" ==> RewriteEntry(raw) in Finish(merged, meta, inferred, inp).List(DateRilevanti)
  {
    var xs := merged.List(DateRilevanti);
    var r := Rewritten(merged, inp.useOcr);
    var c := Classified(r, meta, inferred, inp);
    RewrittenNotes(merged, inp.useOcr);
    ClassifiedDates(r, meta, inferred, inp);
    StampedDates(c, inp.now, xs, raw);
  }

  /** Stamping keeps the rewritten dates free of duplicates and keeps every rewritten entry. */
  lemma StampedDates(c: Record, now: string, xs: seq<string>, raw: string)
    requires c.List(DateRilevanti) == RewriteDates(xs)
    ensures NoDup(Stamped(c, now).List(DateRilevanti))
    ensures raw in xs && raw != "" ==> RewriteEntry(raw) in Stamped(c, now).List(DateRilevanti)
  {
    if raw in xs && raw != "" {
      var i :| 0 <= i < |xs| && xs[i] == raw;
      RewriteDatesMembers(xs, RewriteEntry(raw));
    }
  }

  /** A document date that normalises is in the final `date_rilevanti`, as a canonical entry. */
  lemma FinishDocumentDate(merged: Record, meta: Meta, inferred: Option<string>, inp: Inputs)
    ensures var f := Finish(merged, meta, inferred, inp);
            var d := Get(f.documento, "data_documento");
            NormalizeDateToken(d).Some? ==>
              var e := NormalizeDateToken(d).value + " - " + DOC_DATE_NOTE;
              e in f.List(DateRilevanti) && CanonicalEntry(e)
  {
    var c := Classified(Rewritten(merged, inp.useOcr), meta, inferred, inp);
    StampedKeeps(c, inp.now);
    var d := Get(c.documento, "data_documento");
    if NormalizeDateToken(d).Some? {
      AddDocumentDateIs(c.List(DateRilevanti), d);
    }
  }

  /**
   * The final notes: the fused ones, with the OCR note put first when OCR was
   * used, followed by the missing-model warning when the fallback is asked
   * for and no vision model is configured.
   */
  lemma FinishNotes(merged: Record, meta: Meta, inferred: Option<string>, inp: Inputs)
    ensures var a := Inferred(Rewritten(merged, inp.useOcr), meta, inferred);
            var notes := Finish(merged, meta, inferred, inp).List(NoteRilevanti);
            var base := if inp.useOcr then AddOcrNote(merged.List(NoteRilevanti)) else merged.List(NoteRilevanti);
            notes == base + (if WarningDue(a, inp) then [VISION_MISSING_NOTE] else [])
  {
    var r := Rewritten(merged, inp.useOcr);
    var c := Classified(r, meta, inferred, inp);
    RewrittenNotes(merged, inp.useOcr);
    ClassifiedNotes(r, meta, inferred, inp);
    StampedKeeps(c, inp.now);
  }

  /** With OCR the OCR note is among the final notes. */
  lemma FinishOcrNote(merged: Record, meta: Meta, inferred: Option<string>, inp: Inputs)
    requires inp.useOcr
    ensures OCR_NOTE in Finish(merged, meta, inferred, inp).List(NoteRilevanti)
  {
    FinishNotes(merged, meta, inferred, inp);
  }

  /** The final record carries the analysis timestamp and keeps the name and path. */
  lemma FinishIdentity(merged: Record, meta: Meta, inferred: Option<string>, inp: Inputs)
    ensures var f := Finish(merged, meta, inferred, inp);
            f.timestamp == inp.now && f.file == merged.file && f.path == merged.path
  {
    var r := Rewritten(merged, inp.useOcr);
    RewrittenNotes(merged, inp.useOcr);
    ClassifiedIdentity(r, meta, inferred, inp);
    StampedKeeps(Classified(r, meta, inferred, inp), inp.now);
  }

  // ---------------------------------------------------------------------
  // The vision-fallback decision
  // ---------------------------------------------------------------------

  /** The outcome is no record exactly when the vision branch is entered, and the finished record otherwise. */
  lemma ConcludedIs(merged: Record, meta: Meta, inferred: Option<string>, inp: Inputs)
    ensures Concluded(Inferred(Rewritten(merged, inp.useOcr), meta, inferred), inp) ==
              if EntersVision(merged, meta, inferred, inp) then None else Some(Finish(merged, meta, inferred, inp))
  {
  }

  /** Without the fallback, or without a vision model, the analysis always yields a record. */
  lemma OutcomeWithoutVision(merged: Record, inp: Inputs)
    requires !inp.visionFallback || !inp.visionModel
    ensures Outcome(merged, inp) == Some(Finish(merged, MetaOf(inp), InferSpecialty(inp.text), inp))
  {
    ConcludedIs(merged, MetaOf(inp), InferSpecialty(inp.text), inp);
  }

  /**
   * A fused record that names the patient's fiscal code and a specialty other
   * than "altro" never enters the vision branch, whatever the heuristics find:
   * the enrichment and the inference keep both.
   */
  lemma KnownRecordCompletes(merged: Record, meta: Meta, inferred: Option<string>, inp: Inputs)
    requires Get(merged.paziente, "codice_fiscale") != ""
    requires !UnknownSpecialty(Get(merged.documento, "specialita"))
    ensures !EntersVision(merged, meta, inferred, inp)
  {
    var r := Rewritten(merged, inp.useOcr);
    RewrittenNotes(merged, inp.useOcr);
    InferredKeepsPatient(r, meta, inferred, "codice_fiscale");
    var e := Enrich(r, meta);
    EnrichFillsOnlyBlanks(r, meta, "specialita");
    assert Get(e.documento, "specialita") == Get(r.documento, "specialita");
    assert ApplyInferred(e, inferred) == e;
  }

  /**
   * With the fallback enabled and a vision model configured, a fused record
   * without fiscal code and name, for which the heuristics find neither,
   * enters the vision branch, and the analysis gives no record.
   */
  lemma UnknownPatientFails(merged: Record, meta: Meta, inferred: Option<string>, inp: Inputs)
    requires inp.visionFallback && inp.visionModel
    requires Get(merged.paziente, "codice_fiscale") == "" && Get(merged.paziente, "nome") == ""
    requires meta.codiceFiscale.GetOr("") == "" && meta.nome.GetOr("") == ""
    ensures EntersVision(merged, meta, inferred, inp)
  {
    var r := Rewritten(merged, inp.useOcr);
    RewrittenNotes(merged, inp.useOcr);
    var e := Enrich(r, meta);
    EnrichFillsOnlyBlanks(r, meta, "codice_fiscale");
    EnrichFillsOnlyBlanks(r, meta, "nome");
    ApplyInferredFrame(e, inferred);
  }

  // ---------------------------------------------------------------------
  // The tail as the code performs it
  // ---------------------------------------------------------------------

  /**
   * The steps of `analyze_pdfs` after the specialty inference, on the record
   * `a` it left: the vision-fallback decision, the final normalisation, the
   * timestamp and the document date.
   */
  method Conclude(a: Record, inp: Inputs) returns (out: Option<Record>)
    ensures out == Concluded(a, inp)
  {
    var merged := a;
    var specialtyUnknown := SpecialtyUnknown(merged);
    var patientUnknown := PatientUnknown(merged);
    if inp.visionFallback && inp.visionModel && (specialtyUnknown || patientUnknown) {
      return None;
    } else if inp.visionFallback && !inp.visionModel && (specialtyUnknown || patientUnknown) {
      merged := WithList(merged, NoteRilevanti, merged.List(NoteRilevanti) + [VISION_MISSING_NOTE]);
    }
    ghost var due := WarningDue(a, inp);
    assert merged == Warned(a, due);
    merged := NormalizeSpecialtyField(merged);
    ghost var normalized := merged;
    merged := merged.(timestamp := inp.now);
    var docDate := Get(merged.documento, "data_documento");
    merged := WithList(merged, DateRilevanti, AddDocumentDate(merged.List(DateRilevanti), docDate));
    assert merged == Stamped(normalized, inp.now);
    out := Some(merged);
  }

  /**
   * The steps of `analyze_pdfs` after the chunk records are known, one after
   * the other; `None` where the vision branch raises.
   */
  method AnalyzeChunks(name: string, fpath: string, timestamp: string, cs: seq<Chunk>, inp: Inputs, intended: bool)
    returns (out: Option<Record>)
    ensures out == Analyze(name, fpath, timestamp, cs, inp, intended)
  {
    var merged := FuseChunks(name, fpath, timestamp, cs, intended);
    ghost var fused := merged;
    var normDates := RewriteDateList(merged.List(DateRilevanti));
    merged := WithList(merged, DateRilevanti, normDates);
    if inp.useOcr {
      merged := WithList(merged, NoteRilevanti, AddOcrNote(merged.List(NoteRilevanti)));
    }
    assert merged == Rewritten(fused, inp.useOcr);
    merged := Enrich(merged, MetaOf(inp));
    merged := ApplyInference(merged, inp.text);
    assert merged == Inferred(Rewritten(fused, inp.useOcr), MetaOf(inp), InferSpecialty(inp.text));
    out := Conclude(merged, inp);
  }
}
