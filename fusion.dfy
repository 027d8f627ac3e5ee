/**
 * The fusion of the per-chunk partial records of one document into one record
 * (the body of `analyze_pdfs` after the chunk loop), and the rewrite of
 * `date_rilevanti` that follows it.
 */
module Fusion {
  import opened Wrappers
  import opened Strings
  import opened Lists
  import opened Dates
  import opened Records

  // ---------------------------------------------------------------------
  // Partial records
  // ---------------------------------------------------------------------

  /**
   * What one chunk's analysis returned. `categoria` is `None` when the key is
   * absent; a missing `riassunto`, `medico_ente`, `documento` or `paziente`
   * reads as blank; a list field that is missing or not a list is absent from
   * `lists`.
   */
  datatype Chunk = Chunk(
    categoria: Option<string>,
    riassunto: string,
    medicoEnte: string,
    documento: Fields,
    paziente: Fields,
    lists: map<ListField, seq<string>>)
  {
    /** The items of list field `f`, or none. */
    function List(f: ListField): seq<string> {
      if f in lists then lists[f] else []
    }
  }

  // ---------------------------------------------------------------------
  // categoria: max(set(cats), key=cats.count)
  // ---------------------------------------------------------------------

  /** The number of occurrences of `x` in `xs`. */
  function Count(xs: seq<string>, x: string): nat
    decreases |xs|
  {
    if xs == [] then 0 else Count(xs[..|xs| - 1], x) + (if xs[|xs| - 1] == x then 1 else 0)
  }

  lemma {:induction false} CountPositive(xs: seq<string>, i: nat)
    requires i < |xs|
    ensures Count(xs, xs[i]) > 0
    decreases |xs|
  {
    if i < |xs| - 1 {
      CountPositive(xs[..|xs| - 1], i);
    }
  }

  /** `r.get("categoria", "altro")` of every chunk. */
  function Categories(cs: seq<Chunk>): (cats: seq<string>)
    ensures |cats| == |cs|
    ensures forall i :: 0 <= i < |cs| ==> cats[i] == cs[i].categoria.GetOr("altro")
  {
    seq(|cs|, i requires 0 <= i < |cs| => cs[i].categoria.GetOr("altro"))
  }

  /**
   * A most frequent value among the first `n`: the first of them whose count
   * in `xs` is maximal.
   */
  function ModeUpTo(xs: seq<string>, n: nat): (r: string)
    requires 0 < n <= |xs|
    ensures exists j :: 0 <= j < n && xs[j] == r && forall i :: 0 <= i < j ==> Count(xs, xs[i]) < Count(xs, r)
    ensures forall i :: 0 <= i < n ==> Count(xs, xs[i]) <= Count(xs, r)
    decreases n
  {
    if n == 1 then
      assert xs[0] == xs[0];
      xs[0]
    else
      var m := ModeUpTo(xs, n - 1);
      if Count(xs, xs[n - 1]) > Count(xs, m) then xs[n - 1] else m
  }

  /**
   * `max(set(cats), key=cats.count)`. Python visits the set in an order that
   * depends on string hashing, so among equally frequent values any may win;
   * the model fixes the one seen first.
   */
  function Mode(xs: seq<string>): (r: string)
    requires xs != []
    ensures r in xs
    ensures forall x :: x in xs ==> Count(xs, x) <= Count(xs, r)
    ensures forall i :: 0 <= i < |xs| && xs[i] != r && Count(xs, xs[i]) == Count(xs, r) ==>
              exists j :: 0 <= j < i && xs[j] == r
  {
    ModeUpTo(xs, |xs|)
  }

  /** The fused category: the most frequent chunk category, "altro" when that is blank or there is no chunk. */
  function FusedCategory(cs: seq<Chunk>): string {
    var cats := Categories(cs);
    if cats == [] then "altro"
    else
      var best := Mode(cats);
      if best == "" then "altro" else best
  }

  /** The fused category is a chunk category of maximal count, or "altro". */
  lemma FusedCategoryIs(cs: seq<Chunk>)
    ensures var c := FusedCategory(cs);
            var cats := Categories(cs);
            c != "" &&
            (cs == [] ==> c == "altro") &&
            (c != "altro" ==> c in cats && forall x :: x in cats ==> Count(cats, x) <= Count(cats, c))
  {
  }

  // ---------------------------------------------------------------------
  // riassunto: max(summaries, key=len, default="").strip()
  // ---------------------------------------------------------------------

  /** `max(xs[..n], key=len, default="")`: the first of the longest, "" when there is none. */
  function LongestUpTo(xs: seq<string>, n: nat): (r: string)
    requires n <= |xs|
    ensures n == 0 ==> r == ""
    ensures n > 0 ==> exists j :: 0 <= j < n && xs[j] == r && forall i :: 0 <= i < j ==> |xs[i]| < |r|
    ensures forall i :: 0 <= i < n ==> |xs[i]| <= |r|
    decreases n
  {
    if n == 0 then ""
    else if n == 1 then
      assert xs[0] == xs[0];
      xs[0]
    else
      var m := LongestUpTo(xs, n - 1);
      if |xs[n - 1]| > |m| then xs[n - 1] else m
  }

  /** The `riassunto` of every chunk. */
  function Summaries(cs: seq<Chunk>): (s: seq<string>)
    ensures |s| == |cs| && forall i :: 0 <= i < |cs| ==> s[i] == cs[i].riassunto
  {
    seq(|cs|, i requires 0 <= i < |cs| => cs[i].riassunto)
  }

  /** The fused summary: the first longest chunk summary, stripped. */
  function FusedSummary(cs: seq<Chunk>): string {
    Strip(LongestUpTo(Summaries(cs), |cs|))
  }

  // ---------------------------------------------------------------------
  // The list fields: extend_list
  // ---------------------------------------------------------------------

  /** The lists the chunks hold under `f`, in chunk order. */
  function ChunkLists(cs: seq<Chunk>, f: ListField): (r: seq<seq<string>>)
    ensures |r| == |cs| && forall i :: 0 <= i < |cs| ==> r[i] == cs[i].List(f)
  {
    seq(|cs|, i requires 0 <= i < |cs| => cs[i].List(f))
  }

  /** The fused list `f`: the truthy items of all chunks, first occurrences only, in order. */
  function FusedList(cs: seq<Chunk>, f: ListField): seq<string> {
    Dedup(NonEmpty(Flatten(ChunkLists(cs, f))))
  }

  /** What the fused list holds: each truthy chunk item once, in the order first seen. */
  lemma FusedListIs(cs: seq<Chunk>, f: ListField)
    ensures var r := FusedList(cs, f);
            NoDup(r) &&
            forall x :: x in r <==> x != "" && exists i :: 0 <= i < |cs| && x in cs[i].List(f)
  {
    var all := ChunkLists(cs, f);
    NonEmptyMembers(Flatten(all));
    FlattenMembers(all);
  }

  lemma {:induction false} FlattenMembers(xss: seq<seq<string>>)
    ensures forall x :: x in Flatten(xss) <==> exists i :: 0 <= i < |xss| && x in xss[i]
    decreases |xss|
  {
    if xss != [] {
      var init := xss[..|xss| - 1];
      FlattenMembers(init);
      assert forall i :: 0 <= i < |init| ==> init[i] == xss[i];
    }
  }

  // ---------------------------------------------------------------------
  // The nested fields: pick_field
  // ---------------------------------------------------------------------

  /** The first truthy value of `key` among the candidates. */
  function FirstValue(cands: seq<Fields>, key: string): Option<string>
    decreases |cands|
  {
    if cands == [] then None
    else if Get(cands[0], key) != "" then Some(Get(cands[0], key))
    else FirstValue(cands[1..], key)
  }

  /** The value found is the one of the first candidate that has a truthy value. */
  lemma {:induction false} FirstValueIs(cands: seq<Fields>, key: string)
    ensures var r := FirstValue(cands, key);
            (r.Some? ==> r.value != "" && exists i :: 0 <= i < |cands| && Get(cands[i], key) == r.value &&
                                            forall j :: 0 <= j < i ==> Get(cands[j], key) == "") &&
            (r.None? ==> forall i :: 0 <= i < |cands| ==> Get(cands[i], key) == "")
    decreases |cands|
  {
    if cands != [] && Get(cands[0], key) == "" {
      FirstValueIs(cands[1..], key);
      assert forall i :: 1 <= i < |cands| ==> cands[i] == cands[1..][i - 1];
      var r := FirstValue(cands, key);
      if r.Some? {
        var i :| 0 <= i < |cands[1..]| && Get(cands[1..][i], key) == r.value &&
                 forall j :: 0 <= j < i ==> Get(cands[1..][j], key) == "";
        assert Get(cands[i + 1], key) == r.value;
      }
    } else if cands != [] {
      assert Get(cands[0], key) == FirstValue(cands, key).value;
    }
  }

  /**
   * `pick_field(target, candidates, key)`: a target value that is set is kept,
   * otherwise the first truthy candidate value is taken. With `intended`, a
   * `specialita` of "altro" counts as not set (see the findings).
   */
  function PickField(target: Fields, cands: seq<Fields>, key: string, intended: bool): Fields {
    if Get(target, key) != "" && !(intended && Replaceable(true, key, Get(target, key))) then target
    else
      match FirstValue(cands, key)
      case Some(v) => target[key := v]
      case None => target
  }

  /** The `documento` of every chunk. */
  function Documents(cs: seq<Chunk>): (ds: seq<Fields>)
    ensures |ds| == |cs| && forall i :: 0 <= i < |cs| ==> ds[i] == cs[i].documento
  {
    seq(|cs|, i requires 0 <= i < |cs| => cs[i].documento)
  }

  /** The `paziente` of every chunk. */
  function Patients(cs: seq<Chunk>): (ps: seq<Fields>)
    ensures |ps| == |cs| && forall i :: 0 <= i < |cs| ==> ps[i] == cs[i].paziente
  {
    seq(|cs|, i requires 0 <= i < |cs| => cs[i].paziente)
  }

  /** The document fields after picking `tipologia`, `data_documento` and `specialita`. */
  function FusedDocumento(base: Fields, cs: seq<Chunk>, intended: bool): Fields {
    var ds := Documents(cs);
    PickField(PickField(PickField(base, ds, "tipologia", intended), ds, "data_documento", intended), ds, "specialita", intended)
  }

  /** The patient fields after picking `nome`, `codice_fiscale` and `data_nascita`. */
  function FusedPaziente(base: Fields, cs: seq<Chunk>): Fields {
    var ps := Patients(cs);
    PickField(PickField(PickField(base, ps, "nome", false), ps, "codice_fiscale", false), ps, "data_nascita", false)
  }

  /** The `medico_ente` of every chunk. */
  function Medicos(cs: seq<Chunk>): (ms: seq<string>)
    ensures |ms| == |cs| && forall i :: 0 <= i < |cs| ==> ms[i] == cs[i].medicoEnte
  {
    seq(|cs|, i requires 0 <= i < |cs| => cs[i].medicoEnte)
  }

  /** The first truthy string of `xs`. */
  function FirstTruthy(xs: seq<string>): Option<string>
    decreases |xs|
  {
    if xs == [] then None
    else if xs[0] != "" then Some(xs[0])
    else FirstTruthy(xs[1..])
  }

  /** The string found is the first truthy one. */
  lemma {:induction false} FirstTruthyIs(xs: seq<string>)
    ensures var r := FirstTruthy(xs);
            (r.Some? ==> r.value != "" && exists i :: 0 <= i < |xs| && xs[i] == r.value && forall j :: 0 <= j < i ==> xs[j] == "") &&
            (r.None? ==> forall i :: 0 <= i < |xs| ==> xs[i] == "")
    decreases |xs|
  {
    if xs != [] && xs[0] == "" {
      FirstTruthyIs(xs[1..]);
      assert forall i :: 1 <= i < |xs| ==> xs[i] == xs[1..][i - 1];
      var r := FirstTruthy(xs);
      if r.Some? {
        var i :| 0 <= i < |xs[1..]| && xs[1..][i] == r.value && forall j :: 0 <= j < i ==> xs[1..][j] == "";
        assert xs[i + 1] == r.value;
      }
    } else if xs != [] {
      assert xs[0] == FirstTruthy(xs).value;
    }
  }

  // ---------------------------------------------------------------------
  // The fused record
  // ---------------------------------------------------------------------

  /** The fused record, with the pick of `specialita` as written (`intended == false`) or as intended. */
  function FuseWith(name: string, fpath: string, timestamp: string, cs: seq<Chunk>, intended: bool): Record {
    var base := MakeEmptyRecord(name, fpath, timestamp);
    Record(
      name, fpath, timestamp,
      NormalizedDocumento(FusedDocumento(base.documento, cs, intended)),
      FusedPaziente(base.paziente, cs),
      FusedCategory(cs),
      FusedSummary(cs),
      FirstTruthy(Medicos(cs)).GetOr(""),
      FusedLists(cs))
  }

  /** Every list field fused. */
  function FusedLists(cs: seq<Chunk>): map<ListField, seq<string>> {
    map f: ListField | f in LIST_FIELDS :: FusedList(cs, f)
  }

  /** The chunk fusion of `analyze_pdfs` as the code does it. */
  function Fuse(name: string, fpath: string, timestamp: string, cs: seq<Chunk>): Record {
    FuseWith(name, fpath, timestamp, cs, false)
  }

  /** The chunk fusion with a chunk's `specialita` taken over the seeded "altro". */
  function FuseIntended(name: string, fpath: string, timestamp: string, cs: seq<Chunk>): Record {
    FuseWith(name, fpath, timestamp, cs, true)
  }

  /** What `pick_field` does to each key: only `key` may change, and only when it may be replaced. */
  lemma PickFieldGet(target: Fields, cands: seq<Fields>, key: string, intended: bool, k: string)
    ensures Get(PickField(target, cands, key, intended), k) ==
            if k == key && (Get(target, key) == "" || (intended && Replaceable(true, key, Get(target, key))))
            then FirstValue(cands, key).GetOr(Get(target, key))
            else Get(target, k)
  {
  }

  /** Every list field of the fused record is the de-duplication of the chunks' truthy items. */
  lemma FuseLists(name: string, fpath: string, timestamp: string, cs: seq<Chunk>, intended: bool, f: ListField)
    ensures FuseWith(name, fpath, timestamp, cs, intended).List(f) == FusedList(cs, f)
  {
    ListFieldsComplete();
  }

  /** A patient field is the first truthy chunk value, blank when there is none. */
  lemma FusePatient(name: string, fpath: string, timestamp: string, cs: seq<Chunk>, intended: bool, key: string)
    requires key == "nome" || key == "codice_fiscale" || key == "data_nascita"
    ensures Get(FuseWith(name, fpath, timestamp, cs, intended).paziente, key) == FirstValue(Patients(cs), key).GetOr("")
  {
    var base := MakeEmptyRecord(name, fpath, timestamp).paziente;
    var ps := Patients(cs);
    var p1 := PickField(base, ps, "nome", false);
    var p2 := PickField(p1, ps, "codice_fiscale", false);
    PickFieldGet(base, ps, "nome", false, key);
    PickFieldGet(p1, ps, "codice_fiscale", false, key);
    PickFieldGet(p2, ps, "data_nascita", false, key);
  }

  /** `tipologia` and `data_documento` are the first truthy chunk values, blank when there is none. */
  lemma FuseDocument(name: string, fpath: string, timestamp: string, cs: seq<Chunk>, intended: bool, key: string)
    requires key == "tipologia" || key == "data_documento"
    ensures Get(FuseWith(name, fpath, timestamp, cs, intended).documento, key) == FirstValue(Documents(cs), key).GetOr("")
  {
    var base := MakeEmptyRecord(name, fpath, timestamp).documento;
    var ds := Documents(cs);
    var d1 := PickField(base, ds, "tipologia", intended);
    var d2 := PickField(d1, ds, "data_documento", intended);
    var d3 := PickField(d2, ds, "specialita", intended);
    assert key != "specialita";
    PickFieldGet(base, ds, "tipologia", intended, key);
    PickFieldGet(d1, ds, "data_documento", intended, key);
    PickFieldGet(d2, ds, "specialita", intended, key);
    NormalizedDocumentoKeeps(d3, key);
  }

  /** Chunk `j` has a longest summary, and every earlier chunk a strictly shorter one. */
  predicate FirstLongestSummary(cs: seq<Chunk>, j: int) {
    0 <= j < |cs| &&
    (forall i :: 0 <= i < |cs| ==> |cs[i].riassunto| <= |cs[j].riassunto|) &&
    forall i :: 0 <= i < j ==> |cs[i].riassunto| < |cs[j].riassunto|
  }

  /** The summary is the first of the longest chunk summaries, stripped, and blank without chunks. */
  lemma FuseSummary(name: string, fpath: string, timestamp: string, cs: seq<Chunk>, intended: bool)
    ensures var r := FuseWith(name, fpath, timestamp, cs, intended);
            (cs == [] ==> r.riassunto == "") &&
            (cs != [] ==> exists j :: FirstLongestSummary(cs, j) && r.riassunto == Strip(cs[j].riassunto))
  {
    assert FuseWith(name, fpath, timestamp, cs, intended).riassunto == FusedSummary(cs);
    FusedSummaryIs(cs);
  }

  lemma FusedSummaryIs(cs: seq<Chunk>)
    ensures cs == [] ==> FusedSummary(cs) == ""
    ensures cs != [] ==> exists j :: FirstLongestSummary(cs, j) && FusedSummary(cs) == Strip(cs[j].riassunto)
  {
    var ss := Summaries(cs);
    var l := LongestUpTo(ss, |cs|);
    if cs == [] {
      StripCharsNoop(l, WHITESPACE);
    } else {
      var j :| 0 <= j < |cs| && ss[j] == l && forall i :: 0 <= i < j ==> |ss[i]| < |l|;
      assert l == cs[j].riassunto;
      assert FirstLongestSummary(cs, j);
    }
  }

  /** `medico_ente` is the first truthy chunk value, blank when there is none. */
  lemma FuseMedico(name: string, fpath: string, timestamp: string, cs: seq<Chunk>, intended: bool)
    ensures var r := FuseWith(name, fpath, timestamp, cs, intended);
            (r.medicoEnte != "" ==> exists j :: 0 <= j < |cs| && r.medicoEnte == cs[j].medicoEnte &&
                                                forall i :: 0 <= i < j ==> cs[i].medicoEnte == "") &&
            (r.medicoEnte == "" ==> forall i :: 0 <= i < |cs| ==> cs[i].medicoEnte == "")
  {
    FirstTruthyIs(Medicos(cs));
  }

  /** The specialty the pick leaves, before it is normalised. */
  lemma PickedSpecialty(name: string, fpath: string, timestamp: string, cs: seq<Chunk>, intended: bool)
    ensures Get(FusedDocumento(MakeEmptyRecord(name, fpath, timestamp).documento, cs, intended), "specialita") ==
            if intended then FirstValue(Documents(cs), "specialita").GetOr("altro") else "altro"
  {
    var base := MakeEmptyRecord(name, fpath, timestamp).documento;
    var ds := Documents(cs);
    var d1 := PickField(base, ds, "tipologia", intended);
    var d2 := PickField(d1, ds, "data_documento", intended);
    PickFieldGet(base, ds, "tipologia", intended, "specialita");
    PickFieldGet(d1, ds, "data_documento", intended, "specialita");
    PickFieldGet(d2, ds, "specialita", intended, "specialita");
    assert LowerStr("altro") == "altro";
  }

  /**
   * As written, the fused `specialita` is always "altro": the empty record
   * seeds it with "altro", which `pick_field` sees as already set.
   */
  lemma FuseSpecialtyAltro(name: string, fpath: string, timestamp: string, cs: seq<Chunk>)
    ensures Get(Fuse(name, fpath, timestamp, cs).documento, "specialita") == "altro"
  {
    PickedSpecialty(name, fpath, timestamp, cs, false);
    CanonicalAltro();
  }

  /**
   * As intended, the fused `specialita` is the canonical form of the first
   * truthy chunk specialty, "altro" when there is none.
   */
  lemma FuseIntendedSpecialty(name: string, fpath: string, timestamp: string, cs: seq<Chunk>)
    ensures Get(FuseIntended(name, fpath, timestamp, cs).documento, "specialita") ==
            CanonicalSpecialty(FirstValue(Documents(cs), "specialita").GetOr("altro"))
  {
    PickedSpecialty(name, fpath, timestamp, cs, true);
  }

  /** The counterexample: one chunk that names its specialty, which the fusion drops. */
  lemma FuseDropsChunkSpecialty()
    ensures var c := Chunk(None, "", "", map["specialita" := "cardiologia"], map[], map[]);
            Get(FuseIntended("a.pdf", "a.pdf", "", [c]).documento, "specialita") != "altro" &&
            Get(Fuse("a.pdf", "a.pdf", "", [c]).documento, "specialita") == "altro"
  {
    var c := Chunk(None, "", "", map["specialita" := "cardiologia"], map[], map[]);
    FuseSpecialtyAltro("a.pdf", "a.pdf", "", [c]);
    FuseIntendedSpecialty("a.pdf", "a.pdf", "", [c]);
    assert Documents([c])[0] == c.documento;
    assert FirstValue(Documents([c]), "specialita") == Some("cardiologia");
    CardiologiaCanonical();
  }

  lemma CardiologiaCanonical()
    ensures CanonicalSpecialty("cardiologia") != "altro"
  {
    CardiologiaPlain();
    CanonicalSpecialtyIs("cardiologia");
  }

  lemma CardiologiaPlain()
    ensures |LowerStr(Strip("cardiologia"))| == 11
  {
    StripCharsNoop("cardiologia", WHITESPACE);
  }

  // ---------------------------------------------------------------------
  // The fusion as the code performs it
  // ---------------------------------------------------------------------

  /** `extend_list(key)`: every chunk's list appended to the initially empty one. */
  method ExtendFromChunks(cs: seq<Chunk>, f: ListField) returns (out: seq<string>)
    ensures out == FusedList(cs, f)
  {
    out := [];
    for i := 0 to |cs|
      invariant out == FusedList(cs[..i], f)
    {
      FusedListSnoc(cs, i, f);
      out := ExtendList(out, cs[i].List(f));
    }
    assert cs[..|cs|] == cs;
  }

  /** One more chunk extends the fused list by that chunk's list. */
  lemma FusedListSnoc(cs: seq<Chunk>, i: nat, f: ListField)
    requires i < |cs|
    ensures FusedList(cs[..i + 1], f) == Extend(FusedList(cs[..i], f), cs[i].List(f))
  {
    var values := cs[i].List(f);
    var before := Flatten(ChunkLists(cs[..i], f));
    assert ChunkLists(cs[..i + 1], f) == ChunkLists(cs[..i], f) + [values];
    assert Flatten(ChunkLists(cs[..i + 1], f)) == before + values;
    ExtendDedup(before, values);
  }

  /** `pick_field(target, candidates, key)` as the loop with `break`; with `intended`, as corrected. */
  method PickFieldLoop(target: Fields, cands: seq<Fields>, key: string, intended: bool) returns (out: Fields)
    ensures out == PickField(target, cands, key, intended)
  {
    out := target;
    var current := Get(target, key);
    if current != "" && !(intended && Replaceable(true, key, current)) {
      return;
    }
    var i := 0;
    while i < |cands|
      invariant 0 <= i <= |cands|
      invariant FirstValue(cands, key) == FirstValue(cands[i..], key)
    {
      var value := Get(cands[i], key);
      if value != "" {
        out := target[key := value];
        return;
      }
      assert cands[i..][1..] == cands[i + 1..];
      i := i + 1;
    }
  }

  /** The `medico_ente` loop: the first truthy value, blank when there is none. */
  method FirstMedico(cs: seq<Chunk>) returns (me: string)
    ensures me == FirstTruthy(Medicos(cs)).GetOr("")
  {
    me := "";
    var i := 0;
    while i < |cs|
      invariant 0 <= i <= |cs|
      invariant FirstTruthy(Medicos(cs)) == FirstTruthy(Medicos(cs)[i..])
    {
      if cs[i].medicoEnte != "" {
        assert Medicos(cs)[i..][0] == cs[i].medicoEnte;
        me := cs[i].medicoEnte;
        return;
      }
      assert Medicos(cs)[i..][1..] == Medicos(cs)[i + 1..];
      i := i + 1;
    }
  }

  /** The list fields, one `extend_list` call per field. */
  method FuseListFields(cs: seq<Chunk>) returns (lists: map<ListField, seq<string>>)
    ensures lists == FusedLists(cs)
  {
    lists := map[];
    for i := 0 to |LIST_FIELDS|
      invariant lists == FusedListsOf(cs, LIST_FIELDS[..i])
    {
      var f := LIST_FIELDS[i];
      var l := ExtendFromChunks(cs, f);
      assert LIST_FIELDS[..i + 1] == LIST_FIELDS[..i] + [f];
      FusedListsOfSnoc(cs, LIST_FIELDS[..i], f);
      lists := lists[f := l];
    }
    assert LIST_FIELDS[..|LIST_FIELDS|] == LIST_FIELDS;
  }

  /** The fused lists of the fields `fs` only. */
  function FusedListsOf(cs: seq<Chunk>, fs: seq<ListField>): map<ListField, seq<string>> {
    map f: ListField | f in fs :: FusedList(cs, f)
  }

  lemma FusedListsOfSnoc(cs: seq<Chunk>, fs: seq<ListField>, f: ListField)
    ensures FusedListsOf(cs, fs + [f]) == FusedListsOf(cs, fs)[f := FusedList(cs, f)]
  {
    var l, r := FusedListsOf(cs, fs + [f]), FusedListsOf(cs, fs)[f := FusedList(cs, f)];
    assert l.Keys == r.Keys;
    forall g | g in l.Keys
      ensures l[g] == r[g]
    {
    }
  }

  /**
   * The fusion of the chunk records into `make_empty_record(name, fpath)`:
   * as written with `intended == false`, with the corrected pick of
   * `specialita` otherwise.
   */
  method FuseChunks(name: string, fpath: string, timestamp: string, cs: seq<Chunk>, intended: bool) returns (merged: Record)
    ensures merged == FuseWith(name, fpath, timestamp, cs, intended)
  {
    var base := MakeEmptyRecord(name, fpath, timestamp);
    var lists := FuseListFields(cs);
    var ds := Documents(cs);
    var doc := PickFieldLoop(base.documento, ds, "tipologia", intended);
    doc := PickFieldLoop(doc, ds, "data_documento", intended);
    doc := PickFieldLoop(doc, ds, "specialita", intended);
    var ps := Patients(cs);
    var paz := PickFieldLoop(base.paziente, ps, "nome", false);
    paz := PickFieldLoop(paz, ps, "codice_fiscale", false);
    paz := PickFieldLoop(paz, ps, "data_nascita", false);
    var me := FirstMedico(cs);
    doc := NormalizedDocumento(doc);
    merged := Record(name, fpath, timestamp, doc, paz, FusedCategory(cs), FusedSummary(cs), me, lists);
  }

  // ---------------------------------------------------------------------
  // The date_rilevanti rewrite
  // ---------------------------------------------------------------------

  /** The characters `remainder.strip(" -:;,.")` removes. */
  const REMAINDER_STRIP: set<char> := {' ', '-', ':', ';', ',', '.'}

  /** `s.replace(frag, "")`; replacing the empty string by the empty string changes nothing. */
  function RemoveAll(s: string, frag: string): string {
    if frag == "" then s else ReplaceAll(s, frag, "")
  }

  /** The ISO date with its description, "evento" when the description is blank. */
  function Dated(iso: string, desc: string): string {
    iso + " - " + (if desc == "" then "evento" else desc)
  }

  /**
   * One truthy entry rewritten: a date before " - " becomes ISO with the
   * stripped description; otherwise the first date found anywhere becomes ISO
   * with the rest as description; otherwise the entry is only stripped.
   */
  function RewriteEntry(raw: string): string {
    var parts := SplitOnce(raw, " - ");
    match NormalizeDateToken(parts[0])
    case Some(iso) => Dated(iso, if |parts| > 1 then Strip(parts[1]) else "")
    case None =>
      match ExtractIsoDate(raw)
      case Some((iso, fragment)) => Dated(iso, StripChars(RemoveAll(raw, fragment), REMAINDER_STRIP))
      case None => Strip(raw)
  }

  /** Every truthy entry rewritten, in order. */
  function RewriteAll(xs: seq<string>): seq<string> {
    MapTruthy(xs, RewriteEntry)
  }

  /** The new `date_rilevanti`: the rewritten entries, first occurrences only (`dict.fromkeys`). */
  function RewriteDates(xs: seq<string>): (r: seq<string>)
    ensures NoDup(r)
  {
    Dedup(RewriteAll(xs))
  }

  /** The new `date_rilevanti` holds the rewrite of every truthy entry, and nothing else. */
  lemma RewriteDatesMembers(xs: seq<string>, y: string)
    ensures y in RewriteDates(xs) <==> exists i :: 0 <= i < |xs| && xs[i] != "" && y == RewriteEntry(xs[i])
  {
    MapTruthyMembers(xs, RewriteEntry, y);
  }

  /** An entry in the form the rewrite writes: an ISO date, " - " and a description. */
  predicate DatedEntry(e: string) {
    |e| > 13 && IsIsoDate(e[..10]) && e[10..13] == " - "
  }

  /** An entry the rewrite leaves as it is: a dated entry whose description has nothing to strip. */
  predicate CanonicalEntry(e: string) {
    DatedEntry(e) && Strip(e[13..]) == e[13..]
  }

  lemma DatedIsDated(iso: string, desc: string)
    requires IsIsoDate(iso)
    ensures DatedEntry(Dated(iso, desc))
  {
    var e := Dated(iso, desc);
    assert e[..10] == iso;
    assert e[10..13] == " - ";
  }

  /**
   * Every rewritten entry is dated, unless neither the part before " - " nor
   * any search pattern gave a date; then it is the entry stripped.
   */
  lemma RewriteEntryShape(raw: string)
    ensures var r := RewriteEntry(raw);
            DatedEntry(r) ||
            (NormalizeDateToken(SplitOnce(raw, " - ")[0]).None? && ExtractIsoDate(raw).None? && r == Strip(raw))
  {
    var parts := SplitOnce(raw, " - ");
    match NormalizeDateToken(parts[0])
    case Some(iso) =>
      NormalizeIso(iso);
      DatedIsDated(iso, if |parts| > 1 then Strip(parts[1]) else "");
    case None =>
      match ExtractIsoDate(raw)
      case Some((iso, fragment)) =>
        DatedIsDated(iso, StripChars(RemoveAll(raw, fragment), REMAINDER_STRIP));
      case None =>
  }

  lemma IsoNoSpace(iso: string)
    requires IsIsoDate(iso)
    ensures ' ' !in iso
  {
    forall i | 0 <= i < 10 ensures iso[i] != ' ' {
      if i < 4 {
        assert iso[..4][i] == iso[i];
      } else if 4 < i < 7 {
        assert iso[5..7][i - 5] == iso[i];
      } else if 7 < i {
        assert iso[8..][i - 8] == iso[i];
      }
    }
  }

  /** The first occurrence of `sub` after a prefix that does not contain its first character. */
  lemma {:induction false} FindPast(a: string, sub: string, b: string)
    requires sub != [] && sub[0] !in a
    ensures Find(a + sub + b, sub) == |a|
    decreases |a|
  {
    var s := a + sub + b;
    if a == [] {
      assert s[..|sub|] == sub;
    } else {
      assert s[..|sub|][0] == a[0];
      assert s[1..] == a[1..] + sub + b;
      FindPast(a[1..], sub, b);
    }
  }

  /** A canonical entry is rewritten to itself. */
  lemma RewriteCanonical(e: string)
    requires CanonicalEntry(e)
    ensures RewriteEntry(e) == e
  {
    var iso, desc := e[..10], e[13..];
    assert e == iso + " - " + desc;
    IsoNoSpace(iso);
    FindPast(iso, " - ", desc);
    var parts := SplitOnce(e, " - ");
    assert parts == [iso, desc];
    NormalizeIso(iso);
  }

  /** An ISO date, " - " and a description with nothing to strip form a canonical entry. */
  lemma CanonicalDated(iso: string, desc: string)
    requires IsIsoDate(iso) && desc != "" && Strip(desc) == desc
    ensures CanonicalEntry(iso + " - " + desc)
  {
    var e := iso + " - " + desc;
    assert e[..10] == iso && e[10..13] == " - " && e[13..] == desc;
  }

  lemma StripStable(s: string)
    ensures Strip(Strip(s)) == Strip(s)
  {
    StripCharsNoop(Strip(s), WHITESPACE);
  }

  lemma StripLiterals()
    ensures Strip("evento") == "evento" && Strip("data documento") == "data documento"
  {
    StripCharsNoop("evento", WHITESPACE);
    StripCharsNoop("data documento", WHITESPACE);
  }

  /** A rewritten entry whose date came before " - " is canonical: the rewrite is stable on it. */
  lemma RewriteEntryStable(raw: string)
    requires NormalizeDateToken(SplitOnce(raw, " - ")[0]).Some?
    ensures CanonicalEntry(RewriteEntry(raw))
    ensures RewriteEntry(RewriteEntry(raw)) == RewriteEntry(raw)
  {
    var parts := SplitOnce(raw, " - ");
    var iso := NormalizeDateToken(parts[0]).value;
    var desc := if |parts| > 1 then Strip(parts[1]) else "";
    var d := if desc == "" then "evento" else desc;
    assert RewriteEntry(raw) == iso + " - " + d;
    StripLiterals();
    if |parts| > 1 {
      StripStable(parts[1]);
    }
    assert Strip(d) == d;
    NormalizeIso(iso);
    CanonicalDated(iso, d);
    RewriteCanonical(iso + " - " + d);
  }

  /** A list of distinct canonical entries is a fixed point of the rewrite. */
  lemma RewriteDatesFixed(xs: seq<string>)
    requires NoDup(xs) && forall x :: x in xs ==> CanonicalEntry(x)
    ensures RewriteDates(xs) == xs
  {
    forall i | 0 <= i < |xs| ensures xs[i] != "" && RewriteEntry(xs[i]) == xs[i] {
      assert xs[i] in xs;
      RewriteCanonical(xs[i]);
    }
    MapTruthyFixed(xs, RewriteEntry);
    DedupOfNoDup(xs);
  }

  /** The rewrite loop: blank entries skipped, the others rewritten, then de-duplicated. */
  method RewriteDateList(xs: seq<string>) returns (out: seq<string>)
    ensures out == RewriteDates(xs)
  {
    var normDates := [];
    for i := 0 to |xs|
      invariant normDates == MapTruthy(xs[..i], RewriteEntry)
    {
      assert xs[..i + 1][..i] == xs[..i];
      var rawDate := xs[i];
      if rawDate == "" {
        continue;
      }
      normDates := normDates + [RewriteEntry(rawDate)];
    }
    assert xs[..|xs|] == xs;
    out := Dedup(normDates);
  }

  // ---------------------------------------------------------------------
  // The notes and the document date added after the fusion
  // ---------------------------------------------------------------------

  const OCR_NOTE: string := "Testo estratto dal PDF tramite OCR abilitato."

  /** The OCR note put first into the notes, unless it is there already. */
  function AddOcrNote(notes: seq<string>): (r: seq<string>)
    ensures OCR_NOTE in r && forall x :: x in notes ==> x in r
    ensures OCR_NOTE in notes ==> r == notes
    ensures OCR_NOTE !in notes ==> r == [OCR_NOTE] + notes
  {
    if OCR_NOTE in notes then notes else [OCR_NOTE] + notes
  }

  /** The description of the entry added for the document date. */
  const DOC_DATE_NOTE: string := "data documento"

  /**
   * The document date, once normalised, put first into `date_rilevanti` as
   * "<iso> - data documento", unless that entry is there already.
   */
  function AddDocumentDate(dates: seq<string>, docDate: string): (r: seq<string>)
    ensures forall x :: x in dates ==> x in r
    ensures NoDup(dates) ==> NoDup(r)
  {
    if docDate == "" then dates
    else
      match NormalizeDateToken(docDate)
      case None => dates
      case Some(iso) =>
        var entry := iso + " - " + DOC_DATE_NOTE;
        if entry in dates then dates else [entry] + dates
  }

  /** A document date that normalises ends up in the list, as a canonical entry. */
  lemma AddDocumentDateIs(dates: seq<string>, docDate: string)
    requires NormalizeDateToken(docDate).Some?
    ensures var e := NormalizeDateToken(docDate).value + " - " + DOC_DATE_NOTE;
            e in AddDocumentDate(dates, docDate) && CanonicalEntry(e)
  {
    var iso := NormalizeDateToken(docDate).value;
    NormalizeIso(iso);
    StripLiterals();
    CanonicalDated(iso, DOC_DATE_NOTE);
  }
}
