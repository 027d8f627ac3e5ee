/**
 * The free-name probing loops. A directory is a finite map from the names it
 * holds to the sizes of those files; a name is probed together with its
 * numbered variants, one after the other, until a variant is free or, where
 * sizes are compared, until one holds a file of the size being copied.
 * `scan_local_folder` of download_pdfs.py is modelled here as well.
 */
module Probing {
  import opened Strings
  import opened Lists
  import opened Duplicates

  /** How the numbered variants of a name are spelt. */
  datatype Style =
    | Spaced       // "base (k)ext", as download_pdfs.py spells them
    | Underscored  // "base_kext", ".pdf" standing in for a missing extension, as main.py spells them

  /** The `k`-th name probed for `name`; the 0-th is `name` itself. */
  function Candidate(st: Style, name: string, k: nat): string {
    if k == 0 then name
    else
      var (base, ext) := SplitExt(name);
      match st
      case Spaced => base + " (" + NatToDec(k) + ")" + ext
      case Underscored => base + "_" + NatToDec(k) + (if ext == "" then ".pdf" else ext)
  }

  lemma MiddleEqual(p: string, x: string, y: string, q: string)
    requires p + x + q == p + y + q
    ensures x == y
  {
    assert x == (p + x + q)[|p|..|p| + |x|];
    assert y == (p + y + q)[|p|..|p| + |y|];
  }

  /** Different numbers give different variants. */
  lemma CandidateInjective(st: Style, name: string, i: nat, j: nat)
    requires 1 <= i && 1 <= j && Candidate(st, name, i) == Candidate(st, name, j)
    ensures i == j
  {
    var (base, ext) := SplitExt(name);
    var pre := base + (if st.Spaced? then " (" else "_");
    var post := if st.Spaced? then ")" + ext else if ext == "" then ".pdf" else ext;
    assert Candidate(st, name, i) == pre + NatToDec(i) + post;
    assert Candidate(st, name, j) == pre + NatToDec(j) + post;
    MiddleEqual(pre, NatToDec(i), NatToDec(j), post);
    NatToDecInjective(i, j);
  }

  /** The variants numbered 1 to `k`: `k` distinct names. */
  function Variants(st: Style, name: string, k: nat): (vs: set<string>)
    ensures |vs| == k
    ensures forall j :: 1 <= j <= k ==> Candidate(st, name, j) in vs
    ensures forall v :: v in vs ==> exists j :: 1 <= j <= k && v == Candidate(st, name, j)
  {
    if k == 0 then {}
    else
      var vs := Variants(st, name, k - 1);
      assert Candidate(st, name, k) !in vs by {
        if Candidate(st, name, k) in vs {
          var j :| 1 <= j <= k - 1 && Candidate(st, name, k) == Candidate(st, name, j);
          CandidateInjective(st, name, j, k);
        }
      }
      vs + {Candidate(st, name, k)}
  }

  lemma {:induction false} SubsetCard<T>(a: set<T>, b: set<T>)
    requires a <= b
    ensures |a| <= |b|
    decreases |a|
  {
    if a != {} {
      var x :| x in a;
      SubsetCard(a - {x}, b - {x});
    }
  }

  /** A set holding the variants 1 to `k` has at least `k` names: the pigeonhole bound that stops the probing. */
  lemma VariantsBound(st: Style, name: string, taken: set<string>, k: nat)
    requires forall j :: 1 <= j <= k ==> Candidate(st, name, j) in taken
    ensures k <= |taken|
  {
    SubsetCard(Variants(st, name, k), taken);
  }

  // ---------------------------------------------------------------------
  // Probing for a free name (the upload loops of main.py)
  // ---------------------------------------------------------------------

  /** The first candidate number from `k` on whose name is not in `taken`. */
  function FirstFree(st: Style, name: string, taken: set<string>, k: nat): (r: nat)
    requires forall j :: 1 <= j < k ==> Candidate(st, name, j) in taken
    ensures k <= r <= |taken| + 1
    ensures Candidate(st, name, r) !in taken
    ensures forall j :: k <= j < r ==> Candidate(st, name, j) in taken
    decreases |taken| + 1 - k
  {
    if Candidate(st, name, k) !in taken then
      VariantsBound(st, name, taken, if k == 0 then 0 else k - 1);
      k
    else
      VariantsBound(st, name, taken, k);
      FirstFree(st, name, taken, k + 1)
  }

  /** The name the probing settles on: the first candidate not in `taken`. */
  function FreeNameOf(st: Style, name: string, taken: set<string>): string {
    Candidate(st, name, FirstFree(st, name, taken, 0))
  }

  /** The chosen name is new, and every candidate probed before it exists. */
  lemma FreeNameIsFirstFree(st: Style, name: string, taken: set<string>)
    ensures FreeNameOf(st, name, taken) !in taken
    ensures exists r: nat :: r <= |taken| + 1 && FreeNameOf(st, name, taken) == Candidate(st, name, r) &&
              forall j :: 0 <= j < r ==> Candidate(st, name, j) in taken
  {
    var r := FirstFree(st, name, taken, 0);
    assert FreeNameOf(st, name, taken) == Candidate(st, name, r);
  }

  /** A free name is kept as it is. */
  lemma FreeNameOfFree(st: Style, name: string, taken: set<string>)
    requires name !in taken
    ensures FreeNameOf(st, name, taken) == name
  {
  }

  /** Only one number can be the first free one. */
  lemma FirstFreeUnique(st: Style, name: string, taken: set<string>, r: nat)
    requires Candidate(st, name, r) !in taken
    requires forall j :: 0 <= j < r ==> Candidate(st, name, j) in taken
    ensures FirstFree(st, name, taken, 0) == r
  {
    var f := FirstFree(st, name, taken, 0);
    assert !(f < r);
    assert !(r < f);
  }

  /**
   * `while os.path.exists(dest)`: step the counter and rebuild the name until
   * it is free. The loop stops, and the name is the first free candidate.
   */
  method FreeName(st: Style, name: string, taken: set<string>) returns (dest: string)
    ensures dest == FreeNameOf(st, name, taken)
    ensures dest !in taken
  {
    dest := name;
    var counter := 1;
    while dest in taken
      invariant 1 <= counter
      invariant dest == Candidate(st, name, counter - 1)
      invariant forall j :: 1 <= j < counter ==> Candidate(st, name, j) in taken || j == counter - 1
      invariant forall j :: 1 <= j < counter - 1 ==> Candidate(st, name, j) in taken
      invariant FirstFree(st, name, taken, 0) == FirstFree(st, name, taken, counter - 1)
      decreases |taken| + 1 - counter
    {
      VariantsBound(st, name, taken, counter - 1);
      dest := Candidate(st, name, counter);
      counter := counter + 1;
    }
  }

  // ---------------------------------------------------------------------
  // Probing with a size comparison (scan_local_folder, _copy_downloads_to_patient)
  // ---------------------------------------------------------------------

  /** Probing stops at `n`: it is free, or it holds a file of the size being copied. */
  predicate Settles(dir: map<string, nat>, n: string, size: nat) {
    n !in dir || dir[n] == size
  }

  /** The first candidate number from `k` on at which probing stops. */
  function FirstSettling(st: Style, name: string, dir: map<string, nat>, size: nat, k: nat): (r: nat)
    requires forall j :: 1 <= j < k ==> Candidate(st, name, j) in dir
    ensures k <= r <= |dir.Keys| + 1
    ensures Settles(dir, Candidate(st, name, r), size)
    ensures forall j :: k <= j < r ==> Candidate(st, name, j) in dir && dir[Candidate(st, name, j)] != size
    decreases |dir.Keys| + 1 - k
  {
    if Settles(dir, Candidate(st, name, k), size) then
      VariantsBound(st, name, dir.Keys, if k == 0 then 0 else k - 1);
      k
    else
      VariantsBound(st, name, dir.Keys, k);
      FirstSettling(st, name, dir, size, k + 1)
  }

  /** What probing decides for one file: copy it under a new name, or skip it as a duplicate of an existing one. */
  datatype Outcome = CopyTo(dest: string) | SkipAt(existing: string)

  function ProbeOutcome(st: Style, name: string, dir: map<string, nat>, size: nat): Outcome {
    var n := Candidate(st, name, FirstSettling(st, name, dir, size, 0));
    if n in dir then SkipAt(n) else CopyTo(n)
  }

  /**
   * A copy never overwrites: it goes to the first free candidate, every
   * candidate before it holding a file of another size. A skip points at an
   * existing file of the same size.
   */
  lemma ProbeOutcomeIs(st: Style, name: string, dir: map<string, nat>, size: nat)
    ensures match ProbeOutcome(st, name, dir, size)
            case CopyTo(d) => d !in dir && d == FreeNameOf(st, name, dir.Keys)
            case SkipAt(e) => e in dir && dir[e] == size
  {
    var r := FirstSettling(st, name, dir, size, 0);
    if Candidate(st, name, r) !in dir {
      FirstFreeUnique(st, name, dir.Keys, r);
    }
  }

  /** With no file of that size among the candidates, the outcome is a copy to the first free name. */
  lemma ProbeCopiesWithoutEqualSize(st: Style, name: string, dir: map<string, nat>, size: nat)
    requires forall k: nat :: Candidate(st, name, k) in dir ==> dir[Candidate(st, name, k)] != size
    ensures ProbeOutcome(st, name, dir, size) == CopyTo(FreeNameOf(st, name, dir.Keys))
  {
    ProbeOutcomeIs(st, name, dir, size);
  }

  /** A file whose own name holds a file of its size is skipped at once. */
  lemma ProbeSkipsEqualName(st: Style, name: string, dir: map<string, nat>, size: nat)
    requires name in dir && dir[name] == size
    ensures ProbeOutcome(st, name, dir, size) == SkipAt(name)
  {
  }

  /**
   * The probing loop of `scan_local_folder` and `_copy_downloads_to_patient`:
   * while the candidate exists, stop when its size equals the source's,
   * otherwise step to the next numbered variant.
   */
  method Probe(st: Style, name: string, dir: map<string, nat>, size: nat) returns (out: Outcome)
    ensures out == ProbeOutcome(st, name, dir, size)
  {
    var dest := name;
    var counter := 1;
    while dest in dir
      invariant 1 <= counter
      invariant dest == Candidate(st, name, counter - 1)
      invariant forall j :: 1 <= j < counter - 1 ==> Candidate(st, name, j) in dir
      invariant FirstSettling(st, name, dir, size, 0) == FirstSettling(st, name, dir, size, counter - 1)
      decreases |dir.Keys| + 1 - counter
    {
      if dir[dest] == size {
        return SkipAt(dest);
      }
      VariantsBound(st, name, dir.Keys, counter - 1);
      dest := Candidate(st, name, counter);
      counter := counter + 1;
    }
    out := CopyTo(dest);
  }

  // ---------------------------------------------------------------------
  // scan_local_folder
  // ---------------------------------------------------------------------

  /** A file met by the walk: its name, its size and whether it lies directly in the scanned folder. */
  datatype Source = Source(name: string, size: nat, inTop: bool)

  predicate IsPdfName(fn: string) {
    EndsWith(LowerStr(fn), ".pdf")
  }

  /** The output folder and the two counters after one more file. */
  function ScanStep(st: (map<string, nat>, nat, nat), x: Source): (map<string, nat>, nat, nat) {
    var (dir, main, sub) := st;
    if !IsPdfName(x.name) then st
    else match ProbeOutcome(Spaced, x.name, dir, x.size)
      case SkipAt(_) => st
      case CopyTo(n) => (dir[n := x.size], if x.inTop then main + 1 else main, if x.inTop then sub else sub + 1)
  }

  /** The output folder and the counters `main` and `sub` after the walk met `srcs`. */
  function Scan(dir: map<string, nat>, srcs: seq<Source>): (map<string, nat>, nat, nat)
    decreases |srcs|
  {
    if srcs == [] then (dir, 0, 0) else ScanStep(Scan(dir, srcs[..|srcs| - 1]), srcs[|srcs| - 1])
  }

  /** The body of the walk's loop for one file. */
  method ScanFile(dir0: map<string, nat>, main0: nat, sub0: nat, x: Source)
    returns (dir: map<string, nat>, main: nat, sub: nat)
    ensures (dir, main, sub) == ScanStep((dir0, main0, sub0), x)
  {
    dir, main, sub := dir0, main0, sub0;
    if !IsPdfName(x.name) {
      return;
    }
    var out: Outcome;
    if x.name in dir && dir[x.name] == x.size {
      ProbeSkipsEqualName(Spaced, x.name, dir, x.size);
      out := SkipAt(x.name);
    } else {
      out := Probe(Spaced, x.name, dir, x.size);
    }
    if out.CopyTo? {
      dir := dir[out.dest := x.size];
      if x.inTop {
        main := main + 1;
      } else {
        sub := sub + 1;
      }
    }
  }

  /**
   * `listing` is what `sorted(glob(os.path.join(dir, "*.pdf")))` visits in the
   * folder `dir`, the other files included: each file of the folder once,
   * in name order.
   */
  predicate ListingOf(dir: map<string, nat>, listing: seq<PdfFile>) {
    (forall f :: f in listing ==> f.name in dir && dir[f.name] == f.size) &&
    (forall n :: n in dir ==> PdfFile(n, dir[n]) in listing) &&
    NoDup(KeysOf(listing, (f: PdfFile) => f.name)) &&
    Ordered(listing, (a: PdfFile, b: PdfFile) => NotAfter(a.name, b.name))
  }

  /** The folder once the PDFs not in `kept` are removed; other files stay. */
  function Pruned(dir: map<string, nat>, kept: seq<PdfFile>): map<string, nat> {
    map n | n in dir && (!IsPdf(PdfFile(n, dir[n])) || PdfFile(n, dir[n]) in kept) :: dir[n]
  }

  /**
   * `scan_local_folder` without its I/O: the walk's files are given in walk
   * order, the output folder as a map, and the sorted listing of the output
   * folder after the copies, which the closing `remove_duplicate_pdfs` pass
   * visits. A missing folder returns zero counts and leaves the output folder
   * alone. Otherwise the counts are those of the walk, the folder is the one
   * the walk leaves with its duplicate PDFs removed, and no two PDFs left in
   * it share a normalised name and a size.
   */
  method ScanLocalFolder(folderExists: bool, srcs: seq<Source>, outDir: map<string, nat>, listing: seq<PdfFile>)
    returns (dir: map<string, nat>, main: nat, sub: nat)
    requires folderExists ==> ListingOf(Scan(outDir, srcs).0, listing)
    ensures folderExists ==>
              (main, sub) == (Scan(outDir, srcs).1, Scan(outDir, srcs).2) &&
              dir == Pruned(Scan(outDir, srcs).0, SurvivingPdfs(listing))
    ensures folderExists ==>
              forall a, b :: a in dir && b in dir && a != b && IsPdf(PdfFile(a, dir[a])) && IsPdf(PdfFile(b, dir[b])) ==>
                PdfKey(PdfFile(a, dir[a])) != PdfKey(PdfFile(b, dir[b]))
    ensures !folderExists ==> dir == outDir && main == 0 && sub == 0
  {
    dir, main, sub := outDir, 0, 0;
    if !folderExists {
      return;
    }
    for i := 0 to |srcs|
      invariant (dir, main, sub) == Scan(outDir, srcs[..i])
    {
      assert srcs[..i + 1][..i] == srcs[..i];
      dir, main, sub := ScanFile(dir, main, sub, srcs[i]);
    }
    assert srcs[..|srcs|] == srcs;
    var kept, removed := RemoveDuplicatePdfs(listing);
    ghost var copied := dir;
    dir := Pruned(dir, kept);
    PrunedKeysDistinct(copied, kept);
  }

  /** Files of a list whose keys are all distinct have distinct keys when they differ. */
  lemma DistinctKeys(kept: seq<PdfFile>, x: PdfFile, y: PdfFile)
    requires NoDup(KeysOf(kept, PdfKey))
    requires x in kept && y in kept && x != y
    ensures PdfKey(x) != PdfKey(y)
  {
    var i :| 0 <= i < |kept| && kept[i] == x;
    var j :| 0 <= j < |kept| && kept[j] == y;
    assert KeysOf(kept, PdfKey)[i] == PdfKey(x) && KeysOf(kept, PdfKey)[j] == PdfKey(y);
  }

  /** Pruning to files of distinct keys leaves no two PDFs of the same key. */
  lemma PrunedKeysDistinct(dir: map<string, nat>, kept: seq<PdfFile>)
    requires NoDup(KeysOf(kept, PdfKey))
    ensures var d := Pruned(dir, kept);
            forall a, b :: a in d && b in d && a != b && IsPdf(PdfFile(a, d[a])) && IsPdf(PdfFile(b, d[b])) ==>
              PdfKey(PdfFile(a, d[a])) != PdfKey(PdfFile(b, d[b]))
  {
    var d := Pruned(dir, kept);
    forall a, b | a in d && b in d && a != b && IsPdf(PdfFile(a, d[a])) && IsPdf(PdfFile(b, d[b]))
      ensures PdfKey(PdfFile(a, d[a])) != PdfKey(PdfFile(b, d[b]))
    {
      DistinctKeys(kept, PdfFile(a, d[a]), PdfFile(b, d[b]));
    }
  }

  /** The scan only adds files: every file already in the output folder stays, with its size. */
  lemma {:induction false} ScanKeepsExisting(dir: map<string, nat>, srcs: seq<Source>, n: string)
    requires n in dir
    ensures var out := Scan(dir, srcs).0; n in out && out[n] == dir[n]
    decreases |srcs|
  {
    if srcs != [] {
      var prev := Scan(dir, srcs[..|srcs| - 1]);
      ScanKeepsExisting(dir, srcs[..|srcs| - 1], n);
      ProbeOutcomeIs(Spaced, srcs[|srcs| - 1].name, prev.0, srcs[|srcs| - 1].size);
    }
  }

  /** Each copy adds a new name: the folder grows by exactly the number of files counted. */
  lemma {:induction false} ScanCounts(dir: map<string, nat>, srcs: seq<Source>)
    ensures var (out, main, sub) := Scan(dir, srcs); |out.Keys| == |dir.Keys| + main + sub
    decreases |srcs|
  {
    if srcs != [] {
      var prev := Scan(dir, srcs[..|srcs| - 1]);
      var x := srcs[|srcs| - 1];
      ScanCounts(dir, srcs[..|srcs| - 1]);
      ProbeOutcomeIs(Spaced, x.name, prev.0, x.size);
      if IsPdfName(x.name) && ProbeOutcome(Spaced, x.name, prev.0, x.size).CopyTo? {
        var n := ProbeOutcome(Spaced, x.name, prev.0, x.size).dest;
        assert prev.0[n := x.size].Keys == prev.0.Keys + {n};
      }
    }
  }

  /** After the scan every PDF the walk met has a file of its size under its name or one of its numbered variants. */
  lemma {:induction false} ScanCoversSources(dir: map<string, nat>, srcs: seq<Source>, i: nat)
    requires i < |srcs| && IsPdfName(srcs[i].name)
    ensures var out := Scan(dir, srcs).0;
            exists k: nat :: Candidate(Spaced, srcs[i].name, k) in out && out[Candidate(Spaced, srcs[i].name, k)] == srcs[i].size
    decreases |srcs|
  {
    var front := srcs[..|srcs| - 1];
    var prev := Scan(dir, front);
    var x := srcs[|srcs| - 1];
    if i < |srcs| - 1 {
      assert front[i] == srcs[i];
      ScanCoversSources(dir, front, i);
      var k: nat :| Candidate(Spaced, srcs[i].name, k) in prev.0 && prev.0[Candidate(Spaced, srcs[i].name, k)] == srcs[i].size;
      ProbeOutcomeIs(Spaced, x.name, prev.0, x.size);
      assert Candidate(Spaced, srcs[i].name, k) in Scan(dir, srcs).0;
    } else {
      var r := FirstSettling(Spaced, x.name, prev.0, x.size, 0);
      assert Candidate(Spaced, x.name, r) in Scan(dir, srcs).0;
    }
  }
}
