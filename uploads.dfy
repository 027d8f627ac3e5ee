/**
 * The file handling of the backend (backend/main.py): `sanitize_filename`,
 * the two upload routes that pick a free name in a folder, the copy of
 * downloaded PDFs into a patient's folder, and the arcnames of the zip
 * bundle of a patient's documents. Folders are maps from names to sizes.
 */
module Uploads {
  import opened Wrappers
  import opened Strings
  import opened Lists
  import opened Probing

  // ---------------------------------------------------------------------
  // sanitize_filename
  // ---------------------------------------------------------------------

  const SAFE_PUNCT: set<char> := {'.', '_', '-'}

  /** A character `sanitize_filename` keeps. */
  predicate IsSafe(c: char) {
    IsAlnum(c) || c in SAFE_PUNCT
  }

  function SafeChar(c: char): (d: char)
    ensures IsSafe(d) && (IsSafe(c) ==> d == c) && (!IsSafe(c) ==> d == '-')
  {
    if IsSafe(c) then c else '-'
  }

  /** Every character kept or turned into '-'. */
  function SafeChars(s: string): (r: string)
    ensures |r| == |s| && forall i :: 0 <= i < |s| ==> r[i] == SafeChar(s[i])
    decreases |s|
  {
    if s == [] then [] else SafeChars(s[..|s| - 1]) + [SafeChar(s[|s| - 1])]
  }

  /** The name after the default and the strip, with ".pdf" added unless it already ends so, in any case. */
  function WithPdf(name: string): string {
    var n := Strip(if name == "" then "document.pdf" else name);
    if EndsWith(LowerStr(n), ".pdf") then n else n + ".pdf"
  }

  /** The end of `sanitize_filename` for the name `w` built so far: the replacement, the strip and the fallback. */
  function SanitizedOf(w: string): string {
    var s := StripChars(SafeChars(w), SAFE_PUNCT);
    if s == "" then "document.pdf" else s
  }

  /** What `sanitize_filename` returns. */
  function Sanitized(name: string): string {
    SanitizedOf(WithPdf(name))
  }

  lemma SafeCharsSnoc(s: string, c: char)
    ensures SafeChars(s + [c]) == SafeChars(s) + [SafeChar(c)]
  {
    assert (s + [c])[..|s|] == s;
  }

  /** The loop of `sanitize_filename` that builds `safe_chars`. */
  method ReplaceUnsafe(n: string) returns (safeChars: string)
    ensures safeChars == SafeChars(n)
  {
    safeChars := [];
    for i := 0 to |n|
      invariant safeChars == SafeChars(n[..i])
    {
      assert n[..i + 1] == n[..i] + [n[i]];
      SafeCharsSnoc(n[..i], n[i]);
      if IsAlnum(n[i]) || n[i] in SAFE_PUNCT {
        safeChars := safeChars + [n[i]];
      } else {
        safeChars := safeChars + ['-'];
      }
    }
    assert n[..|n|] == n;
  }

  /** `sanitize_filename`: the default, the strip, the ".pdf", the loop, then the strip and the fallback. */
  method SanitizeFilename(name: string) returns (r: string)
    ensures r == Sanitized(name)
  {
    var n := Strip(if name == "" then "document.pdf" else name);
    if !EndsWith(LowerStr(n), ".pdf") {
      n := n + ".pdf";
    }
    assert n == WithPdf(name);
    var safeChars := ReplaceUnsafe(n);
    r := StripChars(safeChars, SAFE_PUNCT);
    if r == "" {
      r := "document.pdf";
    }
  }

  lemma WithPdfEnds(name: string)
    ensures EndsWith(LowerStr(WithPdf(name)), ".pdf")
  {
    var n := Strip(if name == "" then "document.pdf" else name);
    if !EndsWith(LowerStr(n), ".pdf") {
      LowerAppend(n, ".pdf");
      LowerOfLower(".pdf");
      assert LowerStr(n + ".pdf")[|n|..] == ".pdf";
    }
  }

  /** A file name `sanitize_filename` can return: not empty, safe characters only, an alphanumeric at each end. */
  predicate Clean(r: string) {
    r != [] && (forall i :: 0 <= i < |r| ==> IsSafe(r[i])) && IsAlnum(r[0]) && IsAlnum(r[|r| - 1])
  }

  lemma DefaultName(d: string)
    requires d == "document.pdf"
    ensures Clean(d) && EndsWith(LowerStr(d), ".pdf")
  {
    assert forall i :: 0 <= i < |d| ==> IsSafe(d[i]) && !IsUpper(d[i]);
    LowerOfLower(d);
    assert d[|d| - 4..] == ".pdf";
  }

  lemma SanitizedShapeOf(w: string)
    ensures Clean(SanitizedOf(w))
  {
    var m := SafeChars(w);
    StrippedClean(m);
    if StripChars(m, SAFE_PUNCT) == "" {
      DefaultName(SanitizedOf(w));
    }
  }

  /** Stripping the punctuation off a name of safe characters leaves nothing or a clean name. */
  lemma StrippedClean(m: string)
    requires forall k :: 0 <= k < |m| ==> IsSafe(m[k])
    ensures var s := StripChars(m, SAFE_PUNCT); s == "" || Clean(s)
  {
    var s := StripChars(m, SAFE_PUNCT);
    StripCharsSlice(m, SAFE_PUNCT);
    var i, j :| 0 <= i <= j <= |m| && s == m[i..j];
    forall k | 0 <= k < |s|
      ensures IsSafe(s[k])
    {
      assert s[k] == m[i + k];
    }
  }

  /** The result is never empty, holds only alphanumerics and ".", "_", "-", and begins and ends with an alphanumeric. */
  lemma SanitizedShape(name: string)
    ensures Clean(Sanitized(name))
  {
    SanitizedShapeOf(WithPdf(name));
  }

  /** Before its last four characters, `w` holds an alphanumeric. */
  predicate StemAlnum(w: string) {
    exists i :: 0 <= i < |w| - 4 && IsAlnum(w[i])
  }

  /** The part of the name before the extension ".pdf" holds an alphanumeric. */
  predicate StemHasAlnum(name: string) {
    StemAlnum(WithPdf(name))
  }

  lemma PdfTail(w: string)
    requires EndsWith(LowerStr(w), ".pdf")
    ensures |w| >= 4
    ensures w[|w| - 4] == '.' && IsAlnum(w[|w| - 3]) && IsAlnum(w[|w| - 2]) && IsAlnum(w[|w| - 1])
  {
    var t := |w| - 4;
    var lw := LowerStr(w);
    assert lw[t..] == ".pdf";
    assert lw[t] == '.' && lw[t + 1] == 'p' && lw[t + 2] == 'd' && lw[t + 3] == 'f';
  }

  /** Safe characters are kept as they are. */
  lemma SafeCharsFrom(w: string, lo: nat)
    requires lo <= |w| && forall k :: lo <= k < |w| ==> IsSafe(w[k])
    ensures SafeChars(w)[lo..] == w[lo..]
  {
  }

  /** An end that is not stripped leaves only the front run to strip. */
  lemma StripPunctFront(m: string)
    requires m != [] && m[|m| - 1] !in SAFE_PUNCT
    ensures LeadEnd(m, SAFE_PUNCT, 0) < |m|
    ensures StripChars(m, SAFE_PUNCT) == m[LeadEnd(m, SAFE_PUNCT, 0)..]
  {
    assert TrailStart(m, SAFE_PUNCT, |m|) == |m|;
  }

  lemma LowerEndsWith(s: string, w: string)
    requires |s| >= 4 && |w| >= 4 && s[|s| - 4..] == w[|w| - 4..]
    requires EndsWith(LowerStr(w), ".pdf")
    ensures EndsWith(LowerStr(s), ".pdf")
  {
    var ls, lw := LowerStr(s), LowerStr(w);
    var a, b := ls[|s| - 4..], lw[|w| - 4..];
    forall k | 0 <= k < 4 ensures a[k] == b[k] {
      assert s[|s| - 4 + k] == w[|w| - 4 + k];
    }
    assert a == b;
  }

  lemma StemKept(w: string, i: nat)
    requires EndsWith(LowerStr(w), ".pdf")
    requires i < |w| - 4 && IsAlnum(w[i])
    ensures EndsWith(LowerStr(SanitizedOf(w)), ".pdf")
  {
    PdfTail(w);
    SafeCharsTail(w);
    var m := SafeChars(w);
    assert m[i] == w[i];
    StrippedKeepsTail(m, w, i);
  }

  /** A '.' and three alphanumerics at the end survive the replacement of unsafe characters. */
  lemma SafeCharsTail(w: string)
    requires |w| >= 4 && w[|w| - 4] == '.' && IsAlnum(w[|w| - 3]) && IsAlnum(w[|w| - 2]) && IsAlnum(w[|w| - 1])
    ensures SafeChars(w)[|w| - 4..] == w[|w| - 4..]
  {
    var t := |w| - 4;
    forall k | t <= k < |w|
      ensures IsSafe(w[k])
    {
      assert k == t || k == t + 1 || k == t + 2 || k == t + 3;
    }
    SafeCharsFrom(w, t);
  }

  /** Stripping a name with an alphanumeric before its ".pdf" tail keeps the tail. */
  lemma StrippedKeepsTail(m: string, w: string, i: nat)
    requires EndsWith(LowerStr(w), ".pdf")
    requires |m| == |w| >= 4 && m[|m| - 4..] == w[|w| - 4..]
    requires i < |m| - 4 && IsAlnum(m[i]) && IsAlnum(m[|m| - 1])
    ensures var s := StripChars(m, SAFE_PUNCT); s != "" && EndsWith(LowerStr(s), ".pdf")
  {
    StripPunctFront(m);
    var l := LeadEnd(m, SAFE_PUNCT, 0);
    assert l <= i;
    var s := m[l..];
    assert s[|s| - 4..] == m[|m| - 4..];
    LowerEndsWith(s, w);
  }

  lemma StemStripped(w: string)
    requires EndsWith(LowerStr(w), ".pdf")
    requires !StemAlnum(w)
    ensures |SanitizedOf(w)| == 3
  {
    PdfTail(w);
    var t := |w| - 4;
    var m := SafeChars(w);
    SafeCharsFrom(w, t);
    forall k | 0 <= k < t ensures m[k] in SAFE_PUNCT {
      assert !IsAlnum(w[k]);
    }
    assert m[t] == '.' && IsAlnum(m[t + 1]);
    StrippedToExtension(m);
  }

  /** A name of punctuation, one '.' and then an alphanumeric tail strips down to that tail. */
  lemma StrippedToExtension(m: string)
    requires |m| >= 4
    requires forall k :: 0 <= k <= |m| - 4 ==> m[k] in SAFE_PUNCT
    requires IsAlnum(m[|m| - 3]) && IsAlnum(m[|m| - 1])
    ensures |StripChars(m, SAFE_PUNCT)| == 3
  {
    StripPunctFront(m);
    assert LeadEnd(m, SAFE_PUNCT, 0) == |m| - 3;
  }

  lemma SanitizedPdfSuffixOf(w: string)
    requires EndsWith(LowerStr(w), ".pdf")
    ensures EndsWith(LowerStr(SanitizedOf(w)), ".pdf") <==> StemAlnum(w)
  {
    if StemAlnum(w) {
      var i :| 0 <= i < |w| - 4 && IsAlnum(w[i]);
      StemKept(w, i);
    } else {
      StemStripped(w);
    }
  }

  /**
   * The result ends in ".pdf", in any case, exactly when the stem holds an
   * alphanumeric; otherwise the stem and the dot are stripped away, as in
   * ".pdf" giving "pdf".
   */
  lemma SanitizedPdfSuffix(name: string)
    ensures EndsWith(LowerStr(Sanitized(name)), ".pdf") <==> StemHasAlnum(name)
  {
    WithPdfEnds(name);
    SanitizedPdfSuffixOf(WithPdf(name));
  }

  lemma WithPdfOfClean(n: string)
    requires Clean(n) && EndsWith(LowerStr(n), ".pdf")
    ensures WithPdf(n) == n
  {
    StripCharsNoop(n, WHITESPACE);
  }

  /** A clean name ending in ".pdf", in any case, is a fixed point of `sanitize_filename`. */
  lemma SanitizedOfClean(n: string)
    requires Clean(n) && EndsWith(LowerStr(n), ".pdf")
    ensures Sanitized(n) == n
  {
    assert n[0] !in SAFE_PUNCT && n[|n| - 1] !in SAFE_PUNCT;
    StripCharsNoop(n, SAFE_PUNCT);
    WithPdfOfClean(n);
    SafeCharsFrom(n, 0);
  }

  /** Sanitising twice is sanitising once, as long as the first result ends in ".pdf". */
  lemma SanitizeIdempotent(name: string)
    requires StemHasAlnum(name)
    ensures Sanitized(Sanitized(name)) == Sanitized(name)
  {
    SanitizedShape(name);
    SanitizedPdfSuffix(name);
    SanitizedOfClean(Sanitized(name));
  }

  /** An empty name becomes the default. */
  lemma SanitizeEmpty(name: string, d: string)
    requires name == "" && d == "document.pdf"
    ensures Sanitized(name) == d
  {
    assert WithPdf(name) == WithPdf(d);
    DefaultName(d);
    SanitizedOfClean(d);
  }

  lemma SanitizeNoStem(dot: string, r: string)
    requires dot == ".pdf" && r == "pdf"
    ensures SanitizedOf(dot) == r
  {
    assert SafeChars(dot) == dot;
    assert LeadEnd(dot, SAFE_PUNCT, 1) == 1;
    assert LeadEnd(dot, SAFE_PUNCT, 0) == 1;
    assert TrailStart(dot, SAFE_PUNCT, 4) == 4;
    assert dot[1..4] == r;
  }

  /** ".pdf" and a blank name both lose their dot: the result is "pdf". */
  lemma SanitizeDotPdf(name: string, dot: string, r: string)
    requires name == "   " || name == ".pdf"
    requires dot == ".pdf" && r == "pdf"
    ensures Sanitized(name) == r
  {
    assert forall i :: 0 <= i < |dot| ==> !IsUpper(dot[i]);
    LowerOfLower(dot);
    if name == "   " {
      assert LeadEnd(name, WHITESPACE, 0) == |name|;
      assert Strip(name) == "";
      assert "" + ".pdf" == dot;
    } else {
      StripCharsNoop(name, WHITESPACE);
    }
    assert WithPdf(name) == dot;
    SanitizeNoStem(dot, r);
  }

  // ---------------------------------------------------------------------
  // Folders that only grow
  // ---------------------------------------------------------------------

  /** `d` is `d0` with the distinct new names `added`, the old files unchanged. */
  predicate Grows(d0: map<string, nat>, d: map<string, nat>, added: seq<string>) {
    NoDup(added) &&
    (forall i :: 0 <= i < |added| ==> added[i] !in d0 && added[i] in d) &&
    (forall n :: n in d0 ==> n in d && d[n] == d0[n]) &&
    (forall n :: n in d ==> n in d0 || n in added)
  }

  lemma GrowsSnoc(d0: map<string, nat>, d: map<string, nat>, added: seq<string>, n: string, v: nat)
    requires Grows(d0, d, added) && n !in d
    ensures Grows(d0, d[n := v], added + [n])
  {
    var a := added + [n];
    forall i, j | 0 <= i < j < |a| ensures a[i] != a[j] {
      if j == |added| {
        assert a[i] in d;
      } else {
        assert a[i] == added[i] && a[j] == added[j];
      }
    }
  }

  // ---------------------------------------------------------------------
  // The upload routes
  // ---------------------------------------------------------------------

  /** `upload_patient_document`: the sanitized name, or its first free numbered variant in the patient's folder. */
  method UploadPatientDocument(filename: string, docs: set<string>) returns (dest: string)
    ensures dest == FreeNameOf(Underscored, Sanitized(filename), docs)
    ensures dest !in docs
  {
    var name := SanitizeFilename(filename);
    dest := FreeName(Underscored, name, docs);
  }

  /** An uploaded file: the name the client gave and its size. */
  datatype Upload = Upload(filename: string, size: nat)

  datatype UploadError = NoFiles | NotPdf(filename: string)

  /** The download folder, the names saved so far, and the error that stopped the uploads, if any. */
  datatype Saving = Saving(dir: map<string, nat>, saved: seq<string>, err: Option<UploadError>)

  function SaveStep(s: Saving, u: Upload): Saving {
    if s.err.Some? then s
    else
      var filename := Sanitized(u.filename);
      if !IsPdfName(filename) then s.(err := Some(NotPdf(u.filename)))
      else
        var dest := FreeNameOf(Underscored, filename, s.dir.Keys);
        Saving(s.dir[dest := u.size], s.saved + [dest], None)
  }

  function SaveAll(dir: map<string, nat>, us: seq<Upload>): Saving
    decreases |us|
  {
    if us == [] then Saving(dir, [], None) else SaveStep(SaveAll(dir, us[..|us| - 1]), us[|us| - 1])
  }

  /** What `upload_download_pdfs` leaves behind: no files is an error, and a file already written stays written. */
  function Uploaded(dir: map<string, nat>, us: seq<Upload>): Saving {
    if us == [] then Saving(dir, [], Some(NoFiles)) else SaveAll(dir, us)
  }

  /** Once an upload is refused, the later ones are not looked at. */
  lemma {:induction false} SaveAllStops(dir: map<string, nat>, us: seq<Upload>, i: nat)
    requires i <= |us| && SaveAll(dir, us[..i]).err.Some?
    ensures SaveAll(dir, us) == SaveAll(dir, us[..i])
    decreases |us|
  {
    if i < |us| {
      var front := us[..|us| - 1];
      assert front[..i] == us[..i];
      SaveAllStops(dir, front, i);
    } else {
      assert us[..i] == us;
    }
  }

  /**
   * `upload_download_pdfs`: each upload sanitized, refused when the result
   * does not end in ".pdf", otherwise written under the first free name.
   */
  method UploadDownloadPdfs(us: seq<Upload>, dir0: map<string, nat>) returns (s: Saving)
    ensures s == Uploaded(dir0, us)
  {
    if us == [] {
      return Saving(dir0, [], Some(NoFiles));
    }
    var dir := dir0;
    var saved := [];
    for i := 0 to |us|
      invariant SaveAll(dir0, us[..i]) == Saving(dir, saved, None)
    {
      var u := us[i];
      assert us[..i + 1][..i] == us[..i];
      var filename := SanitizeFilename(u.filename);
      if !IsPdfName(filename) {
        s := Saving(dir, saved, Some(NotPdf(u.filename)));
        SaveAllStops(dir0, us, i + 1);
        return;
      }
      var dest := FreeName(Underscored, filename, dir.Keys);
      dir := dir[dest := u.size];
      saved := saved + [dest];
    }
    assert us[..|us|] == us;
    s := Saving(dir, saved, None);
  }

  /**
   * The uploads are saved in order until the first refused one: an error
   * names that upload, whose sanitized name does not end in ".pdf".
   */
  lemma {:induction false} SaveAllOrder(dir: map<string, nat>, us: seq<Upload>)
    ensures var s := SaveAll(dir, us);
            |s.saved| <= |us| &&
            (s.err.None? ==> |s.saved| == |us|) &&
            (s.err.Some? ==> |s.saved| < |us| && s.err == Some(NotPdf(us[|s.saved|].filename)) &&
                             !IsPdfName(Sanitized(us[|s.saved|].filename)))
    decreases |us|
  {
    if us != [] {
      var front := us[..|us| - 1];
      SaveAllOrder(dir, front);
      assert forall i :: 0 <= i < |front| ==> front[i] == us[i];
    }
  }

  /** No upload overwrites: the saved names are distinct and new, and the files already there stay. */
  lemma {:induction false} SaveAllFresh(dir: map<string, nat>, us: seq<Upload>)
    ensures var s := SaveAll(dir, us); Grows(dir, s.dir, s.saved)
    decreases |us|
  {
    if us != [] {
      var front := us[..|us| - 1];
      var p := SaveAll(dir, front);
      var u := us[|us| - 1];
      SaveAllFresh(dir, front);
      if p.err.None? && IsPdfName(Sanitized(u.filename)) {
        var filename := Sanitized(u.filename);
        FreeNameIsFirstFree(Underscored, filename, p.dir.Keys);
        GrowsSnoc(dir, p.dir, p.saved, FreeNameOf(Underscored, filename, p.dir.Keys), u.size);
      }
    }
  }

  /** Each saved name holds the size of its upload. */
  lemma {:induction false} SaveAllSizes(dir: map<string, nat>, us: seq<Upload>)
    ensures var s := SaveAll(dir, us);
            forall i :: 0 <= i < |s.saved| && i < |us| ==> s.saved[i] in s.dir && s.dir[s.saved[i]] == us[i].size
    decreases |us|
  {
    if us != [] {
      var front := us[..|us| - 1];
      var p := SaveAll(dir, front);
      var u := us[|us| - 1];
      SaveAllSizes(dir, front);
      SaveAllOrder(dir, front);
      if p.err.None? && IsPdfName(Sanitized(u.filename)) {
        var filename := Sanitized(u.filename);
        var dest := FreeNameOf(Underscored, filename, p.dir.Keys);
        FreeNameIsFirstFree(Underscored, filename, p.dir.Keys);
        SizesSnoc(p, SaveAll(dir, us), us, dest);
      }
    }
  }

  lemma SizesSnoc(p: Saving, s: Saving, us: seq<Upload>, dest: string)
    requires |us| >= 1 && |p.saved| == |us| - 1 && dest !in p.dir
    requires forall i :: 0 <= i < |p.saved| && i < |us| - 1 ==> p.saved[i] in p.dir && p.dir[p.saved[i]] == us[i].size
    requires s.saved == p.saved + [dest] && s.dir == p.dir[dest := us[|us| - 1].size]
    ensures forall i :: 0 <= i < |s.saved| && i < |us| ==> s.saved[i] in s.dir && s.dir[s.saved[i]] == us[i].size
  {
    forall i | 0 <= i < |s.saved| && i < |us| ensures s.saved[i] in s.dir && s.dir[s.saved[i]] == us[i].size {
      if i < |p.saved| {
        assert s.saved[i] == p.saved[i] && p.saved[i] in p.dir;
      }
    }
  }

  // ---------------------------------------------------------------------
  // _copy_downloads_to_patient
  // ---------------------------------------------------------------------

  /** The patient's folder and the names reported as copied and as skipped. */
  datatype CopyReport = CopyReport(dir: map<string, nat>, copied: seq<string>, skipped: seq<string>)

  function CopyStep(r: CopyReport, downloads: map<string, nat>, name: string): CopyReport {
    if !IsPdfName(name) || name !in downloads then r
    else match ProbeOutcome(Underscored, Sanitized(name), r.dir, downloads[name])
      case SkipAt(e) => r.(skipped := r.skipped + [e])
      case CopyTo(n) => CopyReport(r.dir[n := downloads[name]], r.copied + [n], r.skipped)
  }

  function CopyAll(dest: map<string, nat>, downloads: map<string, nat>, names: seq<string>): CopyReport
    decreases |names|
  {
    if names == [] then CopyReport(dest, [], [])
    else CopyStep(CopyAll(dest, downloads, names[..|names| - 1]), downloads, names[|names| - 1])
  }

  /** The body of the loop for one requested name. */
  method CopyOne(r0: CopyReport, downloads: map<string, nat>, name: string) returns (r: CopyReport)
    ensures r == CopyStep(r0, downloads, name)
  {
    r := r0;
    if !IsPdfName(name) || name !in downloads {
      return;
    }
    var sanitizedName := SanitizeFilename(name);
    var out := Probe(Underscored, sanitizedName, r.dir, downloads[name]);
    match out
    case SkipAt(e) =>
      r := r.(skipped := r.skipped + [e]);
    case CopyTo(n) =>
      r := CopyReport(r.dir[n := downloads[name]], r.copied + [n], r.skipped);
  }

  /**
   * `_copy_downloads_to_patient` over the download folder `downloads`: names
   * that are not PDFs or not present are passed over; the others are copied
   * under a free name, or skipped when a probed name holds a file of their size.
   */
  method CopyDownloadsToPatient(dest: map<string, nat>, downloads: map<string, nat>, names: seq<string>)
    returns (r: CopyReport)
    ensures r == CopyAll(dest, downloads, names)
  {
    r := CopyReport(dest, [], []);
    for i := 0 to |names|
      invariant r == CopyAll(dest, downloads, names[..i])
    {
      assert names[..i + 1][..i] == names[..i];
      r := CopyOne(r, downloads, names[i]);
    }
    assert names[..|names|] == names;
  }

  /**
   * The copy never overwrites: the copied names are distinct and new in the
   * patient's folder, and every skipped name is a file of the folder.
   */
  lemma {:induction false} CopyAllFresh(dest: map<string, nat>, downloads: map<string, nat>, names: seq<string>)
    ensures var r := CopyAll(dest, downloads, names);
            Grows(dest, r.dir, r.copied) && forall e :: e in r.skipped ==> e in r.dir
    decreases |names|
  {
    if names != [] {
      var front := names[..|names| - 1];
      var p := CopyAll(dest, downloads, front);
      var name := names[|names| - 1];
      CopyAllFresh(dest, downloads, front);
      if IsPdfName(name) && name in downloads {
        ProbeOutcomeIs(Underscored, Sanitized(name), p.dir, downloads[name]);
        match ProbeOutcome(Underscored, Sanitized(name), p.dir, downloads[name])
        case SkipAt(e) =>
        case CopyTo(n) => GrowsSnoc(dest, p.dir, p.copied, n, downloads[name]);
      }
    }
  }

  /** A requested name whose own sanitized name holds a file of its size is reported as skipped. */
  lemma CopySkipsEqual(r: CopyReport, downloads: map<string, nat>, name: string)
    requires IsPdfName(name) && name in downloads
    requires Sanitized(name) in r.dir && r.dir[Sanitized(name)] == downloads[name]
    ensures CopyStep(r, downloads, name) == r.(skipped := r.skipped + [Sanitized(name)])
  {
    ProbeSkipsEqualName(Underscored, Sanitized(name), r.dir, downloads[name]);
  }

  // ---------------------------------------------------------------------
  // The arcnames of the zip bundle
  // ---------------------------------------------------------------------

  /** A path handed to the bundle, and whether it is a regular file. */
  datatype Entry = Entry(path: string, isFile: bool)

  /** The arcname before the clash check: the basename, or "documento_idx.pdf" when that is empty. */
  function ArcBase(path: string, idx: nat): string {
    var b := Basename(path);
    if b == "" then "documento_" + NatToDec(idx) + ".pdf" else b
  }

  /** The one renaming the code applies to a clash: "base_idx" and the extension, ".pdf" when there is none. */
  function Renamed(arc: string, idx: nat): string {
    var (base, ext) := SplitExt(arc);
    base + "_" + NatToDec(idx) + (if ext == "" then ".pdf" else ext)
  }

  /** The arcnames as the code writes them: the renamed name is added without being checked again. */
  function ArcNamesAsWritten(entries: seq<Entry>): seq<string>
    decreases |entries|
  {
    if entries == [] then []
    else
      var names := ArcNamesAsWritten(entries[..|entries| - 1]);
      var e := entries[|entries| - 1];
      if !e.isFile then names
      else
        var arc := ArcBase(e.path, |entries|);
        names + [if arc in names then Renamed(arc, |entries|) else arc]
  }

  /** A path "d/name" with a one-letter directory has basename `name`. */
  lemma BasenameAfter(p: string, x: string)
    requires |p| >= 2 && p[1] == '/' && p[2..] == x && forall j :: 2 <= j < |p| ==> p[j] != '/'
    ensures Basename(p) == x
  {
    var k := LastIndexOf(p, '/');
    assert !(k < 1);
    assert !(k > 1);
  }

  lemma XName(p: string, x: string)
    requires p == "a/x_3.pdf" && x == "x_3.pdf"
    ensures ArcBase(p, 1) == x
  {
    assert p[2..] == x;
    BasenameAfter(p, x);
  }

  lemma ItemName(p: string, x: string, idx: nat)
    requires (p == "b/x.pdf" || p == "c/x.pdf") && x == "x.pdf"
    ensures ArcBase(p, idx) == x
  {
    assert p[2..] == x;
    BasenameAfter(p, x);
  }

  lemma RenamedX(x: string, r: string)
    requires x == "x.pdf" && r == "x_3.pdf"
    ensures Renamed(x, 3) == r
  {
    var sep := LastIndexOf(x, '/');
    assert forall j :: 0 <= j < |x| ==> x[j] != '/';
    assert sep == -1;
    var dot := LastIndexOf(x, '.');
    assert x[1] == '.' && forall j :: 1 < j < |x| ==> x[j] != '.';
    assert !(dot < 1);
    assert !(dot > 1);
    assert x[sep + 1..dot][0] != '.';
    assert SplitExt(x) == (x[..1], x[1..]);
    assert x[..1] == "x" && x[1..] == ".pdf";
    assert NatToDec(3) == "3";
  }

  lemma AsWrittenSnoc(es: seq<Entry>, e: Entry)
    ensures var names := ArcNamesAsWritten(es);
            var arc := ArcBase(e.path, |es| + 1);
            ArcNamesAsWritten(es + [e]) ==
              if !e.isFile then names else names + [if arc in names then Renamed(arc, |es| + 1) else arc]
  {
    var xs := es + [e];
    assert xs[..|xs| - 1] == es && xs[|xs| - 1] == e && |xs| == |es| + 1;
  }

  lemma ClashFirst(a: string, x3: string)
    requires a == "a/x_3.pdf" && x3 == "x_3.pdf"
    ensures ArcNamesAsWritten([Entry(a, true)]) == [x3]
  {
    XName(a, x3);
    AsWrittenSnoc([], Entry(a, true));
    assert [] + [Entry(a, true)] == [Entry(a, true)];
  }

  lemma ClashSecond(e1: Entry, b: string, x3: string, x: string)
    requires ArcNamesAsWritten([e1]) == [x3]
    requires b == "b/x.pdf" && x3 == "x_3.pdf" && x == "x.pdf"
    ensures ArcNamesAsWritten([e1, Entry(b, true)]) == [x3, x]
  {
    ItemName(b, x, 2);
    assert x3 != x;
    AsWrittenSnoc([e1], Entry(b, true));
    assert [e1] + [Entry(b, true)] == [e1, Entry(b, true)];
  }

  lemma ClashThird(e1: Entry, e2: Entry, c: string, x3: string, x: string)
    requires ArcNamesAsWritten([e1, e2]) == [x3, x]
    requires c == "c/x.pdf" && x3 == "x_3.pdf" && x == "x.pdf"
    ensures ArcNamesAsWritten([e1, e2, Entry(c, true)]) == [x3, x, x3]
  {
    ItemName(c, x, 3);
    RenamedX(x, x3);
    assert x in [x3, x];
    AsWrittenSnoc([e1, e2], Entry(c, true));
    assert [e1, e2] + [Entry(c, true)] == [e1, e2, Entry(c, true)];
  }

  /** The third file of ["a/x_3.pdf", "b/x.pdf", "c/x.pdf"] is renamed onto the first one's name. */
  lemma ArcNameClash(a: string, b: string, c: string, x3: string, x: string)
    requires a == "a/x_3.pdf" && b == "b/x.pdf" && c == "c/x.pdf" && x3 == "x_3.pdf" && x == "x.pdf"
    ensures ArcNamesAsWritten([Entry(a, true), Entry(b, true), Entry(c, true)]) == [x3, x, x3]
    ensures !NoDup(ArcNamesAsWritten([Entry(a, true), Entry(b, true), Entry(c, true)]))
  {
    ClashFirst(a, x3);
    ClashSecond(Entry(a, true), b, x3, x);
    ClashThird(Entry(a, true), Entry(b, true), c, x3, x);
    var n3 := ArcNamesAsWritten([Entry(a, true), Entry(b, true), Entry(c, true)]);
    assert n3[0] == n3[2];
  }

  /** The arcnames with each renamed name probed further, "base_idx_1", "base_idx_2", …, until it is free. */
  function ArcNames(entries: seq<Entry>): (names: seq<string>)
    ensures NoDup(names)
    decreases |entries|
  {
    if entries == [] then []
    else
      var names := ArcNames(entries[..|entries| - 1]);
      var e := entries[|entries| - 1];
      if !e.isFile then names
      else
        var arc := ArcBase(e.path, |entries|);
        var chosen := if arc in names then FreeNameOf(Underscored, Renamed(arc, |entries|), set n | n in names) else arc;
        FreeNameIsFirstFree(Underscored, Renamed(arc, |entries|), set n | n in names);
        NoDupSnoc(names, chosen);
        names + [chosen]
  }

  lemma NoDupSnoc(xs: seq<string>, x: string)
    requires NoDup(xs) && x !in xs
    ensures NoDup(xs + [x])
  {
  }

  /** Where the code's names are already distinct, the probing changes none of them. */
  lemma {:induction false} ArcNamesAgree(entries: seq<Entry>)
    requires NoDup(ArcNamesAsWritten(entries))
    ensures ArcNames(entries) == ArcNamesAsWritten(entries)
    decreases |entries|
  {
    if entries != [] {
      var front := entries[..|entries| - 1];
      var w := ArcNamesAsWritten(front);
      var e := entries[|entries| - 1];
      assert NoDup(w) by {
        if e.isFile {
          assert forall i :: 0 <= i < |w| ==> w[i] == ArcNamesAsWritten(entries)[i];
        }
      }
      ArcNamesAgree(front);
      if e.isFile {
        var arc := ArcBase(e.path, |entries|);
        if arc in w {
          var rn := Renamed(arc, |entries|);
          assert rn == ArcNamesAsWritten(entries)[|w|];
          assert rn !in set n | n in w by {
            forall i | 0 <= i < |w| ensures w[i] != rn {
              assert w[i] == ArcNamesAsWritten(entries)[i];
            }
          }
          FreeNameOfFree(Underscored, rn, set n | n in w);
        }
      }
    }
  }

  /** The zip loop with the clash check repeated: the names written are distinct. */
  method ZipArcNames(entries: seq<Entry>) returns (names: seq<string>)
    ensures names == ArcNames(entries)
    ensures NoDup(names)
  {
    names := [];
    var seenNames: set<string> := {};
    for idx := 1 to |entries| + 1
      invariant names == ArcNames(entries[..idx - 1])
      invariant seenNames == set n | n in names
    {
      var e := entries[idx - 1];
      assert entries[..idx][..idx - 1] == entries[..idx - 1];
      if !e.isFile {
        continue;
      }
      var arcname := ArcBase(e.path, idx);
      if arcname in seenNames {
        arcname := FreeName(Underscored, Renamed(arcname, idx), seenNames);
      }
      seenNames := seenNames + {arcname};
      names := names + [arcname];
    }
    assert entries[..|entries|] == entries;
  }
}
