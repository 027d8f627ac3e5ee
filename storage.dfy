/**
 * Object-store paths of patient documents: every stored file lives under a
 * folder named after the patient, optionally inside one sub-folder.
 */
module Storage {
  import opened Wrappers
  import opened Strings

  /** A component that names something: not empty and not the current directory. */
  predicate Named(part: string) {
    part != "" && part != "."
  }

  /**
   * `Path(p).name` for a POSIX path: empty components and "." components are
   * dropped, and the name is the last component left ("" for "", "/" or ".").
   */
  function PathName(p: string): (n: string)
    ensures '/' !in n
    ensures n != "."
    decreases |p|
  {
    var j := LastIndexOf(p, '/');
    var last := p[j + 1..];
    AfterLastIndex(p, '/');
    if Named(last) then last
    else if j < 0 then ""
    else PathName(p[..j])
  }

  /** A path segment: the name of a path with both kinds of slash made '_'. */
  function Segment(p: string): (s: string)
  {
    ReplaceAll(ReplaceAll(PathName(p), "\\", "_"), "/", "_")
  }

  /** `_normalize_filename`. */
  function NormalizeFilename(filename: string): (s: string)
  {
    Segment(filename)
  }

  /** The patient folder: the identifier stripped, spaces made '_', lower-cased. */
  function PatientSlug(patientId: string): (slug: string)
  {
    LowerStr(ReplaceAll(Strip(patientId), " ", "_"))
  }

  /** `build_storage_path`: a folder is used only when it is given and not empty. */
  function BuildStoragePath(patientId: string, filename: string, folder: Option<string>): (path: string)
  {
    var slug := PatientSlug(patientId);
    var normalized := NormalizeFilename(filename);
    if folder.Some? && folder.value != "" then slug + "/" + Segment(folder.value) + "/" + normalized
    else slug + "/" + normalized
  }

  /** A segment holds neither kind of slash, and is never the current directory. */
  lemma SegmentClean(p: string)
    ensures var s := Segment(p); '/' !in s && '\\' !in s && s != "."
  {
    var n := PathName(p);
    var m := ReplaceAll(n, "\\", "_");
    ReplaceCharPointwise(n, '\\', '_');
    ReplaceCharPointwise(m, '/', '_');
  }

  /** A name that is already a clean segment is its own segment. */
  lemma SegmentOfClean(p: string)
    requires Named(p) && '/' !in p && '\\' !in p
    ensures Segment(p) == p
  {
    assert LastIndexOf(p, '/') == -1;
    assert p[0..] == p;
    assert PathName(p) == p;
    ReplaceCharPointwise(p, '\\', '_');
    var m := ReplaceAll(p, "\\", "_");
    assert m == p;
    ReplaceCharPointwise(m, '/', '_');
  }

  /** Making a segment twice changes nothing. */
  lemma SegmentIdempotent(p: string)
    ensures Segment(Segment(p)) == Segment(p)
  {
    var s := Segment(p);
    SegmentClean(p);
    if s == "" {
      assert PathName(s) == "";
    } else {
      SegmentOfClean(s);
    }
  }

  /** The last named component of a path with directories is its file name. */
  lemma SegmentOfNested(dir: string, name: string)
    requires Named(name) && '/' !in name && '\\' !in name
    ensures Segment(dir + "/" + name) == name
  {
    var s := dir + "/" + name;
    assert s[|dir|] == '/';
    assert forall m :: |dir| < m < |s| ==> s[m] == name[m - |dir| - 1];
    var j := LastIndexOf(s, '/');
    assert j == |dir|;
    assert s[j + 1..] == name;
    assert PathName(s) == name;
    ReplaceCharPointwise(name, '\\', '_');
    var m := ReplaceAll(name, "\\", "_");
    assert m == name;
    ReplaceCharPointwise(m, '/', '_');
  }

  /** The patient slug holds no space and no upper-case letter. */
  lemma SlugShape(patientId: string)
    ensures var slug := PatientSlug(patientId);
            ' ' !in slug && forall i :: 0 <= i < |slug| ==> !IsUpper(slug[i])
  {
    var t := Strip(patientId);
    var u := ReplaceAll(t, " ", "_");
    ReplaceCharPointwise(t, ' ', '_');
    var slug := LowerStr(u);
    forall i | 0 <= i < |slug|
      ensures slug[i] != ' ' && !IsUpper(slug[i])
    {
      assert slug[i] == Lower(u[i]);
    }
  }

  /** With a non-empty folder, the path is the slug, the folder segment and the file segment. */
  lemma FolderPath(patientId: string, filename: string, folder: string)
    requires folder != ""
    ensures BuildStoragePath(patientId, filename, Some(folder))
            == (PatientSlug(patientId) + "/") + (Segment(folder) + "/" + NormalizeFilename(filename))
  {
  }

  /** Without a folder, or with an empty one, the path is the slug and the file segment. */
  lemma NoFolderPath(patientId: string, filename: string, folder: Option<string>)
    requires !(folder.Some? && folder.value != "")
    ensures BuildStoragePath(patientId, filename, folder) == (PatientSlug(patientId) + "/") + NormalizeFilename(filename)
  {
  }

  /**
   * The shape of a storage path: the slug, then the folder segment when a
   * non-empty folder is given, then the file segment, joined by '/'; no
   * segment holds a slash and the slug holds no space.
   */
  lemma StoragePathShape(patientId: string, filename: string, folder: Option<string>)
    ensures var path := BuildStoragePath(patientId, filename, folder);
            var slug := PatientSlug(patientId);
            var file := NormalizeFilename(filename);
            if folder.Some? && folder.value != "" then
              var seg := Segment(folder.value);
              path == slug + "/" + seg + "/" + file && '/' !in seg && '\\' !in seg
            else
              path == slug + "/" + file
    ensures '/' !in NormalizeFilename(filename) && '\\' !in NormalizeFilename(filename)
    ensures ' ' !in PatientSlug(patientId)
  {
    SegmentClean(filename);
    SlugShape(patientId);
    if folder.Some? && folder.value != "" {
      SegmentClean(folder.value);
      FolderPath(patientId, filename, folder.value);
    } else {
      NoFolderPath(patientId, filename, folder);
    }
  }

  /** Every storage path of a patient starts with the slug and '/'. */
  lemma PatientPrefix(patientId: string, filename: string, folder: Option<string>)
    ensures StartsWith(BuildStoragePath(patientId, filename, folder), PatientSlug(patientId) + "/")
  {
    var slug := PatientSlug(patientId);
    if folder.Some? && folder.value != "" {
      FolderPath(patientId, filename, folder.value);
      PrefixOfConcat(slug + "/", Segment(folder.value) + "/" + NormalizeFilename(filename));
    } else {
      NoFolderPath(patientId, filename, folder);
      PrefixOfConcat(slug + "/", NormalizeFilename(filename));
    }
  }

  lemma PrefixOfConcat(x: string, y: string)
    ensures StartsWith(x + y, x)
  {
    assert (x + y)[..|x|] == x;
  }

  /** The empty file name normalizes to the empty segment. */
  lemma EmptyName()
    ensures NormalizeFilename("") == ""
  {
    assert LastIndexOf("", '/') == -1;
    assert PathName("") == "";
  }

  /** The path for the empty file name is the patient prefix itself. */
  lemma EmptyNamePath(patientId: string)
    ensures BuildStoragePath(patientId, "", None) == PatientSlug(patientId) + "/"
  {
    NoFolderPath(patientId, "", None);
    EmptyName();
    var slug := PatientSlug(patientId);
    assert (slug + "/") + "" == slug + "/";
  }

  /** A clean file name is recovered as the name of the path it is stored under. */
  lemma StoredNameRoundTrip(patientId: string, name: string, folder: Option<string>)
    requires Named(name) && '/' !in name && '\\' !in name
    ensures Segment(BuildStoragePath(patientId, name, folder)) == name
  {
    SegmentOfClean(name);
    var slug := PatientSlug(patientId);
    if folder.Some? && folder.value != "" {
      var seg := Segment(folder.value);
      FolderPath(patientId, name, folder.value);
      assert (slug + "/") + (seg + "/" + name) == (slug + "/" + seg) + "/" + name;
      SegmentOfNested(slug + "/" + seg, name);
    } else {
      NoFolderPath(patientId, name, folder);
      SegmentOfNested(slug, name);
    }
  }
}
