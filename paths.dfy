/** Path names as the retention pass sees them: the names a directory
    listing returns, `PurePath.with_suffix(".zip")` for the archive that sits
    beside a folder, the glob `*.zip`, and the entry names written into an
    archive (`<folder name>/<path relative to the folder>`). */
module Paths {

  /** A base directory as it is written in the configuration. */
  type Path = string

  /** What a directory listing can return: a single, non-empty component. */
  predicate ValidName(s: string) {
    s != "" && s != "." && s != ".." && '/' !in s
  }

  type Name = s: string | ValidName(s) witness "a"

  /** A regular file under a folder, as `relative_to` the folder gives it
      ('/'-separated, never empty). */
  type RelPath = s: string | s != "" witness "f"

  /** `str.rfind('.')`: the index of the last dot, or -1 when there is none. */
  function LastDot(s: string): (i: int)
    ensures -1 <= i < |s|
    ensures 0 <= i ==> s[i] == '.'
    ensures forall j :: i < j < |s| ==> s[j] != '.'
  {
    if s == [] then -1
    else if s[|s| - 1] == '.' then |s| - 1
    else LastDot(s[..|s| - 1])
  }

  /** `PurePath.suffix`: from the last dot on, unless that dot starts the
      name or ends it; otherwise empty. */
  function Suffix(name: Name): (s: string)
    ensures s == "" || (2 <= |s| < |name| && s[0] == '.' && s == name[|name| - |s|..])
    ensures s != "" ==> '.' !in s[1..]
  {
    var i := LastDot(name);
    if 0 < i < |name| - 1 then
      name[i..]
    else ""
  }

  /** `PurePath.stem`: the name without its suffix. */
  function Stem(name: Name): (s: string)
    ensures s != "" && s + Suffix(name) == name
  {
    name[..|name| - |Suffix(name)|]
  }

  /** The glob `*.zip` (pathlib's `*` also matches names that start with a
      dot; matching is case-sensitive, as on POSIX). */
  predicate IsZipName(s: string) {
    |s| >= 4 && s[|s| - 4..] == ".zip"
  }

  /** `subfolder.with_suffix(".zip")`: the last suffix is replaced, and
      ".zip" is appended when the name has none. */
  function ZipPathOf(folder: Name): (z: Name)
    ensures IsZipName(z)
    ensures z[..|z| - 4] == Stem(folder)
  {
    Stem(folder) + ".zip"
  }

  /** The archive entry name of a file: `folder.name / relative path`. */
  function ArcName(folder: Name, file: RelPath): string {
    folder + "/" + file
  }

  /** The entry names `zip_folder` writes for a folder holding `files`. */
  function ArchiveOf(folder: Name, files: set<RelPath>): set<string> {
    set f | f in files :: ArcName(folder, f)
  }

  /** The files that extracting `entries` puts under a top-level folder
      called `folder`. */
  function ExtractUnder(folder: Name, entries: set<string>): set<RelPath> {
    set e | e in entries && |e| > |folder| + 1 && e[..|folder| + 1] == folder + "/"
          :: e[|folder| + 1..]
  }

  // ---------------------------------------------------------------------
  // Properties

  /** A folder keeps its own name as archive name exactly when its suffix
      is already ".zip"; any other folder's archive is a different entry. */
  lemma ZipPathIsOwnName(folder: Name)
    ensures ZipPathOf(folder) == folder <==> Suffix(folder) == ".zip"
  {
    var s := Suffix(folder);
    var z := ZipPathOf(folder);
    if s == "" {
      assert |z| == |folder| + 4;
    } else if z == folder {
      assert s == folder[|folder| - 4..] == z[|z| - 4..];
    }
  }

  /** `a.b` becomes `a.zip`: the part after the last dot is replaced when
      something precedes that dot and something follows it. */
  lemma ZipPathReplacesSuffix(stem: string, ext: string)
    requires stem != "" && ext != "" && '.' !in ext
    requires ValidName(stem + "." + ext)
    ensures ZipPathOf(stem + "." + ext) == stem + ".zip"
  {
    var n: Name := stem + "." + ext;
    var i := LastDot(n);
    assert n[|stem|] == '.';
    assert forall j :: |stem| < j < |n| ==> n[j] == ext[j - |stem| - 1];
    assert i == |stem|;
    assert n[..|stem|] == stem;
  }

  /** A name with no dot between its first and its last character (`logs`,
      `.cache`, `x.`) gets ".zip" appended. */
  lemma ZipPathAppends(folder: Name)
    requires forall j :: 0 < j < |folder| - 1 ==> folder[j] != '.'
    ensures ZipPathOf(folder) == folder + ".zip"
  {
    var i := LastDot(folder);
    assert !(0 < i < |folder| - 1);
    assert Suffix(folder) == "";
  }

  /** A trailing dot is no suffix: `a.b.` becomes `a.b..zip` and `x.`
      becomes `x..zip`. */
  lemma ZipPathTrailingDot(folder: Name)
    requires folder[|folder| - 1] == '.'
    ensures ZipPathOf(folder) == folder + ".zip"
  {
    assert LastDot(folder) == |folder| - 1;
  }

  /** An archive name is its own archive name: its suffix is ".zip". So a
      folder whose name is the archive name of another folder is always
      its own archive. */
  lemma ArchiveNameIsFixed(folder: Name)
    ensures ZipPathOf(ZipPathOf(folder)) == ZipPathOf(folder)
  {
    var z := ZipPathOf(folder);
    var i := LastDot(z);
    assert z[|z| - 4..] == ".zip";
    assert z[|z| - 4] == '.' && z[|z| - 3] == 'z' && z[|z| - 2] == 'i' && z[|z| - 1] == 'p';
    assert i == |z| - 4;
    assert Suffix(z) == ".zip";
    ZipPathIsOwnName(z);
  }

  /** Extracting the archive of a folder gives back exactly the folder's
      regular files, each under the folder's own name. */
  lemma ArchiveRoundTrip(folder: Name, files: set<RelPath>)
    ensures ExtractUnder(folder, ArchiveOf(folder, files)) == files
  {
    var prefix := folder + "/";
    forall f | f in files
      ensures f in ExtractUnder(folder, ArchiveOf(folder, files))
    {
      var e := ArcName(folder, f);
      assert e[..|folder| + 1] == prefix && e[|folder| + 1..] == f;
    }
    forall f | f in ExtractUnder(folder, ArchiveOf(folder, files))
      ensures f in files
    {
      var e :| e in ArchiveOf(folder, files) && |e| > |folder| + 1 &&
               e[..|folder| + 1] == prefix && f == e[|folder| + 1..];
      var g :| g in files && e == ArcName(folder, g);
      assert e[|folder| + 1..] == g;
    }
  }
}
