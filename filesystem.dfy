/** The filesystem the retention pass works on, reduced to what it reads and
    changes: each base directory is a map from child name to entry, a folder
    holds the set of its regular files, and an archive holds its entry names.
    What the operating system decides (listing order, modification times of
    new files, and which `zip`, `rmtree` and `unlink` calls fail) is a `Host`
    record of functions fixed for the run. */
module FileSystem {
  import opened Paths

  datatype Content = Data | Archive(entries: set<string>)

  /** A child of a base directory: a folder with the regular files anywhere
      below it (empty sub-folders carry no file), or a file. */
  datatype Entry = Dir(mtime: int, files: set<RelPath>) | File(mtime: int, content: Content)

  type Listing = map<Name, Entry>

  /** What a configured path names: a directory with its children, or
      something that is not a directory. A path that does not exist is
      absent from the roots. */
  datatype Node = Folder(children: Listing) | NotFolder

  /** Writing an archive either succeeds, or fails leaving no file or a
      partial one (`ZipFile(.., 'w')` creates the file when it opens it). */
  datatype Leftover = NoFile | PartialFile(entries: set<string>)
  datatype ZipResult = Written | WriteFailed(leftover: Leftover)

  /** `shutil.rmtree` either removes the folder or stops part way, leaving
      the folder with some of its files and a new modification time. */
  datatype RmtreeResult = Removed | Interrupted(mtime: int, kept: set<RelPath>)

  datatype Host = Host(
    listdir: (Path, set<Name>) -> seq<Name>,   // the order `iterdir` yields the names in
    zipResult: (Path, Name) -> ZipResult,      // keyed by base and archive name
    zipTime: (Path, Name) -> int,              // modification time of a written archive
    rmtree: (Path, Name) -> RmtreeResult,      // keyed by base and folder name
    unlinkFails: (Path, Name) -> bool          // keyed by base and file name
  )

  /** The listing after `zip_folder` wrote `entries` to `dest` (mode 'w'
      replaces whatever was there). */
  function AfterWrite(host: Host, base: Path, dest: Name, entries: set<string>, l: Listing): (r: Listing)
    ensures host.zipResult(base, dest).Written? ==> dest in r && r[dest] == File(host.zipTime(base, dest), Archive(entries))
    ensures forall n :: n in l && n != dest ==> n in r && r[n] == l[n]
    ensures r.Keys <= l.Keys + {dest}
  {
    match host.zipResult(base, dest)
    case Written => l[dest := File(host.zipTime(base, dest), Archive(entries))]
    case WriteFailed(NoFile) => l
    case WriteFailed(PartialFile(part)) => l[dest := File(host.zipTime(base, dest), Archive(part * entries))]
  }

  /** The listing after `shutil.rmtree(folder)`. */
  function AfterRmtree(host: Host, base: Path, folder: Name, l: Listing): (r: Listing)
    requires folder in l && l[folder].Dir?
    ensures forall n :: n in l && n != folder ==> n in r && r[n] == l[n]
    ensures r.Keys <= l.Keys
    ensures folder in r ==> r[folder].Dir? && r[folder].files <= l[folder].files
    ensures folder !in r <==> host.rmtree(base, folder).Removed?
  {
    match host.rmtree(base, folder)
    case Removed => l - {folder}
    case Interrupted(t, kept) => l[folder := Dir(t, kept * l[folder].files)]
  }

  /** No name twice, and exactly the names of `keys`. */
  predicate Enumerates(order: seq<Name>, keys: set<Name>) {
    (forall i, j :: 0 <= i < j < |order| ==> order[i] != order[j]) &&
    (forall k :: k in keys ==> k in order) &&
    (forall i :: 0 <= i < |order| ==> order[i] in keys)
  }

  /** `iterdir` yields every child of the directory exactly once. */
  ghost predicate ListsEachOnce(host: Host) {
    forall b, keys :: Enumerates(host.listdir(b, keys), keys)
  }

  /** `Path.unlink` removes a file; on a folder it raises. */
  predicate UnlinkSucceeds(host: Host, base: Path, name: Name, e: Entry) {
    e.File? && !host.unlinkFails(base, name)
  }

  class Disk {
    var roots: map<Path, Node>
    const host: Host

    constructor (roots0: map<Path, Node>, host0: Host)
      ensures roots == roots0 && host == host0
    {
      roots := roots0;
      host := host0;
    }

    /** Writes the archive `dest` beside the folders of `base`. */
    method WriteArchive(base: Path, dest: Name, entries: set<string>) returns (ok: bool)
      requires base in roots && roots[base].Folder?
      modifies this
      ensures ok == host.zipResult(base, dest).Written?
      ensures roots == old(roots)[base := Folder(AfterWrite(host, base, dest, entries, old(roots[base].children)))]
    {
      roots := roots[base := Folder(AfterWrite(host, base, dest, entries, roots[base].children))];
      ok := host.zipResult(base, dest).Written?;
    }

    /** `shutil.rmtree` on the folder `folder` of `base`. */
    method Rmtree(base: Path, folder: Name) returns (ok: bool)
      requires base in roots && roots[base].Folder?
      requires folder in roots[base].children && roots[base].children[folder].Dir?
      modifies this
      ensures ok == host.rmtree(base, folder).Removed?
      ensures roots == old(roots)[base := Folder(AfterRmtree(host, base, folder, old(roots[base].children)))]
    {
      roots := roots[base := Folder(AfterRmtree(host, base, folder, roots[base].children))];
      ok := host.rmtree(base, folder).Removed?;
    }

    /** `Path.unlink` on the entry `name` of `base`. */
    method Unlink(base: Path, name: Name) returns (ok: bool)
      requires base in roots && roots[base].Folder? && name in roots[base].children
      modifies this
      ensures ok == UnlinkSucceeds(host, base, name, old(roots[base].children[name]))
      ensures roots == if ok then old(roots)[base := Folder(old(roots[base].children) - {name})] else old(roots)
    {
      ok := UnlinkSucceeds(host, base, name, roots[base].children[name]);
      if ok {
        roots := roots[base := Folder(roots[base].children - {name})];
      }
    }
  }
}
