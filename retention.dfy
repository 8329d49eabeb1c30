/** The retention pass as functions of the filesystem and the two cutoffs:
    one step per name `iterdir` yields (skip, archive and remove, expire),
    the pass over one base directory, and the run over the configured base
    paths. The methods `ExpireOldZips`, `ArchiveAndRemove`, `ProcessEntry`,
    `ProcessLogPath` and `Run` of `LogZipperModel.LogZipper` are proved to
    compute exactly these. */
module Retention {
  import opened Paths
  import opened FileSystem
  import Clock

  /** `threshold_time` and `old_zip_threshold`. */
  datatype Policy = Policy(thresholdTime: int, oldZipThreshold: int)

  /** The lines the run prints. The per-zip lines of one expiry pass are
      kept together as the sets of deleted and failed names, because the
      glob yields them in the operating system's order. */
  datatype Event =
    | Processing(path: Path)
    | InvalidPath(path: Path)
    | SkipZipped(path: Path, zip: Name)
    | Zipped(path: Path, folder: Name, zip: Name)
    | Deleted(path: Path, folder: Name)
    | DeleteError(path: Path, folder: Name)
    | ArchiveError(path: Path, folder: Name)
    | OldZips(path: Path, deleted: set<Name>, failed: set<Name>)

  /** The state of the pass over one base directory; `aborted` once a
      `zip_folder` call has raised. */
  datatype Pass = Pass(listing: Listing, log: seq<Event>, aborted: bool)

  /** The state of a run over several base directories. */
  datatype World = World(roots: map<Path, Node>, log: seq<Event>, aborted: bool)

  // ---------------------------------------------------------------------
  // The expiry pass: `for zip_file in log_path.glob("*.zip")`

  /** The glob matches, its `stat` converts, and it is strictly older than
      the expiry cutoff. */
  predicate Expired(pol: Policy, n: Name, e: Entry) {
    IsZipName(n) && Clock.Representable(e.mtime) && e.mtime < pol.oldZipThreshold
  }

  /** Expired and `unlink` removes it. */
  predicate Unlinked(host: Host, base: Path, pol: Policy, n: Name, e: Entry) {
    Expired(pol, n, e) && UnlinkSucceeds(host, base, n, e)
  }

  /** The entries the glob yields. */
  function ZipCandidates(l: Listing): set<Name> {
    set n | n in l && IsZipName(n)
  }

  /** The listing once the names in `visited` have been checked. */
  function ExpireAmong(host: Host, base: Path, pol: Policy, l: Listing, visited: set<Name>): Listing {
    map n | n in l && !(n in visited && Unlinked(host, base, pol, n, l[n])) :: l[n]
  }

  /** Checking one more name removes it exactly when it is unlinked. */
  lemma ExpireAmongStep(host: Host, base: Path, pol: Policy, l: Listing, visited: set<Name>, z: Name)
    requires z in l && z !in visited
    ensures ExpireAmong(host, base, pol, l, visited + {z}) ==
            if Unlinked(host, base, pol, z, l[z]) then ExpireAmong(host, base, pol, l, visited) - {z}
            else ExpireAmong(host, base, pol, l, visited)
  {
  }

  function DeletedAmong(host: Host, base: Path, pol: Policy, l: Listing, visited: set<Name>): set<Name> {
    set n | n in l && n in visited && Unlinked(host, base, pol, n, l[n])
  }

  /** An error is printed when the time does not convert or the unlink raises. */
  function FailedAmong(host: Host, base: Path, pol: Policy, l: Listing, visited: set<Name>): set<Name> {
    set n | n in l && n in visited &&
            (!Clock.Representable(l[n].mtime) ||
             (l[n].mtime < pol.oldZipThreshold && !UnlinkSucceeds(host, base, n, l[n])))
  }

  function ExpiryEvents(base: Path, deleted: set<Name>, failed: set<Name>): seq<Event> {
    if deleted == {} && failed == {} then [] else [OldZips(base, deleted, failed)]
  }

  /** One run of the expiry loop (`for zip_file in log_path.glob("*.zip")`). */
  function Expire(host: Host, base: Path, pol: Policy, p: Pass): Pass {
    var zips := ZipCandidates(p.listing);
    Pass(ExpireAmong(host, base, pol, p.listing, zips),
         p.log + ExpiryEvents(base, DeletedAmong(host, base, pol, p.listing, zips),
                                    FailedAmong(host, base, pol, p.listing, zips)),
         p.aborted)
  }

  // ---------------------------------------------------------------------
  // One iteration of `for subfolder in log_path.iterdir()`

  /** The archiving branch for a stale folder whose archive does not exist yet:
      write the archive, and only once that returned, remove the folder. */
  function ArchiveAndRemove(host: Host, base: Path, n: Name, p: Pass): Pass
    requires n in p.listing && p.listing[n].Dir? && ZipPathOf(n) !in p.listing
  {
    var l := p.listing;
    var dest := ZipPathOf(n);
    var zipped := AfterWrite(host, base, dest, ArchiveOf(n, l[n].files), l);
    if !host.zipResult(base, dest).Written? then
      Pass(zipped, p.log + [ArchiveError(base, n)], true)      // the exception leaves `run`
    else
      var ev := if host.rmtree(base, n).Removed? then Deleted(base, n) else DeleteError(base, n);
      Pass(AfterRmtree(host, base, n, zipped), p.log + [Zipped(base, n, dest), ev], p.aborted)
  }

  /** One iteration for the name `n`, on a pass that has not aborted. */
  function Step(host: Host, base: Path, pol: Policy, n: Name, p: Pass): Pass {
    var l := p.listing;
    if n !in l || !l[n].Dir? then p                            // not a directory: continue
    else if !Clock.Representable(l[n].mtime) then p            // ValueError: continue
    else if l[n].mtime <= pol.thresholdTime && ZipPathOf(n) in l then
      Pass(l, p.log + [SkipZipped(base, ZipPathOf(n))], p.aborted)   // already zipped: continue
    else
      var q := if l[n].mtime <= pol.thresholdTime then ArchiveAndRemove(host, base, n, p) else p;
      if q.aborted then q else Expire(host, base, pol, q)
  }

  /** The iterations over the names still to come, stopping at an abort. */
  function ProcessFrom(host: Host, base: Path, pol: Policy, order: seq<Name>, p: Pass): Pass
    decreases |order|
  {
    if order == [] || p.aborted then p
    else ProcessFrom(host, base, pol, order[1..], Step(host, base, pol, order[0], p))
  }

  /** One iteration of `ProcessFrom`, taken at position `i`. */
  lemma ProcessFromAt(host: Host, base: Path, pol: Policy, order: seq<Name>, i: nat, p: Pass)
    requires i < |order| && !p.aborted
    ensures ProcessFrom(host, base, pol, order[i..], p)
         == ProcessFrom(host, base, pol, order[i + 1..], Step(host, base, pol, order[i], p))
  {
    assert order[i..][1..] == order[i + 1..];
  }

  /** `process_log_path(base)` on a directory with children `l`. */
  function ProcessLogPath(host: Host, base: Path, pol: Policy, l: Listing, log: seq<Event>): Pass {
    ProcessFrom(host, base, pol, host.listdir(base, l.Keys), Pass(l, log, false))
  }

  /** A configured path that exists and is a directory. */
  predicate IsDirectory(roots: map<Path, Node>, p: Path) {
    p in roots && roots[p].Folder?
  }

  /** `run()` over the base paths still to come. */
  function RunFrom(host: Host, pol: Policy, paths: seq<Path>, w: World): World
    decreases |paths|
  {
    if paths == [] || w.aborted then w
    else
      var p := paths[0];
      if IsDirectory(w.roots, p) then
        var r := ProcessLogPath(host, p, pol, w.roots[p].children, w.log + [Processing(p)]);
        RunFrom(host, pol, paths[1..], World(w.roots[p := Folder(r.listing)], r.log, r.aborted))
      else
        RunFrom(host, pol, paths[1..], World(w.roots, w.log + [InvalidPath(p)], false))
  }
}
