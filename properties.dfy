/** What the retention pass guarantees, proved of the functions in
    `Retention`: the two cutoffs and their boundaries, the guard against
    overwriting an archive, archive-then-remove ordering (no folder is lost
    without its archive), the placement of the expiry pass inside the folder
    loop, and how `run` treats its base paths. */
module RetentionProperties {
  import opened Paths
  import opened FileSystem
  import opened Retention
  import Clock

  // ---------------------------------------------------------------------
  // The expiry pass (the inner `glob("*.zip")` loop)

  /** A `*.zip` entry is removed exactly when its time converts, it is
      strictly older than `old_zip_threshold` and `unlink` succeeds; the
      failure of one entry does not change what happens to another, and
      nothing else is touched. */
  lemma ExpireDecides(host: Host, base: Path, pol: Policy, p: Pass, n: Name)
    requires n in p.listing
    ensures var r := Expire(host, base, pol, p).listing;
            var e := p.listing[n];
            (n !in r <==> IsZipName(n) && Clock.Representable(e.mtime) && e.mtime < pol.oldZipThreshold &&
                          e.File? && !host.unlinkFails(base, n)) &&
            (n in r ==> r[n] == e)
  {
  }

  /** A zip whose time equals the cutoff is kept: the comparison is strict. */
  lemma ExpiryCutoffIsStrict(host: Host, base: Path, pol: Policy, p: Pass, n: Name)
    requires n in p.listing && p.listing[n].mtime == pol.oldZipThreshold
    ensures n in Expire(host, base, pol, p).listing
  {
  }

  /** Running the expiry pass a second time removes nothing more. This
      rests on `Host.unlinkFails` answering the same for a name every time:
      with that fixed answer, running the pass once per iteration gives the
      same listing as running it once. */
  lemma ExpireIdempotent(host: Host, base: Path, pol: Policy, p: Pass)
    ensures var once := Expire(host, base, pol, p);
            Expire(host, base, pol, once).listing == once.listing
  {
    var once := Expire(host, base, pol, p);
    var twice := Expire(host, base, pol, once);
    forall n | n in once.listing
      ensures n in twice.listing
    {
      ExpireDecides(host, base, pol, p, n);
      ExpireDecides(host, base, pol, once, n);
    }
  }

  /** Folders, and files at least as new as the cutoff, survive the
      expiry pass unchanged. */
  lemma ExpireKeeps(host: Host, base: Path, pol: Policy, p: Pass, n: Name)
    requires n in p.listing && (p.listing[n].Dir? || p.listing[n].mtime >= pol.oldZipThreshold)
    ensures n in Expire(host, base, pol, p).listing && Expire(host, base, pol, p).listing[n] == p.listing[n]
  {
  }

  // ---------------------------------------------------------------------
  // One iteration of the `iterdir` loop

  /** A stale folder (time at or before `threshold_time`, inclusive) whose
      archive does not exist yet is archived to its `.zip` sibling, with
      one entry per regular file; the folder is removed, or left with part
      of its files when `rmtree` fails, and the loop goes on. */
  lemma StaleFolderArchived(host: Host, base: Path, pol: Policy, p: Pass, n: Name)
    requires !p.aborted && n in p.listing && p.listing[n].Dir?
    requires Clock.Representable(p.listing[n].mtime) && p.listing[n].mtime <= pol.thresholdTime
    requires ZipPathOf(n) !in p.listing
    requires host.zipResult(base, ZipPathOf(n)).Written?
    requires host.zipTime(base, ZipPathOf(n)) >= pol.oldZipThreshold
    ensures var r := Step(host, base, pol, n, p);
            var z := ZipPathOf(n);
            !r.aborted &&
            z in r.listing &&
            r.listing[z] == File(host.zipTime(base, z), Archive(ArchiveOf(n, p.listing[n].files))) &&
            (host.rmtree(base, n).Removed? <==> n !in r.listing) &&
            (n in r.listing ==> r.listing[n].Dir? && r.listing[n].files <= p.listing[n].files)
  {
    var q := ArchiveAndRemove(host, base, n, p);
    var z := ZipPathOf(n);
    ExpireKeeps(host, base, pol, q, z);
    if n in q.listing {
      ExpireKeeps(host, base, pol, q, n);
    }
  }

  /** A child that is not a folder (a file, or a name no longer listed)
      is passed over: nothing changes and nothing is logged. */
  lemma NonFolderIgnored(host: Host, base: Path, pol: Policy, p: Pass, n: Name)
    requires n !in p.listing || p.listing[n].File?
    ensures Step(host, base, pol, n, p) == p
  {
  }

  /** When the archive already exists, the iteration writes nothing,
      removes nothing, runs no expiry pass and only reports the skip. */
  lemma ExistingArchiveBlocks(host: Host, base: Path, pol: Policy, p: Pass, n: Name)
    requires n in p.listing && p.listing[n].Dir?
    requires Clock.Representable(p.listing[n].mtime) && p.listing[n].mtime <= pol.thresholdTime
    requires ZipPathOf(n) in p.listing
    ensures Step(host, base, pol, n, p) == Pass(p.listing, p.log + [SkipZipped(base, ZipPathOf(n))], p.aborted)
  {
  }

  /** A folder newer than `threshold_time`, or one whose time does not
      convert, is never archived nor removed by an iteration. */
  predicate Untouchable(pol: Policy, e: Entry) {
    e.Dir? && (!Clock.Representable(e.mtime) || e.mtime > pol.thresholdTime)
  }

  lemma StepKeepsUntouchable(host: Host, base: Path, pol: Policy, m: Name, p: Pass, n: Name)
    requires !p.aborted && n in p.listing && Untouchable(pol, p.listing[n])
    ensures var r := Step(host, base, pol, m, p).listing;
            n in r && r[n] == p.listing[n]
  {
    var l := p.listing;
    if m in l && l[m].Dir? && Clock.Representable(l[m].mtime) && !(l[m].mtime <= pol.thresholdTime && ZipPathOf(m) in l) {
      var q := if l[m].mtime <= pol.thresholdTime then ArchiveAndRemove(host, base, m, p) else p;
      if !q.aborted {
        ExpireKeeps(host, base, pol, q, n);
      }
    }
  }

  lemma {:induction false} FreshFolderUntouched(host: Host, base: Path, pol: Policy, order: seq<Name>, p: Pass, n: Name)
    requires n in p.listing && Untouchable(pol, p.listing[n])
    ensures var r := ProcessFrom(host, base, pol, order, p).listing;
            n in r && r[n] == p.listing[n]
    decreases |order|
  {
    if order != [] && !p.aborted {
      StepKeepsUntouchable(host, base, pol, order[0], p, n);
      FreshFolderUntouched(host, base, pol, order[1..], Step(host, base, pol, order[0], p), n);
    }
  }

  // ---------------------------------------------------------------------
  // No folder is lost without its archive

  /** The archive of `n`, holding `files`, sits beside it and is too new to
      expire. */
  predicate HasArchive(pol: Policy, l: Listing, n: Name, files: set<RelPath>) {
    var z := ZipPathOf(n);
    z in l && l[z].File? && l[z].content == Archive(ArchiveOf(n, files)) && l[z].mtime >= pol.oldZipThreshold
  }

  /** Every folder of `l0` is still there as it was, or its archive of the
      files it had in `l0` is. */
  predicate Safe(pol: Policy, l0: Listing, l: Listing) {
    forall n :: n in l0 && l0[n].Dir? ==> (n in l && l[n] == l0[n]) || HasArchive(pol, l, n, l0[n].files)
  }

  /** An archive written now is at least as new as the expiry cutoff; this
      holds when the clock does not run backwards and the `del_zip` offset
      is not negative. */
  ghost predicate ArchivesSurvive(host: Host, base: Path, pol: Policy) {
    forall z :: host.zipTime(base, z) >= pol.oldZipThreshold
  }

  /** The expiry pass keeps every folder and every archive too new to expire. */
  lemma ExpireKeepsSafe(host: Host, base: Path, pol: Policy, l0: Listing, q: Pass)
    requires Safe(pol, l0, q.listing)
    ensures Safe(pol, l0, Expire(host, base, pol, q).listing)
  {
    var r := Expire(host, base, pol, q).listing;
    forall n | n in l0 && l0[n].Dir?
      ensures (n in r && r[n] == l0[n]) || HasArchive(pol, r, n, l0[n].files)
    {
      if n in q.listing && q.listing[n] == l0[n] {
        ExpireKeeps(host, base, pol, q, n);
      } else {
        ExpireKeeps(host, base, pol, q, ZipPathOf(n));
      }
    }
  }

  /** Writing the archive of `m` (to a name not yet taken) and then removing
      `m` keeps every folder or its archive; `m` itself now has its archive. */
  lemma ArchiveKeepsSafe(host: Host, base: Path, pol: Policy, m: Name, l0: Listing, p: Pass)
    requires ArchivesSurvive(host, base, pol) && Safe(pol, l0, p.listing)
    requires m in p.listing && p.listing[m].Dir? && ZipPathOf(m) !in p.listing
    ensures Safe(pol, l0, ArchiveAndRemove(host, base, m, p).listing)
  {
    var l := p.listing;
    var r := ArchiveAndRemove(host, base, m, p).listing;
    var dest := ZipPathOf(m);
    forall n | n in l0 && l0[n].Dir?
      ensures (n in r && r[n] == l0[n]) || HasArchive(pol, r, n, l0[n].files)
    {
      var z := ZipPathOf(n);
      if n in l && l[n] == l0[n] {
        if n == m && host.zipResult(base, dest).Written? {
          assert HasArchive(pol, r, n, l0[n].files);
        }
      } else {
        assert z in l && l[z].File? && z != dest && z != m;
      }
    }
  }

  lemma StepKeepsSafe(host: Host, base: Path, pol: Policy, m: Name, l0: Listing, p: Pass)
    requires !p.aborted && ArchivesSurvive(host, base, pol) && Safe(pol, l0, p.listing)
    ensures Safe(pol, l0, Step(host, base, pol, m, p).listing)
  {
    var l := p.listing;
    if m in l && l[m].Dir? && Clock.Representable(l[m].mtime) && !(l[m].mtime <= pol.thresholdTime && ZipPathOf(m) in l) {
      var q := if l[m].mtime <= pol.thresholdTime then ArchiveAndRemove(host, base, m, p) else p;
      if l[m].mtime <= pol.thresholdTime {
        ArchiveKeepsSafe(host, base, pol, m, l0, p);
      }
      if !q.aborted {
        ExpireKeepsSafe(host, base, pol, l0, q);
      }
    }
  }

  lemma {:induction false} ProcessKeepsSafe(host: Host, base: Path, pol: Policy, order: seq<Name>, l0: Listing, p: Pass)
    requires ArchivesSurvive(host, base, pol) && Safe(pol, l0, p.listing)
    ensures Safe(pol, l0, ProcessFrom(host, base, pol, order, p).listing)
    decreases |order|
  {
    if order != [] && !p.aborted {
      StepKeepsSafe(host, base, pol, order[0], l0, p);
      ProcessKeepsSafe(host, base, pol, order[1..], l0, Step(host, base, pol, order[0], p));
    }
  }

  /** Over a whole run: every folder of every base directory is either
      untouched or has its complete archive beside it at the end, whether
      `rmtree` failed, `zip_folder` raised, or the base path was listed
      more than once. */
  lemma {:induction false} RunNeverLosesAFolder(host: Host, pol: Policy, paths: seq<Path>, roots0: map<Path, Node>, w: World)
    requires forall b :: ArchivesSurvive(host, b, pol)
    requires forall q :: IsDirectory(roots0, q) ==> IsDirectory(w.roots, q) && Safe(pol, roots0[q].children, w.roots[q].children)
    ensures var r := RunFrom(host, pol, paths, w).roots;
            forall q :: IsDirectory(roots0, q) ==> IsDirectory(r, q) && Safe(pol, roots0[q].children, r[q].children)
    decreases |paths|
  {
    if paths != [] && !w.aborted {
      var p := paths[0];
      if IsDirectory(w.roots, p) {
        var r := ProcessLogPath(host, p, pol, w.roots[p].children, w.log + [Processing(p)]);
        var w' := World(w.roots[p := Folder(r.listing)], r.log, r.aborted);
        forall q | IsDirectory(roots0, q)
          ensures IsDirectory(w'.roots, q) && Safe(pol, roots0[q].children, w'.roots[q].children)
        {
          if q == p {
            ProcessKeepsSafe(host, p, pol, host.listdir(p, w.roots[p].children.Keys), roots0[q].children,
                             Pass(w.roots[p].children, w.log + [Processing(p)], false));
          }
        }
        RunNeverLosesAFolder(host, pol, paths[1..], roots0, w');
      } else {
        RunNeverLosesAFolder(host, pol, paths[1..], roots0, World(w.roots, w.log + [InvalidPath(p)], false));
      }
    }
  }

  // ---------------------------------------------------------------------
  // The expiry pass sits inside the folder loop

  /** When no iteration reaches the expiry pass (no child is a folder, or
      every folder is unreadable or already archived), the listing does not
      change at all: even zips far older than the cutoff stay. */
  predicate NoIterationReachesExpiry(pol: Policy, l: Listing) {
    forall k :: k in l && l[k].Dir? ==>
      !Clock.Representable(l[k].mtime) || (l[k].mtime <= pol.thresholdTime && ZipPathOf(k) in l)
  }

  lemma {:induction false} ExpiryNeedsAnIteration(host: Host, base: Path, pol: Policy, order: seq<Name>, p: Pass)
    requires NoIterationReachesExpiry(pol, p.listing)
    ensures ProcessFrom(host, base, pol, order, p).listing == p.listing
    decreases |order|
  {
    if order != [] && !p.aborted {
      ExpiryNeedsAnIteration(host, base, pol, order[1..], Step(host, base, pol, order[0], p));
    }
  }

  // ---------------------------------------------------------------------
  // The run over the base paths (`run`)

  lemma StepLogGrows(host: Host, base: Path, pol: Policy, m: Name, p: Pass)
    ensures p.log <= Step(host, base, pol, m, p).log
  {
  }

  lemma {:induction false} ProcessLogGrows(host: Host, base: Path, pol: Policy, order: seq<Name>, p: Pass)
    ensures p.log <= ProcessFrom(host, base, pol, order, p).log
    decreases |order|
  {
    if order != [] && !p.aborted {
      StepLogGrows(host, base, pol, order[0], p);
      ProcessLogGrows(host, base, pol, order[1..], Step(host, base, pol, order[0], p));
    }
  }

  /** A path that does not exist or is not a directory, and a path not
      configured, is left exactly as it was; no path appears or vanishes. */
  lemma {:induction false} RunLeavesOthersAlone(host: Host, pol: Policy, paths: seq<Path>, w: World)
    ensures var r := RunFrom(host, pol, paths, w);
            r.roots.Keys == w.roots.Keys &&
            (forall q :: q in w.roots && (!w.roots[q].Folder? || q !in paths) ==> r.roots[q] == w.roots[q]) &&
            w.log <= r.log
    decreases |paths|
  {
    if paths != [] && !w.aborted {
      var p := paths[0];
      if IsDirectory(w.roots, p) {
        var r := ProcessLogPath(host, p, pol, w.roots[p].children, w.log + [Processing(p)]);
        ProcessLogGrows(host, p, pol, host.listdir(p, w.roots[p].children.Keys),
                        Pass(w.roots[p].children, w.log + [Processing(p)], false));
        RunLeavesOthersAlone(host, pol, paths[1..], World(w.roots[p := Folder(r.listing)], r.log, r.aborted));
      } else {
        RunLeavesOthersAlone(host, pol, paths[1..], World(w.roots, w.log + [InvalidPath(p)], false));
      }
    }
  }

  lemma InLongerLog(x: Event, a: seq<Event>, b: seq<Event>)
    requires x in a && a <= b
    ensures x in b
  {
    var k :| 0 <= k < |a| && a[k] == x;
    assert b[k] == x;
  }

  /** A run that no `zip_folder` failure cut short reports every configured
      path, as processed or as invalid. */
  predicate Reports(paths: seq<Path>, log: seq<Event>) {
    forall i :: 0 <= i < |paths| ==> Processing(paths[i]) in log || InvalidPath(paths[i]) in log
  }

  lemma {:induction false} RunReportsEveryPath(host: Host, pol: Policy, paths: seq<Path>, w: World)
    requires !w.aborted
    ensures var r := RunFrom(host, pol, paths, w);
            !r.aborted ==> Reports(paths, r.log)
    decreases |paths|
  {
    if paths != [] {
      var p := paths[0];
      var ev := if IsDirectory(w.roots, p) then Processing(p) else InvalidPath(p);
      var w': World;
      if IsDirectory(w.roots, p) {
        var r := ProcessLogPath(host, p, pol, w.roots[p].children, w.log + [Processing(p)]);
        w' := World(w.roots[p := Folder(r.listing)], r.log, r.aborted);
        ProcessLogGrows(host, p, pol, host.listdir(p, w.roots[p].children.Keys),
                        Pass(w.roots[p].children, w.log + [Processing(p)], false));
      } else {
        w' := World(w.roots, w.log + [InvalidPath(p)], false);
      }
      InLongerLog(ev, w.log + [ev], w'.log);
      var r := RunFrom(host, pol, paths, w);
      assert r == RunFrom(host, pol, paths[1..], w');
      if !w'.aborted {
        RunReportsEveryPath(host, pol, paths[1..], w');
        RunLeavesOthersAlone(host, pol, paths[1..], w');
        InLongerLog(ev, w'.log, r.log);
        if !r.aborted {
          assert Reports(paths[1..], r.log);
          forall i | 0 <= i < |paths| ensures Processing(paths[i]) in r.log || InvalidPath(paths[i]) in r.log {
            if i > 0 {
              assert paths[i] == paths[1..][i - 1];
            } else {
              assert ev == Processing(paths[i]) || ev == InvalidPath(paths[i]);
            }
          }
        }
      }
    }
  }
}
