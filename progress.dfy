/** What a pass over one base directory achieves when `iterdir` lists every
    child once (`Enumerates`) and no `zip_folder` call raises: every stale,
    readable folder with a free archive name ends up archived, and once an
    iteration reaches the expiry pass no old, removable zip is left. */
module RetentionProgress {
  import opened Paths
  import opened FileSystem
  import opened Retention
  import opened RetentionProperties
  import Clock

  // ---------------------------------------------------------------------
  // Stale folders are archived

  /** Every folder in `l` was already a folder in `l0`: no step creates one. */
  predicate DirsFrom(l0: Listing, l: Listing) {
    forall k :: k in l && l[k].Dir? ==> k in l0 && l0[k].Dir?
  }

  /** No other folder of `l0` has the same archive name as `n`. */
  predicate NotShared(l0: Listing, n: Name) {
    forall m :: m in l0 && m != n && l0[m].Dir? ==> ZipPathOf(m) != ZipPathOf(n)
  }

  /** A folder that the pass must archive: its time converts, it is at or
      before `threshold_time`, and its archive name is free in `l0` and not
      the archive name of another folder. */
  predicate Eligible(pol: Policy, l0: Listing, n: Name) {
    n in l0 && l0[n].Dir? && Clock.Representable(l0[n].mtime) && l0[n].mtime <= pol.thresholdTime &&
    ZipPathOf(n) !in l0 && NotShared(l0, n)
  }

  /** Before its own iteration: `n` as it was, and its archive name free. */
  predicate Pending(l0: Listing, l: Listing, n: Name)
    requires n in l0
  {
    n in l && l[n] == l0[n] && ZipPathOf(n) !in l
  }

  /** After its own iteration: the full archive of `n` sits beside it, and
      `n` is gone exactly when `rmtree` succeeded. */
  predicate Done(host: Host, base: Path, pol: Policy, l0: Listing, l: Listing, n: Name)
    requires n in l0 && l0[n].Dir?
  {
    HasArchive(pol, l, n, l0[n].files) &&
    (n !in l <==> host.rmtree(base, n).Removed?) &&
    (n in l ==> l[n].Dir?)
  }

  /** The expiry pass only removes entries. */
  lemma ExpireShrinks(host: Host, base: Path, pol: Policy, p: Pass)
    ensures var r := Expire(host, base, pol, p).listing;
            r.Keys <= p.listing.Keys && forall k :: k in r ==> r[k] == p.listing[k]
  {
  }

  lemma ArchiveDirsFrom(host: Host, base: Path, m: Name, l0: Listing, p: Pass)
    requires m in p.listing && p.listing[m].Dir? && ZipPathOf(m) !in p.listing
    requires DirsFrom(l0, p.listing)
    ensures DirsFrom(l0, ArchiveAndRemove(host, base, m, p).listing)
  {
  }

  lemma StepDirsFrom(host: Host, base: Path, pol: Policy, m: Name, l0: Listing, p: Pass)
    requires DirsFrom(l0, p.listing)
    ensures DirsFrom(l0, Step(host, base, pol, m, p).listing)
  {
    var l := p.listing;
    if m in l && l[m].Dir? && Clock.Representable(l[m].mtime) && !(l[m].mtime <= pol.thresholdTime && ZipPathOf(m) in l) {
      var q := if l[m].mtime <= pol.thresholdTime then ArchiveAndRemove(host, base, m, p) else p;
      if l[m].mtime <= pol.thresholdTime {
        ArchiveDirsFrom(host, base, m, l0, p);
      }
      ExpireShrinks(host, base, pol, q);
    }
  }

  lemma ArchiveKeepsPending(host: Host, base: Path, m: Name, l0: Listing, p: Pass, n: Name)
    requires m in p.listing && p.listing[m].Dir? && ZipPathOf(m) !in p.listing
    requires m != n && n in l0 && ZipPathOf(m) != ZipPathOf(n) && Pending(l0, p.listing, n)
    ensures Pending(l0, ArchiveAndRemove(host, base, m, p).listing, n)
  {
  }

  lemma StepKeepsPending(host: Host, base: Path, pol: Policy, m: Name, l0: Listing, p: Pass, n: Name)
    requires m != n && DirsFrom(l0, p.listing) && n in l0 && l0[n].Dir? && NotShared(l0, n) && Pending(l0, p.listing, n)
    ensures Pending(l0, Step(host, base, pol, m, p).listing, n)
  {
    var l := p.listing;
    if m in l && l[m].Dir? && Clock.Representable(l[m].mtime) && !(l[m].mtime <= pol.thresholdTime && ZipPathOf(m) in l) {
      var q := if l[m].mtime <= pol.thresholdTime then ArchiveAndRemove(host, base, m, p) else p;
      if l[m].mtime <= pol.thresholdTime {
        assert m in l0 && l0[m].Dir?;
        ArchiveKeepsPending(host, base, m, l0, p, n);
      }
      if !q.aborted {
        ExpireKeepsPending(host, base, pol, l0, q, n);
      }
    }
  }

  lemma ExpireKeepsPending(host: Host, base: Path, pol: Policy, l0: Listing, q: Pass, n: Name)
    requires n in l0 && l0[n].Dir? && Pending(l0, q.listing, n)
    ensures Pending(l0, Expire(host, base, pol, q).listing, n)
  {
    ExpireShrinks(host, base, pol, q);
    ExpireKeeps(host, base, pol, q, n);
  }

  lemma StepArchivesEligible(host: Host, base: Path, pol: Policy, l0: Listing, p: Pass, n: Name)
    requires ArchivesSurvive(host, base, pol)
    requires n in l0 && l0[n].Dir? && Clock.Representable(l0[n].mtime) && l0[n].mtime <= pol.thresholdTime
    requires Pending(l0, p.listing, n)
    ensures var r := Step(host, base, pol, n, p);
            !r.aborted ==> Done(host, base, pol, l0, r.listing, n)
  {
    if host.zipResult(base, ZipPathOf(n)).Written? && !p.aborted {
      StaleFolderArchived(host, base, pol, p, n);
    }
  }

  lemma ArchiveKeepsDone(host: Host, base: Path, pol: Policy, m: Name, l0: Listing, p: Pass, n: Name)
    requires m in p.listing && p.listing[m].Dir? && ZipPathOf(m) !in p.listing
    requires m != n && n in l0 && l0[n].Dir? && Done(host, base, pol, l0, p.listing, n)
    ensures Done(host, base, pol, l0, ArchiveAndRemove(host, base, m, p).listing, n)
  {
    var l := p.listing;
    var z := ZipPathOf(n);
    var dest := ZipPathOf(m);
    if dest == n {
      ArchiveNameIsFixed(m);
      assert false;
    }
    assert dest != z && m != z;
    var zipped := AfterWrite(host, base, dest, ArchiveOf(m, l[m].files), l);
    assert z in zipped && zipped[z] == l[z];
    assert n in zipped <==> n in l;
    assert n in l ==> zipped[n] == l[n];
    if host.zipResult(base, dest).Written? {
      var r := AfterRmtree(host, base, m, zipped);
      assert ArchiveAndRemove(host, base, m, p).listing == r;
      assert z in r && r[z] == l[z];
      assert n in r <==> n in l;
      assert n in l ==> r[n] == l[n];
    } else {
      assert ArchiveAndRemove(host, base, m, p).listing == zipped;
    }
  }

  lemma ExpireKeepsDone(host: Host, base: Path, pol: Policy, l0: Listing, q: Pass, n: Name)
    requires n in l0 && l0[n].Dir? && Done(host, base, pol, l0, q.listing, n)
    ensures Done(host, base, pol, l0, Expire(host, base, pol, q).listing, n)
  {
    ExpireShrinks(host, base, pol, q);
    ExpireKeeps(host, base, pol, q, ZipPathOf(n));
    if n in q.listing {
      ExpireKeeps(host, base, pol, q, n);
    }
  }

  lemma StepKeepsDone(host: Host, base: Path, pol: Policy, m: Name, l0: Listing, p: Pass, n: Name)
    requires m != n && n in l0 && l0[n].Dir? && Done(host, base, pol, l0, p.listing, n)
    ensures Done(host, base, pol, l0, Step(host, base, pol, m, p).listing, n)
  {
    var l := p.listing;
    if m in l && l[m].Dir? && Clock.Representable(l[m].mtime) && !(l[m].mtime <= pol.thresholdTime && ZipPathOf(m) in l) {
      var q := if l[m].mtime <= pol.thresholdTime then ArchiveAndRemove(host, base, m, p) else p;
      if l[m].mtime <= pol.thresholdTime {
        ArchiveKeepsDone(host, base, pol, m, l0, p, n);
      }
      if !q.aborted {
        ExpireKeepsDone(host, base, pol, l0, q, n);
      }
    }
  }

  lemma {:induction false} ProcessArchivesEligible(host: Host, base: Path, pol: Policy, order: seq<Name>, l0: Listing, p: Pass, n: Name)
    requires ArchivesSurvive(host, base, pol) && DirsFrom(l0, p.listing) && Eligible(pol, l0, n)
    requires forall i, j :: 0 <= i < j < |order| ==> order[i] != order[j]
    requires if n in order then Pending(l0, p.listing, n) else Done(host, base, pol, l0, p.listing, n)
    ensures var r := ProcessFrom(host, base, pol, order, p);
            !r.aborted ==> Done(host, base, pol, l0, r.listing, n)
    decreases |order|
  {
    if order != [] && !p.aborted {
      var m := order[0];
      var q := Step(host, base, pol, m, p);
      assert order == [m] + order[1..];
      assert forall i, j :: 0 <= i < j < |order[1..]| ==> order[1..][i] != order[1..][j] by {
        forall i, j | 0 <= i < j < |order[1..]| ensures order[1..][i] != order[1..][j] {
          assert order[1..][i] == order[i + 1] && order[1..][j] == order[j + 1];
        }
      }
      StepDirsFrom(host, base, pol, m, l0, p);
      if m == n {
        assert n !in order[1..] by {
          forall j | 0 <= j < |order[1..]| ensures order[1..][j] != n {
            assert order[1..][j] == order[j + 1];
          }
        }
        StepArchivesEligible(host, base, pol, l0, p, n);
      } else if n in order[1..] {
        StepKeepsPending(host, base, pol, m, l0, p, n);
      } else {
        StepKeepsDone(host, base, pol, m, l0, p, n);
      }
      if !q.aborted {
        ProcessArchivesEligible(host, base, pol, order[1..], l0, q, n);
      }
    }
  }

  /** `process_log_path` over a directory listed once: every folder at or
      before `threshold_time` whose time converts and whose archive name is
      free (and not shared with another folder) ends with its complete
      archive beside it, and it is gone exactly when `rmtree` succeeded,
      unless some `zip_folder` call raised. */
  lemma PassArchivesStaleFolders(host: Host, base: Path, pol: Policy, l: Listing, log: seq<Event>, n: Name)
    requires Enumerates(host.listdir(base, l.Keys), l.Keys)
    requires ArchivesSurvive(host, base, pol) && Eligible(pol, l, n)
    ensures var r := ProcessLogPath(host, base, pol, l, log);
            !r.aborted ==>
              HasArchive(pol, r.listing, n, l[n].files) &&
              (n !in r.listing <==> host.rmtree(base, n).Removed?)
  {
    ProcessArchivesEligible(host, base, pol, host.listdir(base, l.Keys), l, Pass(l, log, false), n);
  }

  // ---------------------------------------------------------------------
  // Old zips go once an iteration reaches the expiry pass

  /** No entry is a zip that the expiry pass would remove. */
  predicate NoExpiredLeft(host: Host, base: Path, pol: Policy, l: Listing) {
    forall z :: z in l ==> !Unlinked(host, base, pol, z, l[z])
  }

  /** The iteration for `m` gets past every `continue` to the expiry pass. */
  predicate ReachesExpiry(pol: Policy, m: Name, l: Listing) {
    m in l && l[m].Dir? && Clock.Representable(l[m].mtime) &&
    !(l[m].mtime <= pol.thresholdTime && ZipPathOf(m) in l)
  }

  lemma ExpireClears(host: Host, base: Path, pol: Policy, p: Pass)
    ensures NoExpiredLeft(host, base, pol, Expire(host, base, pol, p).listing)
  {
    var r := Expire(host, base, pol, p).listing;
    forall z | z in r ensures !Unlinked(host, base, pol, z, r[z]) {
      ExpireDecides(host, base, pol, p, z);
    }
  }

  /** A new archive is at least as new as the cutoff and a part-removed
      folder is a folder: no step creates an entry the expiry pass removes. */
  lemma StepKeepsNoExpiredLeft(host: Host, base: Path, pol: Policy, m: Name, p: Pass)
    requires ArchivesSurvive(host, base, pol) && NoExpiredLeft(host, base, pol, p.listing)
    ensures NoExpiredLeft(host, base, pol, Step(host, base, pol, m, p).listing)
  {
    var l := p.listing;
    if m in l && l[m].Dir? && Clock.Representable(l[m].mtime) && !(l[m].mtime <= pol.thresholdTime && ZipPathOf(m) in l) {
      var q := if l[m].mtime <= pol.thresholdTime then ArchiveAndRemove(host, base, m, p) else p;
      if l[m].mtime <= pol.thresholdTime {
        ArchiveKeepsNoExpiredLeft(host, base, pol, m, p);
      }
      if !q.aborted {
        ExpireClears(host, base, pol, q);
      }
    }
  }

  lemma ArchiveKeepsNoExpiredLeft(host: Host, base: Path, pol: Policy, m: Name, p: Pass)
    requires m in p.listing && p.listing[m].Dir? && ZipPathOf(m) !in p.listing
    requires ArchivesSurvive(host, base, pol) && NoExpiredLeft(host, base, pol, p.listing)
    ensures NoExpiredLeft(host, base, pol, ArchiveAndRemove(host, base, m, p).listing)
  {
    var l := p.listing;
    var dest := ZipPathOf(m);
    var zipped := AfterWrite(host, base, dest, ArchiveOf(m, l[m].files), l);
    assert NoExpiredLeft(host, base, pol, zipped) by {
      forall z | z in zipped ensures !Unlinked(host, base, pol, z, zipped[z]) {
        if z == dest && zipped != l {
          assert zipped[z].mtime == host.zipTime(base, dest);
        }
      }
    }
    if host.zipResult(base, dest).Written? {
      assert ArchiveAndRemove(host, base, m, p).listing == AfterRmtree(host, base, m, zipped);
    }
  }

  lemma {:induction false} ProcessKeepsNoExpiredLeft(host: Host, base: Path, pol: Policy, order: seq<Name>, p: Pass)
    requires ArchivesSurvive(host, base, pol) && NoExpiredLeft(host, base, pol, p.listing)
    ensures NoExpiredLeft(host, base, pol, ProcessFrom(host, base, pol, order, p).listing)
    decreases |order|
  {
    if order != [] && !p.aborted {
      StepKeepsNoExpiredLeft(host, base, pol, order[0], p);
      ProcessKeepsNoExpiredLeft(host, base, pol, order[1..], Step(host, base, pol, order[0], p));
    }
  }

  lemma {:induction false} ProcessFromSplit(host: Host, base: Path, pol: Policy, a: seq<Name>, b: seq<Name>, p: Pass)
    ensures ProcessFrom(host, base, pol, a + b, p) == ProcessFrom(host, base, pol, b, ProcessFrom(host, base, pol, a, p))
    decreases |a|
  {
    if a == [] {
      assert a + b == b;
    } else if !p.aborted {
      assert (a + b)[1..] == a[1..] + b;
      ProcessFromSplit(host, base, pol, a[1..], b, Step(host, base, pol, a[0], p));
    }
  }

  /** Once the iteration at position `i` reaches the expiry pass, the pass
      ends with no old, removable zip, unless `zip_folder` raised. */
  lemma ExpiryReachedClearsOldZips(host: Host, base: Path, pol: Policy, order: seq<Name>, p: Pass, i: nat)
    requires ArchivesSurvive(host, base, pol) && i < |order|
    requires ReachesExpiry(pol, order[i], ProcessFrom(host, base, pol, order[..i], p).listing)
    ensures var r := ProcessFrom(host, base, pol, order, p);
            !r.aborted ==> NoExpiredLeft(host, base, pol, r.listing)
  {
    var q := ProcessFrom(host, base, pol, order[..i], p);
    assert order == order[..i] + order[i..];
    ProcessFromSplit(host, base, pol, order[..i], order[i..], p);
    if !q.aborted {
      ProcessFromAt(host, base, pol, order, i, q);
      var s := Step(host, base, pol, order[i], q);
      if !s.aborted {
        var t := if q.listing[order[i]].mtime <= pol.thresholdTime then ArchiveAndRemove(host, base, order[i], q) else q;
        ExpireClears(host, base, pol, t);
        ProcessKeepsNoExpiredLeft(host, base, pol, order[i + 1..], s);
      }
    }
  }

  /** A folder newer than `threshold_time` whose time converts always
      reaches the expiry pass, so after the pass every zip of `l` that is
      strictly older than `old_zip_threshold` and removable is gone (or is
      a newly written archive of the same name). */
  lemma FreshFolderExpiresOldZips(host: Host, base: Path, pol: Policy, l: Listing, log: seq<Event>, n: Name)
    requires ArchivesSurvive(host, base, pol)
    requires n in host.listdir(base, l.Keys)
    requires n in l && l[n].Dir? && Clock.Representable(l[n].mtime) && l[n].mtime > pol.thresholdTime
    ensures var r := ProcessLogPath(host, base, pol, l, log);
            !r.aborted ==>
              NoExpiredLeft(host, base, pol, r.listing) &&
              forall z :: z in l && Unlinked(host, base, pol, z, l[z]) ==> z !in r.listing || r.listing[z] != l[z]
  {
    var order := host.listdir(base, l.Keys);
    var p := Pass(l, log, false);
    var i :| 0 <= i < |order| && order[i] == n;
    FreshFolderUntouched(host, base, pol, order[..i], p, n);
    ExpiryReachedClearsOldZips(host, base, pol, order, p, i);
  }
}
