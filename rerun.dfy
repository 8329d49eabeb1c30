/** Running the retention pass twice. A second run with the same cutoffs
    and host changes nothing when the first run did not abort and no
    removable zip older than `old_zip_threshold` existed at its start
    (`SecondRunChangesNothing`). Without that condition it does not hold:
    a stale folder skipped because its old archive exists is archived on
    the next run once another folder's expiry pass has removed that
    archive (`RerunArchivesSkippedFolder`), or later in the same run when
    the listing puts it after that folder (`SameRunArchivesExpiredFolder`). */
module RetentionRerun {
  import opened Paths
  import opened FileSystem
  import opened Retention
  import opened RetentionProperties
  import opened RetentionProgress
  import Clock

  /** A stale folder whose time converts has its archive beside it. */
  predicate Settled(pol: Policy, l: Listing, k: Name) {
    k in l && l[k].Dir? && Clock.Representable(l[k].mtime) && l[k].mtime <= pol.thresholdTime ==> ZipPathOf(k) in l
  }

  /** A listing on which the pass has nothing left to do. */
  predicate Stable(host: Host, base: Path, pol: Policy, l: Listing) {
    NoExpiredLeft(host, base, pol, l) && forall k :: k in l ==> Settled(pol, l, k)
  }

  // ---------------------------------------------------------------------
  // A stable listing is left as it is

  lemma ExpireNoop(host: Host, base: Path, pol: Policy, q: Pass)
    requires NoExpiredLeft(host, base, pol, q.listing)
    ensures Expire(host, base, pol, q).listing == q.listing
  {
    var r := Expire(host, base, pol, q).listing;
    forall k | k in q.listing ensures k in r {
      ExpireDecides(host, base, pol, q, k);
    }
    ExpireShrinks(host, base, pol, q);
  }

  lemma StableStep(host: Host, base: Path, pol: Policy, m: Name, p: Pass)
    requires Stable(host, base, pol, p.listing)
    ensures Step(host, base, pol, m, p).listing == p.listing
    ensures Step(host, base, pol, m, p).aborted == p.aborted
  {
    var l := p.listing;
    if m in l && l[m].Dir? && Clock.Representable(l[m].mtime) {
      assert Settled(pol, l, m);
      if l[m].mtime > pol.thresholdTime {
        ExpireNoop(host, base, pol, p);
      }
    }
  }

  lemma {:induction false} StableProcess(host: Host, base: Path, pol: Policy, order: seq<Name>, p: Pass)
    requires Stable(host, base, pol, p.listing)
    ensures ProcessFrom(host, base, pol, order, p).listing == p.listing
    ensures ProcessFrom(host, base, pol, order, p).aborted == p.aborted
    decreases |order|
  {
    if order != [] && !p.aborted {
      var q := Step(host, base, pol, order[0], p);
      StableStep(host, base, pol, order[0], p);
      assert Stable(host, base, pol, q.listing);
      StableProcess(host, base, pol, order[1..], q);
    }
  }

  // ---------------------------------------------------------------------
  // The first pass leaves a stable listing

  lemma ArchiveSettles(host: Host, base: Path, m: Name, pol: Policy, p: Pass, k: Name)
    requires m in p.listing && p.listing[m].Dir? && ZipPathOf(m) !in p.listing
    requires k == m || Settled(pol, p.listing, k)
    ensures var r := ArchiveAndRemove(host, base, m, p);
            !r.aborted ==> Settled(pol, r.listing, k)
  {
    var l := p.listing;
    var dest := ZipPathOf(m);
    if host.zipResult(base, dest).Written? {
      var zipped := AfterWrite(host, base, dest, ArchiveOf(m, l[m].files), l);
      var r := AfterRmtree(host, base, m, zipped);
      assert ArchiveAndRemove(host, base, m, p).listing == r;
      assert dest in r && r[dest].File?;
      if k != m && k in r && r[k].Dir? && Clock.Representable(r[k].mtime) && r[k].mtime <= pol.thresholdTime {
        assert k != dest && r[k] == l[k];
        var z := ZipPathOf(k);
        assert z in l;
        if z == m {
          ArchiveNameIsFixed(k);
          assert false;
        }
        assert z in r;
      }
    }
  }

  lemma StepSettles(host: Host, base: Path, pol: Policy, m: Name, p: Pass, k: Name)
    requires ArchivesSurvive(host, base, pol) && NoExpiredLeft(host, base, pol, p.listing)
    requires k == m || Settled(pol, p.listing, k)
    ensures var r := Step(host, base, pol, m, p);
            !r.aborted ==> Settled(pol, r.listing, k)
  {
    var l := p.listing;
    if m in l && l[m].Dir? && Clock.Representable(l[m].mtime) && !(l[m].mtime <= pol.thresholdTime && ZipPathOf(m) in l) {
      var q := if l[m].mtime <= pol.thresholdTime then ArchiveAndRemove(host, base, m, p) else p;
      if l[m].mtime <= pol.thresholdTime {
        ArchiveSettles(host, base, m, pol, p, k);
        ArchiveKeepsNoExpiredLeft(host, base, pol, m, p);
      }
      if !q.aborted {
        ExpireNoop(host, base, pol, q);
      }
    }
  }

  lemma {:induction false} ProcessSettles(host: Host, base: Path, pol: Policy, order: seq<Name>, p: Pass, k: Name)
    requires ArchivesSurvive(host, base, pol) && NoExpiredLeft(host, base, pol, p.listing)
    requires k in order || Settled(pol, p.listing, k)
    ensures var r := ProcessFrom(host, base, pol, order, p);
            !r.aborted ==> Settled(pol, r.listing, k)
    decreases |order|
  {
    if order != [] && !p.aborted {
      var q := Step(host, base, pol, order[0], p);
      assert order == [order[0]] + order[1..];
      if k == order[0] || Settled(pol, p.listing, k) {
        StepSettles(host, base, pol, order[0], p, k);
      }
      StepKeepsNoExpiredLeft(host, base, pol, order[0], p);
      if !q.aborted {
        ProcessSettles(host, base, pol, order[1..], q, k);
      }
    }
  }

  /** A pass over a directory listed once, with no old removable zip at
      its start, leaves a stable listing unless `zip_folder` raised. */
  lemma PassMakesStable(host: Host, base: Path, pol: Policy, l: Listing, log: seq<Event>)
    requires Enumerates(host.listdir(base, l.Keys), l.Keys)
    requires ArchivesSurvive(host, base, pol) && NoExpiredLeft(host, base, pol, l)
    ensures var r := ProcessLogPath(host, base, pol, l, log);
            !r.aborted ==> Stable(host, base, pol, r.listing)
  {
    var order := host.listdir(base, l.Keys);
    var p := Pass(l, log, false);
    var r := ProcessLogPath(host, base, pol, l, log);
    ProcessKeepsNoExpiredLeft(host, base, pol, order, p);
    forall k ensures !r.aborted ==> Settled(pol, r.listing, k) {
      ProcessSettles(host, base, pol, order, p, k);
    }
  }

  /** Running `process_log_path` twice on one directory: the second pass
      neither changes the listing nor aborts. */
  lemma SecondPassChangesNothing(host: Host, base: Path, pol: Policy, l: Listing, log1: seq<Event>, log2: seq<Event>)
    requires Enumerates(host.listdir(base, l.Keys), l.Keys)
    requires ArchivesSurvive(host, base, pol) && NoExpiredLeft(host, base, pol, l)
    ensures var r1 := ProcessLogPath(host, base, pol, l, log1);
            !r1.aborted ==>
              var r2 := ProcessLogPath(host, base, pol, r1.listing, log2);
              r2.listing == r1.listing && !r2.aborted
  {
    var r1 := ProcessLogPath(host, base, pol, l, log1);
    PassMakesStable(host, base, pol, l, log1);
    if !r1.aborted {
      StableProcess(host, base, pol, host.listdir(base, r1.listing.Keys), Pass(r1.listing, log2, false));
    }
  }

  // ---------------------------------------------------------------------
  // The same for `run`

  lemma {:induction false} StableRunChangesNothing(host: Host, pol: Policy, paths: seq<Path>, w: World)
    requires forall b :: b in paths && IsDirectory(w.roots, b) ==> Stable(host, b, pol, w.roots[b].children)
    ensures RunFrom(host, pol, paths, w).roots == w.roots
    ensures RunFrom(host, pol, paths, w).aborted == w.aborted
    decreases |paths|
  {
    if paths != [] && !w.aborted {
      var p := paths[0];
      if IsDirectory(w.roots, p) {
        var l := w.roots[p].children;
        var r := ProcessLogPath(host, p, pol, l, w.log + [Processing(p)]);
        StableProcess(host, p, pol, host.listdir(p, l.Keys), Pass(l, w.log + [Processing(p)], false));
        assert w.roots[p := Folder(r.listing)] == w.roots;
        StableRunChangesNothing(host, pol, paths[1..], World(w.roots, r.log, r.aborted));
      } else {
        StableRunChangesNothing(host, pol, paths[1..], World(w.roots, w.log + [InvalidPath(p)], false));
      }
    }
  }

  lemma {:induction false} RunStabilises(host: Host, pol: Policy, paths: seq<Path>, w: World, done: set<Path>)
    requires ListsEachOnce(host) && forall b :: ArchivesSurvive(host, b, pol)
    requires forall b :: IsDirectory(w.roots, b) ==> NoExpiredLeft(host, b, pol, w.roots[b].children)
    requires forall b :: b in done && IsDirectory(w.roots, b) ==> Stable(host, b, pol, w.roots[b].children)
    ensures var r := RunFrom(host, pol, paths, w);
            !r.aborted ==>
              forall b :: (b in paths || b in done) && IsDirectory(r.roots, b) ==> Stable(host, b, pol, r.roots[b].children)
    decreases |paths|
  {
    if paths != [] && !w.aborted {
      var p := paths[0];
      assert paths == [p] + paths[1..];
      if IsDirectory(w.roots, p) {
        var l := w.roots[p].children;
        var r := ProcessLogPath(host, p, pol, l, w.log + [Processing(p)]);
        var w' := World(w.roots[p := Folder(r.listing)], r.log, r.aborted);
        if !r.aborted {
          assert Enumerates(host.listdir(p, l.Keys), l.Keys);
          PassMakesStable(host, p, pol, l, w.log + [Processing(p)]);
          RunStabilises(host, pol, paths[1..], w', done + {p});
        }
      } else {
        RunStabilises(host, pol, paths[1..], World(w.roots, w.log + [InvalidPath(p)], false), done + {p});
      }
    }
  }

  /** Running `run` twice with the same cutoffs and host: when no listed
      directory holds a removable zip older than `old_zip_threshold` and
      the first run completes, the second changes no directory and
      completes too. */
  lemma SecondRunChangesNothing(host: Host, pol: Policy, paths: seq<Path>, roots: map<Path, Node>, log1: seq<Event>, log2: seq<Event>)
    requires ListsEachOnce(host) && forall b :: ArchivesSurvive(host, b, pol)
    requires forall b :: IsDirectory(roots, b) ==> NoExpiredLeft(host, b, pol, roots[b].children)
    ensures var r1 := RunFrom(host, pol, paths, World(roots, log1, false));
            !r1.aborted ==>
              var r2 := RunFrom(host, pol, paths, World(r1.roots, log2, false));
              r2.roots == r1.roots && !r2.aborted
  {
    var r1 := RunFrom(host, pol, paths, World(roots, log1, false));
    RunStabilises(host, pol, paths, World(roots, log1, false), {});
    if !r1.aborted {
      StableRunChangesNothing(host, pol, paths, World(r1.roots, log2, false));
    }
  }

  // ---------------------------------------------------------------------
  // Without the condition: an expired archive lets its folder be archived

  /** Base `logs` holds a stale folder `a` whose archive `a.zip` is older
      than the expiry cutoff, and a fresh folder `b`. Every operation
      succeeds. `aFirst` chooses whether `iterdir` lists `a` before `b`;
      any other directory is listed in some order, each child once. */
  ghost function ExampleHost(aFirst: bool): Host {
    Host((b: Path, keys: set<Name>) =>
           if keys == {"a", "a.zip", "b"} then (if aFirst then ["a", "a.zip", "b"] else ["b", "a.zip", "a"])
           else if keys == {"a", "b"} then (if aFirst then ["a", "b"] else ["b", "a"])
           else SetToSeq(keys),
         (b: Path, z: Name) => Written,
         (b: Path, z: Name) => 1000,
         (b: Path, n: Name) => Removed,
         (b: Path, n: Name) => false)
  }

  /** Some order of the names of `s`, each once. */
  ghost function SetToSeq(s: set<Name>): (r: seq<Name>)
    ensures Enumerates(r, s)
    decreases |s|
  {
    if s == {} then []
    else
      var x :| x in s;
      var rest := SetToSeq(s - {x});
      assert forall i :: 0 <= i < |rest| ==> rest[i] != x;
      [x] + rest
  }

  /** The orders `iterdir` gives for the two listings of the example. */
  lemma ExampleOrders(aFirst: bool)
    ensures ExampleHost(aFirst).listdir("logs", ExampleListing().Keys)
         == if aFirst then ["a", "a.zip", "b"] else ["b", "a.zip", "a"]
    ensures ExampleHost(aFirst).listdir("logs", ExampleExpired().Keys)
         == if aFirst then ["a", "b"] else ["b", "a"]
  {
    assert ExampleListing().Keys == {"a", "a.zip", "b"};
    assert ExampleExpired().Keys == {"a", "b"};
  }

  /** Every archive the example host writes outlives the expiry cutoff. */
  lemma ExampleSurvives(aFirst: bool)
    ensures forall b :: ArchivesSurvive(ExampleHost(aFirst), b, ExamplePolicy())
  {
  }

  /** The example host lists every directory's children once. */
  lemma ExampleListsEachOnce(aFirst: bool)
    ensures ListsEachOnce(ExampleHost(aFirst))
  {
    var host := ExampleHost(aFirst);
    forall b, keys ensures Enumerates(host.listdir(b, keys), keys) {
      if keys == {"a", "a.zip", "b"} || keys == {"a", "b"} {
      } else {
        assert host.listdir(b, keys) == SetToSeq(keys);
      }
    }
  }

  function ExamplePolicy(): Policy {
    Policy(100, 50)
  }

  function ExampleListing(): Listing {
    map["a" := Dir(10, {"f"}), "a.zip" := File(0, Data), "b" := Dir(200, {})]
  }

  /** The listing once `a.zip` has expired. */
  function ExampleExpired(): Listing {
    map["a" := Dir(10, {"f"}), "b" := Dir(200, {})]
  }

  lemma ExampleArchiveName()
    ensures ZipPathOf("a") == "a.zip"
  {
    ZipPathAppends("a");
  }

  /** `b`'s expiry pass on the starting listing removes `a.zip` only. */
  lemma ExampleExpiry(aFirst: bool, log: seq<Event>)
    ensures Expire(ExampleHost(aFirst), "logs", ExamplePolicy(), Pass(ExampleListing(), log, false)).listing == ExampleExpired()
  {
    var host := ExampleHost(aFirst);
    var pol := ExamplePolicy();
    var p := Pass(ExampleListing(), log, false);
    var r := Expire(host, "logs", pol, p).listing;
    ExpireDecides(host, "logs", pol, p, "a");
    ExpireDecides(host, "logs", pol, p, "a.zip");
    ExpireDecides(host, "logs", pol, p, "b");
    ExpireShrinks(host, "logs", pol, p);
    assert r.Keys == ExampleExpired().Keys;
  }

  /** On the expired listing, `a` is archived and removed. */
  lemma ExampleArchiveA(aFirst: bool, p: Pass)
    requires p.listing.Keys <= {"a", "b"} && !p.aborted
    requires "a" in p.listing && p.listing["a"] == Dir(10, {"f"})
    ensures var r := Step(ExampleHost(aFirst), "logs", ExamplePolicy(), "a", p);
            !r.aborted && "a" !in r.listing
  {
    ExampleArchiveName();
    StaleFolderArchived(ExampleHost(aFirst), "logs", ExamplePolicy(), p, "a");
  }

  /** `b`'s iteration never brings back an entry. */
  lemma ExampleStepB(aFirst: bool, p: Pass)
    requires "b" in p.listing && p.listing["b"] == Dir(200, {}) && !p.aborted
    ensures var r := Step(ExampleHost(aFirst), "logs", ExamplePolicy(), "b", p);
            r.listing == Expire(ExampleHost(aFirst), "logs", ExamplePolicy(), p).listing && !r.aborted
  {
  }

  lemma ExampleFirstRunPass(log: seq<Event>)
    ensures var r := ProcessLogPath(ExampleHost(true), "logs", ExamplePolicy(), ExampleListing(), log);
            r.listing == ExampleExpired() && !r.aborted
  {
    var host := ExampleHost(true);
    var pol := ExamplePolicy();
    var l := ExampleListing();
    ExampleArchiveName();
    var p0 := Pass(l, log, false);
    ExistingArchiveBlocks(host, "logs", pol, p0, "a");
    var p1 := Step(host, "logs", pol, "a", p0);
    NonFolderIgnored(host, "logs", pol, p1, "a.zip");
    ExampleStepB(true, p1);
    ExampleExpiry(true, p1.log);
    ExampleOrders(true);
    assert ["a", "a.zip", "b"][1..] == ["a.zip", "b"];
    assert ["a.zip", "b"][1..] == ["b"];
  }

  lemma ExampleSecondRunPass(log: seq<Event>)
    ensures var r := ProcessLogPath(ExampleHost(true), "logs", ExamplePolicy(), ExampleExpired(), log);
            "a" !in r.listing && !r.aborted
  {
    var host := ExampleHost(true);
    var pol := ExamplePolicy();
    var l := ExampleExpired();
    var q0 := Pass(l, log, false);
    ExampleArchiveA(true, q0);
    var q1 := Step(host, "logs", pol, "a", q0);
    ExampleStepB(true, q1);
    ExpireShrinks(host, "logs", pol, q1);
    var q2 := Step(host, "logs", pol, "b", q1);
    assert "a" !in q2.listing && !q2.aborted;
    ExampleOrders(true);
    assert ProcessFrom(host, "logs", pol, ["b"], q1) == q2 by {
      assert ["b"][1..] == [];
    }
    assert ProcessFrom(host, "logs", pol, ["a", "b"], q0) == q2 by {
      assert ["a", "b"][1..] == ["b"];
    }
  }

  /** `iterdir` lists each child of both listings exactly once. */
  lemma ExampleListsOnce(aFirst: bool)
    ensures Enumerates(ExampleHost(aFirst).listdir("logs", ExampleListing().Keys), ExampleListing().Keys)
    ensures Enumerates(ExampleHost(aFirst).listdir("logs", ExampleExpired().Keys), ExampleExpired().Keys)
  {
    assert ExampleListing().Keys == {"a", "a.zip", "b"};
    assert ExampleExpired().Keys == {"a", "b"};
  }

  /** Archives are written after the expiry cutoff, and `a.zip` is an old
      zip the expiry pass removes. */
  lemma ExampleOldZip()
    ensures ArchivesSurvive(ExampleHost(true), "logs", ExamplePolicy())
    ensures !NoExpiredLeft(ExampleHost(true), "logs", ExamplePolicy(), ExampleListing())
  {
    assert Unlinked(ExampleHost(true), "logs", ExamplePolicy(), "a.zip", ExampleListing()["a.zip"]);
  }

  lemma ExampleSameRunPass(log: seq<Event>)
    ensures var r := ProcessLogPath(ExampleHost(false), "logs", ExamplePolicy(), ExampleListing(), log);
            "a" !in r.listing && !r.aborted
  {
    var host := ExampleHost(false);
    var pol := ExamplePolicy();
    var l := ExampleListing();
    var p0 := Pass(l, log, false);
    ExampleStepB(false, p0);
    ExampleExpiry(false, p0.log);
    var p1 := Step(host, "logs", pol, "b", p0);
    NonFolderIgnored(host, "logs", pol, p1, "a.zip");
    var p2 := Step(host, "logs", pol, "a.zip", p1);
    assert p2 == p1;
    ExampleArchiveA(false, p2);
    var p3 := Step(host, "logs", pol, "a", p2);
    ExampleOrders(false);
    assert ["b", "a.zip", "a"][1..] == ["a.zip", "a"];
    assert ["a.zip", "a"][1..] == ["a"];
    assert ProcessFrom(host, "logs", pol, ["a"], p2) == p3 by {
      assert ["a"][1..] == [];
    }
    assert ProcessFrom(host, "logs", pol, ["a.zip", "a"], p1) == p3;
    assert ProcessFrom(host, "logs", pol, ["b", "a.zip", "a"], p0) == p3;
  }

  /** `run` over the single base path `b`, a directory. */
  lemma RunOnePath(host: Host, pol: Policy, b: Path, roots: map<Path, Node>, log: seq<Event>)
    requires IsDirectory(roots, b)
    ensures var r := ProcessLogPath(host, b, pol, roots[b].children, log + [Processing(b)]);
            RunFrom(host, pol, [b], World(roots, log, false)) == World(roots[b := Folder(r.listing)], r.log, r.aborted)
  {
    assert [b][1..] == [];
  }

  /** The first run skips `a` (its archive exists) and then `b`'s expiry
      pass removes `a.zip`; the second run archives and removes `a`. The
      host lists every directory once and archives survive, as
      `SecondRunChangesNothing` requires; the only condition missing is
      that no old removable zip exists. */
  lemma RerunArchivesSkippedFolder()
    ensures var host := ExampleHost(true);
            var pol := ExamplePolicy();
            var l := ExampleListing();
            var r1 := RunFrom(host, pol, ["logs"], World(map["logs" := Folder(l)], [], false));
            var r2 := RunFrom(host, pol, ["logs"], World(r1.roots, [], false));
            ListsEachOnce(host) && (forall b :: ArchivesSurvive(host, b, pol)) &&
            Enumerates(host.listdir("logs", l.Keys), l.Keys) &&
            ArchivesSurvive(host, "logs", pol) &&
            !NoExpiredLeft(host, "logs", pol, l) &&
            !r1.aborted && IsDirectory(r1.roots, "logs") && "a" in r1.roots["logs"].children &&
            Enumerates(host.listdir("logs", r1.roots["logs"].children.Keys), r1.roots["logs"].children.Keys) &&
            IsDirectory(r2.roots, "logs") && "a" !in r2.roots["logs"].children
  {
    var host := ExampleHost(true);
    var pol := ExamplePolicy();
    var l := ExampleListing();
    ExampleListsOnce(true);
    ExampleListsEachOnce(true);
    ExampleOldZip();
    ExampleSurvives(true);
    ExampleFirstRunPass([] + [Processing("logs")]);
    RunOnePath(host, pol, "logs", map["logs" := Folder(l)], []);
    var r1 := RunFrom(host, pol, ["logs"], World(map["logs" := Folder(l)], [], false));
    assert r1.roots == map["logs" := Folder(ExampleExpired())];
    ExampleSecondRunPass([] + [Processing("logs")]);
    RunOnePath(host, pol, "logs", r1.roots, []);
  }

  /** With `b` listed first, its expiry pass removes `a.zip` before `a`'s
      iteration, so `a` is archived and removed in the same run although
      its archive existed when the run started. */
  lemma SameRunArchivesExpiredFolder()
    ensures var host := ExampleHost(false);
            var pol := ExamplePolicy();
            var l := ExampleListing();
            var r := RunFrom(host, pol, ["logs"], World(map["logs" := Folder(l)], [], false));
            Enumerates(host.listdir("logs", l.Keys), l.Keys) &&
            "a" in l && ZipPathOf("a") in l &&
            !r.aborted && IsDirectory(r.roots, "logs") && "a" !in r.roots["logs"].children
  {
    var host := ExampleHost(false);
    var pol := ExamplePolicy();
    var l := ExampleListing();
    ExampleArchiveName();
    ExampleListsOnce(false);
    ExampleSameRunPass([] + [Processing("logs")]);
    RunOnePath(host, pol, "logs", map["logs" := Folder(l)], []);
  }
}
