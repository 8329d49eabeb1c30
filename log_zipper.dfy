/** The `LogZipper` object: its configuration fields, the archive writer
    `zip_folder`, the pass `process_log_path` over one base directory and
    `run` over all of them. `ReadParams` sets the cutoffs and the paths, and
    `ZipFolder` writes the archive through `FileSystem.AfterWrite`. The
    other methods are proved to leave the filesystem and the printed log
    exactly as the functions of `Retention` say. */
module LogZipperModel {
  import opened Paths
  import opened FileSystem
  import opened Retention
  import Clock

  /** The parsed configuration file. */
  datatype Config = Config(zipDir: Clock.Offset, delZip: Clock.Offset, basePathList: seq<string>)

  datatype Status = Ok | Failed(reason: Clock.Overflow)

  class LogZipper {
    const disk: Disk
    var logPaths: seq<Path>
    var thresholdTime: int
    var oldZipThreshold: int
    var log: seq<Event>

    function Pol(): Policy
      reads this`thresholdTime, this`oldZipThreshold
    {
      Policy(thresholdTime, oldZipThreshold)
    }

    /** The defaults of `__init__`, one day and 90 days before two clock
        readings. */
    constructor (d: Disk, nowA: int, nowB: int)
      ensures disk == d && logPaths == [] && log == []
      ensures thresholdTime == nowA - 86400 && oldZipThreshold == nowB - 90 * 86400
    {
      disk := d;
      logPaths := [];
      thresholdTime := nowA - 86400;
      oldZipThreshold := nowB - 90 * 86400;
      log := [];
    }

    /** `read_params`: each cutoff from its own clock reading and offset,
        then the base paths appended in configuration order. An overflow
        leaves the fields set so far. */
    method ReadParams(cfg: Config, now1: int, now2: int) returns (s: Status)
      modifies this`thresholdTime, this`oldZipThreshold, this`logPaths
      ensures Clock.Threshold(now1, cfg.zipDir).OverflowError? ==>
                s == Failed(Clock.Threshold(now1, cfg.zipDir).reason) &&
                thresholdTime == old(thresholdTime) && oldZipThreshold == old(oldZipThreshold) && logPaths == old(logPaths)
      ensures Clock.Threshold(now1, cfg.zipDir).Time? ==>
                thresholdTime == now1 - (cfg.zipDir.days * 86400 + cfg.zipDir.hours * 3600 + cfg.zipDir.minutes * 60)
      ensures Clock.Threshold(now1, cfg.zipDir).Time? && Clock.Threshold(now2, cfg.delZip).OverflowError? ==>
                s == Failed(Clock.Threshold(now2, cfg.delZip).reason) &&
                oldZipThreshold == old(oldZipThreshold) && logPaths == old(logPaths)
      ensures s == Ok <==> Clock.Threshold(now1, cfg.zipDir).Time? && Clock.Threshold(now2, cfg.delZip).Time?
      ensures s == Ok ==>
                oldZipThreshold == now2 - (cfg.delZip.days * 86400 + cfg.delZip.hours * 3600 + cfg.delZip.minutes * 60) &&
                logPaths == old(logPaths) + cfg.basePathList
    {
      var t1 := Clock.Threshold(now1, cfg.zipDir);
      if t1.OverflowError? {
        return Failed(t1.reason);
      }
      thresholdTime := t1.t;
      var t2 := Clock.Threshold(now2, cfg.delZip);
      if t2.OverflowError? {
        return Failed(t2.reason);
      }
      oldZipThreshold := t2.t;
      var i := 0;
      while i < |cfg.basePathList|
        invariant 0 <= i <= |cfg.basePathList|
        invariant logPaths == old(logPaths) + cfg.basePathList[..i]
        invariant thresholdTime == t1.t && oldZipThreshold == t2.t
      {
        logPaths := logPaths + [cfg.basePathList[i]];
        i := i + 1;
      }
      assert cfg.basePathList[..i] == cfg.basePathList;
      s := Ok;
    }

    /** `zip_folder(base/folder, base/dest)`: one entry per regular file
        under the folder, named after the folder. */
    method ZipFolder(base: Path, folder: Name, dest: Name) returns (ok: bool)
      requires IsDirectory(disk.roots, base)
      requires folder in disk.roots[base].children && disk.roots[base].children[folder].Dir?
      modifies disk
      ensures ok == disk.host.zipResult(base, dest).Written?
      ensures disk.roots == old(disk.roots)[base := Folder(AfterWrite(disk.host, base, dest,
                ArchiveOf(folder, old(disk.roots[base].children[folder].files)), old(disk.roots[base].children)))]
    {
      var files := disk.roots[base].children[folder].files;
      var todo := files;
      var entries: set<string> := {};
      while todo != {}
        invariant todo <= files
        invariant entries == ArchiveOf(folder, files - todo)
        decreases todo
      {
        var f :| f in todo;
        entries := entries + {ArcName(folder, f)};
        todo := todo - {f};
      }
      assert files - todo == files;
      ok := disk.WriteArchive(base, dest, entries);
    }

    /** The expiry loop of `process_log_path`: every `*.zip` entry of `base` is checked once; one
        whose time does not convert or whose unlink raises is reported and
        the others are still checked. */
    method ExpireOldZips(base: Path)
      requires IsDirectory(disk.roots, base)
      modifies disk, this`log
      ensures var e := Expire(disk.host, base, Pol(), Pass(old(disk.roots[base].children), old(log), false));
              disk.roots == old(disk.roots)[base := Folder(e.listing)] && log == e.log
    {
      var l0 := disk.roots[base].children;
      var zips := ZipCandidates(l0);
      var todo := zips;
      var deleted: set<Name> := {};
      var failed: set<Name> := {};
      assert zips - todo == {};
      assert ExpireAmong(disk.host, base, Pol(), l0, {}) == l0;
      assert old(disk.roots)[base := Folder(l0)] == disk.roots;
      while todo != {}
        invariant todo <= zips
        invariant log == old(log)
        invariant disk.roots == old(disk.roots)[base := Folder(ExpireAmong(disk.host, base, Pol(), l0, zips - todo))]
        invariant deleted == DeletedAmong(disk.host, base, Pol(), l0, zips - todo)
        invariant failed == FailedAmong(disk.host, base, Pol(), l0, zips - todo)
        decreases todo
      {
        var z :| z in todo;
        ghost var done := zips - todo;
        assert z in disk.roots[base].children && disk.roots[base].children[z] == l0[z];
        var e := disk.roots[base].children[z];
        if !Clock.Representable(e.mtime) {
          failed := failed + {z};
        } else if e.mtime < oldZipThreshold {
          var ok := disk.Unlink(base, z);
          if ok {
            deleted := deleted + {z};
          } else {
            failed := failed + {z};
          }
        }
        todo := todo - {z};
        assert zips - todo == done + {z};
        ExpireAmongStep(disk.host, base, Pol(), l0, done, z);
      }
      assert zips - todo == zips;
      if deleted != {} || failed != {} {
        log := log + [OldZips(base, deleted, failed)];
      }
    }

    /** The archiving branch of `process_log_path`: `zip_folder`, then `shutil.rmtree` only if that
        returned; false when `zip_folder` raised. */
    method ArchiveAndRemove(base: Path, name: Name) returns (ok: bool)
      requires IsDirectory(disk.roots, base)
      requires name in disk.roots[base].children && disk.roots[base].children[name].Dir?
      requires ZipPathOf(name) !in disk.roots[base].children
      modifies disk, this`log
      ensures var r := Retention.ArchiveAndRemove(disk.host, base, name, Pass(old(disk.roots[base].children), old(log), false));
              disk.roots == old(disk.roots)[base := Folder(r.listing)] && log == r.log && ok == !r.aborted
    {
      var zipPath := ZipPathOf(name);
      ok := ZipFolder(base, name, zipPath);
      if !ok {
        log := log + [ArchiveError(base, name)];
        return;
      }
      log := log + [Zipped(base, name, zipPath)];
      var removed := disk.Rmtree(base, name);
      if removed {
        log := log + [Deleted(base, name)];
      } else {
        log := log + [DeleteError(base, name)];
      }
    }

    /** One iteration of the loop of `process_log_path` for
        the child `name`: not a directory or a time that does not convert,
        nothing; stale with an archive beside it, a skip; otherwise archive
        a stale folder and then run the expiry pass. False when
        `zip_folder` raised. */
    method ProcessEntry(base: Path, name: Name) returns (ok: bool)
      requires IsDirectory(disk.roots, base)
      modifies disk, this`log
      ensures var r := Step(disk.host, base, Pol(), name, Pass(old(disk.roots[base].children), old(log), false));
              disk.roots == old(disk.roots)[base := Folder(r.listing)] && log == r.log && ok == !r.aborted
    {
      ok := true;
      var children := disk.roots[base].children;
      ghost var p0 := Pass(children, log, false);
      if name !in children || !children[name].Dir? || !Clock.Representable(children[name].mtime) {
        return;
      }
      var stale := children[name].mtime <= thresholdTime;
      if stale {
        var zipPath := ZipPathOf(name);
        if zipPath in children {
          log := log + [SkipZipped(base, zipPath)];
          return;
        }
      }
      ghost var q := if stale then Retention.ArchiveAndRemove(disk.host, base, name, p0) else p0;
      assert Step(disk.host, base, Pol(), name, p0) == if q.aborted then q else Expire(disk.host, base, Pol(), q);
      if stale {
        ok := ArchiveAndRemove(base, name);
        if !ok {
          return;
        }
      }
      assert disk.roots == old(disk.roots)[base := Folder(q.listing)] && log == q.log && !q.aborted;
      ExpireOldZips(base);
    }

    /** `process_log_path(base)`: the children in the order `iterdir`
        lists them when the loop starts; false when `zip_folder` raised. */
    method ProcessLogPath(base: Path) returns (ok: bool)
      requires IsDirectory(disk.roots, base)
      modifies disk, this`log
      ensures var r := Retention.ProcessLogPath(disk.host, base, Pol(), old(disk.roots[base].children), old(log));
              disk.roots == old(disk.roots)[base := Folder(r.listing)] && log == r.log && ok == !r.aborted
    {
      var order := disk.host.listdir(base, disk.roots[base].children.Keys);
      ghost var start := Pass(disk.roots[base].children, log, false);
      var i := 0;
      ok := true;
      while i < |order|
        invariant 0 <= i <= |order|
        invariant IsDirectory(disk.roots, base)
        invariant disk.roots == old(disk.roots)[base := Folder(disk.roots[base].children)]
        invariant ProcessFrom(disk.host, base, Pol(), order, start)
               == ProcessFrom(disk.host, base, Pol(), order[i..], Pass(disk.roots[base].children, log, false))
      {
        ProcessFromAt(disk.host, base, Pol(), order, i, Pass(disk.roots[base].children, log, false));
        ok := ProcessEntry(base, order[i]);
        if !ok {
          return;
        }
        i := i + 1;
      }
    }

    /** `run()`: every base path in order; one that does not exist or is
        not a directory is reported and left alone. False when a
        `zip_folder` call raised, which ends the run. */
    method Run() returns (completed: bool)
      modifies disk, this`log
      ensures var w := RunFrom(disk.host, Pol(), logPaths, World(old(disk.roots), old(log), false));
              disk.roots == w.roots && log == w.log && completed == !w.aborted
    {
      ghost var start := World(disk.roots, log, false);
      var i := 0;
      completed := true;
      while i < |logPaths|
        invariant 0 <= i <= |logPaths|
        invariant RunFrom(disk.host, Pol(), logPaths, start)
               == RunFrom(disk.host, Pol(), logPaths[i..], World(disk.roots, log, false))
      {
        assert logPaths[i..][1..] == logPaths[i + 1..];
        var path := logPaths[i];
        if path in disk.roots && disk.roots[path].Folder? {
          log := log + [Processing(path)];
          var ok := ProcessLogPath(path);
          if !ok {
            return false;
          }
        } else {
          log := log + [InvalidPath(path)];
        }
        i := i + 1;
      }
    }
  }

  /** `LogZipper(json_path)`: the defaults, then `read_params`; an overflow
      computing a cutoff raises out of the constructor. */
  method NewLogZipper(d: Disk, cfg: Config, nowA: int, nowB: int, now1: int, now2: int) returns (z: LogZipper?)
    ensures (z != null) <==> Clock.Threshold(now1, cfg.zipDir).Time? && Clock.Threshold(now2, cfg.delZip).Time?
    ensures z != null ==>
              fresh(z) && z.disk == d && z.log == [] && z.logPaths == cfg.basePathList &&
              z.thresholdTime == Clock.Threshold(now1, cfg.zipDir).t &&
              z.oldZipThreshold == Clock.Threshold(now2, cfg.delZip).t
  {
    z := new LogZipper(d, nowA, nowB);
    var s := z.ReadParams(cfg, now1, now2);
    if s.Failed? {
      z := null;
    }
  }
}
