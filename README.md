# LogZipper retention pass, modelled in Dafny

`LogZipper` is a scheduled log-retention utility. For every configured base
directory it archives each immediate subfolder whose modification time is at
or before `threshold_time` into a sibling `.zip` file, then removes the
folder. It also deletes `.zip` files directly under the base directory whose
modification time is strictly before `old_zip_threshold`. Both cutoffs are
`now - (days, hours, minutes)`, and each comes from its own triple in the
configuration.

The model has eight modules:

- `Paths` (paths.dfy): directory entry names, `PurePath.suffix`/`stem`,
  `with_suffix(".zip")` (`ZipPathOf`), the glob `*.zip`, and archive entry
  names `<folder>/<relative path>`.
- `Clock` (clock.dfy): the cutoff arithmetic. It includes the two
  `OverflowError` cases of `timedelta` and `datetime`, and the range that
  `fromtimestamp` accepts.
- `FileSystem` (filesystem.dfy): an abstract filesystem. Each base directory
  maps child names to entries. A folder holds the set of regular files below
  it. A file is plain data or an archive, and an archive is its set of entry
  names. A `Host` record of functions fixes what the operating system decides
  in one run: listing order, the modification time of a new archive, and
  whether each `zip_folder`, `rmtree` or `unlink` call fails. The predicate
  `ListsEachOnce` says that `iterdir` yields every child exactly once, and
  `Enumerates` says the same for one listing. The class `Disk` holds the
  roots and exposes the three capabilities as methods that change them in
  place.
- `Retention` (retention.dfy): the pass as pure functions. `Step` is one
  iteration of the folder loop, `ProcessFrom`/`ProcessLogPath` cover one base
  directory, and `RunFrom` covers the run.
- `LogZipperModel` (log_zipper.dfy): the class `LogZipper`. It has the fields
  `logPaths`, `thresholdTime` and `oldZipThreshold`, plus the printed log as
  the field `log`. `ReadParams` sets the two cutoffs from the clock
  readings and appends the base paths in a loop. `ZipFolder` builds the
  entry set in a loop and writes it through `FileSystem.AfterWrite`. The
  methods `ExpireOldZips`, `ArchiveAndRemove`, `ProcessEntry`,
  `ProcessLogPath` and `Run` are each proved to leave `Disk.roots` and
  `log` exactly as the corresponding `Retention` function says.
- `RetentionProperties` (properties.dfy): the guarantees of single steps,
  and the safety of the pass and the run, proved about those functions.
- `RetentionProgress` (progress.dfy): what a pass achieves when `iterdir`
  lists every child once. Every eligible stale folder gets its archive,
  and old zips go once an iteration reaches the expiry pass.
- `RetentionRerun` (rerun.dfy): running twice. It proves when a second run
  changes nothing, and gives concrete runs where the condition is missing
  and it does change something.

Inputs from outside the program are parameters. These are the clock readings
(four of them: two defaults in `__init__`, then one per cutoff), the parsed
configuration record, and the `Host`. The log is a sequence of `Event`
values, one per `print`. The one exception is the per-zip messages of one
expiry pass: they are recorded as a single `OldZips(deleted, failed)` event,
because the glob yields zips in the operating system's order.

Points where the behaviour is reproduced as written:

- The expiry pass is inside the folder loop. It runs once after every
  iteration that is not cut short by `continue`, and never in a base
  directory where no iteration gets that far (`ExpiryNeedsAnIteration`).
- `zip_folder` (line 56) is outside any `try`, so one failure ends the
  whole run (`ArchiveError`, then `aborted`). The failed write may leave a
  partial archive file behind.
- Each cutoff reads the clock separately (lines 24 and 25).
- On `stat`, only `ValueError` is caught. In this model that is the case of
  a modification time outside the range `datetime` can hold.
- A folder whose suffix is `.zip` (such as `x.zip`, but not `.zip`, whose
  suffix is empty) is its own archive name (`ZipPathIsOwnName`). When it is
  stale, its iteration therefore always prints the skip. When it is fresh,
  its iteration runs the expiry pass like any other fresh folder.
- Running twice is not idempotent in general. Take a stale folder skipped
  because its archive exists. If that archive is older than
  `old_zip_threshold`, another folder's expiry pass removes it. The folder
  is then archived and removed on the next run
  (`RerunArchivesSkippedFolder`), or later in the same run if it is listed
  after that other folder (`SameRunArchivesExpiredFolder`). A second run
  changes nothing under four conditions (`SecondRunChangesNothing`):
  - `iterdir` lists every child once (`ListsEachOnce`).
  - Every archive written is at least as new as `old_zip_threshold`
    (`ArchivesSurvive`, for every base).
  - No removable zip older than that cutoff existed at the start.
  - The first run completed.

  Both runs are given the same cutoffs (`Policy`) and the same `Host`.

## Model

| member | source | states |
|---|---|---|
| `Paths.ZipPathOf` | log_zipper.py:52 | the archive name matches the glob `*.zip` and is the folder's stem followed by ".zip" |
| `Paths.ZipPathReplacesSuffix` | log_zipper.py:52 | `stem.ext` becomes `stem.zip` when the stem is non-empty and `ext` has no dot (`a.b` → `a.zip`) |
| `Paths.ZipPathAppends` | log_zipper.py:52 | a name with no dot between its first and last character gets ".zip" appended (`logs`, `.cache`, `x.`) |
| `Paths.ZipPathTrailingDot` | log_zipper.py:52 | a name ending in a dot has no suffix: `a.b.` → `a.b..zip`, `x.` → `x..zip` |
| `Paths.ArchiveNameIsFixed` | log_zipper.py:52-53 | the archive name of an archive name is itself, so a folder named like another folder's archive is its own archive |
| `Paths.ZipPathIsOwnName` | log_zipper.py:52-55 | the archive name equals the folder's own name exactly when the folder's suffix is ".zip" |
| `Paths.ArchiveRoundTrip` | log_zipper.py:36-39 | extracting the archive under the folder's name gives back exactly the folder's regular files |
| `Clock.Threshold` | log_zipper.py:24-25 | a cutoff is `now` minus the offset in seconds and a representable datetime; a cutoff is produced exactly when the day count is within the timedelta limit and the difference is representable; a day count beyond the limit overflows |
| `FileSystem.AfterWrite` | log_zipper.py:35 | a successful write puts the archive with its entries at `dest`; no other entry changes |
| `FileSystem.AfterRmtree` | log_zipper.py:59 | rmtree touches only the folder; it is gone exactly when rmtree succeeds, otherwise it keeps a subset of its files |
| `FileSystem.Disk.WriteArchive` | log_zipper.py:35-39 | the roots change only by the archive write, and the result says whether it succeeded |
| `FileSystem.Disk.Rmtree` | log_zipper.py:59 | the roots change only by removing the folder, fully or in part |
| `FileSystem.Disk.Unlink` | log_zipper.py:69 | a file is removed unless unlinking fails; a folder is never unlinked |
| `LogZipperModel.LogZipper.constructor` | log_zipper.py:11-15 | no base paths; default cutoffs one day and 90 days before two clock readings |
| `LogZipperModel.LogZipper.ReadParams` | log_zipper.py:19-27 | each cutoff is its own clock reading minus days·86400 + hours·3600 + minutes·60; on overflow the error is returned and later fields are untouched; base paths are appended in configuration order |
| `LogZipperModel.NewLogZipper` | log_zipper.py:11-17 | an object exists exactly when neither cutoff overflows, with the configured paths and cutoffs |
| `LogZipperModel.LogZipper.ZipFolder` | log_zipper.py:33-39 | the written archive holds exactly `<folder>/<relative path>` for every regular file of the folder |
| `LogZipperModel.LogZipper.ExpireOldZips` | log_zipper.py:65-72 | every glob match is checked once; the listing and log become those of `Retention.Expire` |
| `LogZipperModel.LogZipper.ArchiveAndRemove` | log_zipper.py:56-62 | zip first; rmtree only after the zip returned; a zip failure ends the pass |
| `LogZipperModel.LogZipper.ProcessEntry` | log_zipper.py:43-72 | one iteration leaves the filesystem and log as `Retention.Step` says |
| `LogZipperModel.LogZipper.ProcessLogPath` | log_zipper.py:41-72 | the loop over the listing snapshot leaves the filesystem and log as `Retention.ProcessLogPath` says |
| `LogZipperModel.LogZipper.Run` | log_zipper.py:74-80 | the loop over base paths leaves the filesystem and log as `Retention.RunFrom` says, and it reports whether a zip failure cut the run short |
| `RetentionProperties.ExpireDecides` | log_zipper.py:65-72 | a zip is removed exactly when its time converts, is strictly older than the cutoff, it is a file, and unlink succeeds; other entries' failures do not matter |
| `RetentionProperties.ExpiryCutoffIsStrict` | log_zipper.py:67-69 | a zip whose time equals `old_zip_threshold` is kept |
| `RetentionProperties.ExpireIdempotent` | log_zipper.py:64-72 | a second expiry pass removes nothing more |
| `RetentionProperties.ExpireKeeps` | log_zipper.py:65-72 | folders, and files not older than the cutoff, survive the expiry pass unchanged |
| `RetentionProperties.StaleFolderArchived` | log_zipper.py:51-62 | when `zip_folder` succeeds and the new archive is not older than `old_zip_threshold`, a folder at or before `threshold_time` (inclusive) without an archive gets one with exactly its files; it is removed exactly when rmtree succeeds, otherwise it keeps part of its files, and the loop goes on |
| `RetentionProperties.NonFolderIgnored` | log_zipper.py:43-44 | a child that is not a directory is passed over: no archive, no removal, no expiry pass, no log line |
| `RetentionProperties.ExistingArchiveBlocks` | log_zipper.py:52-55 | if the archive exists, nothing is written or removed, no expiry pass runs, and only a skip is logged |
| `RetentionProperties.StepKeepsUntouchable` | log_zipper.py:43-51 | one iteration never changes a folder newer than the cutoff, or one whose time does not convert |
| `RetentionProperties.FreshFolderUntouched` | log_zipper.py:42-51 | the whole pass leaves such a folder exactly as it was |
| `RetentionProperties.ExpireKeepsSafe` | log_zipper.py:65-72 | the expiry pass never removes a folder or an archive too new to expire |
| `RetentionProperties.ArchiveKeepsSafe` | log_zipper.py:56-62 | if every written archive is at least as new as `old_zip_threshold` (`ArchivesSurvive`): after zip-then-rmtree, every folder is unchanged or has its full archive beside it |
| `RetentionProperties.StepKeepsSafe` | log_zipper.py:43-72 | under `ArchivesSurvive`, one iteration keeps every folder, or its full archive |
| `RetentionProperties.ProcessKeepsSafe` | log_zipper.py:42-72 | under `ArchivesSurvive`, a base directory's pass never loses a folder without its archive, even when rmtree fails or zip aborts |
| `RetentionProperties.RunNeverLosesAFolder` | log_zipper.py:74-80 | under `ArchivesSurvive` for every base, over a whole run, every folder of every base directory is unchanged or its complete archive exists |
| `RetentionProperties.ExpiryNeedsAnIteration` | log_zipper.py:42-72 | when no iteration reaches the expiry pass (no subfolders, or all unreadable or already archived), nothing changes and old zips stay |
| `RetentionProperties.RunLeavesOthersAlone` | log_zipper.py:75-80 | a missing or non-directory path, or one not configured, is not changed; no path appears or vanishes; the log only grows |
| `RetentionProperties.RunReportsEveryPath` | log_zipper.py:75-80 | a run that no zip failure cut short reports every configured path as processed or invalid |
| `RetentionProgress.PassArchivesStaleFolders` | log_zipper.py:42-62 | when `iterdir` lists each child once and archives survive: a folder whose time converts, at or before `threshold_time`, whose archive name is free and not shared with another folder, ends with its complete archive beside it, and is gone exactly when rmtree succeeds, unless a zip failure aborted |
| `RetentionProgress.ExpiryReachedClearsOldZips` | log_zipper.py:42-72 | under `ArchivesSurvive`, once any iteration gets past the `continue` exits to the expiry pass, the pass ends with no zip left that is older than `old_zip_threshold` and removable |
| `RetentionProgress.FreshFolderExpiresOldZips` | log_zipper.py:42-72 | under `ArchivesSurvive`, a listed fresh folder whose time converts makes the pass reach the expiry pass, so every old removable zip of the directory is gone or replaced by a new archive |
| `RetentionProgress.StepKeepsNoExpiredLeft` | log_zipper.py:43-72 | under `ArchivesSurvive`, no iteration creates an entry the expiry pass would remove |
| `RetentionProgress.ProcessFromSplit` | log_zipper.py:42 | the pass over a listing is the pass over its first part followed by the pass over the rest |
| `RetentionRerun.StableProcess` | log_zipper.py:42-72 | on a listing where every stale readable folder has its archive and no old removable zip exists, the pass changes nothing and does not abort |
| `RetentionRerun.PassMakesStable` | log_zipper.py:42-72 | under `ArchivesSurvive`, a completed pass over a directory listed once, with no old removable zip at its start, leaves such a listing |
| `RetentionRerun.SecondPassChangesNothing` | log_zipper.py:41-72 | under the same three conditions, when the first `process_log_path` completes, a second one changes nothing and does not abort |
| `RetentionRerun.SecondRunChangesNothing` | log_zipper.py:74-80 | with `iterdir` listing each child once and archives surviving, when no directory holds an old removable zip and run 1 completes, run 2 changes no directory and completes |
| `RetentionRerun.RerunArchivesSkippedFolder` | log_zipper.py:51-72 | a concrete run whose host lists every directory once and whose archives survive: a stale folder skipped because of its old archive is archived and removed by the next run, after a fresh folder's expiry pass removed that archive; only the no-old-zip condition of `SecondRunChangesNothing` fails |
| `RetentionRerun.SameRunArchivesExpiredFolder` | log_zipper.py:51-72 | a concrete run: with the fresh folder listed first, the folder whose archive existed at the start is archived and removed in the same run |

## Left out

- Reading the JSON file and the unused `load_log_list` (log_zipper.py:21-22, 29-31). The configuration is a parsed record of two offsets and a list of paths; missing keys and non-integer values are not modelled.
- The `__main__` block (redirecting stdout/stderr to `debug.log`, the start/end prints, `input()`) is process I/O.
- ZIP/DEFLATE encoding and `z.write`. An archive is its set of entry names, and file contents are not modelled.
- `Path(p)` normalisation. A base path is the configured string, and nested or overlapping base paths are not modelled as sharing entries.
- The real `iterdir`/`glob`/`stat`/`rglob`. They are reads of the abstract map. The `iterdir` order is `Host.listdir`, taken once when the loop starts, as `os.listdir` does. `rglob` order does not matter, since the entries form a set. Symbolic links, empty sub-folders (which yield no entries) and case-insensitive matching of `*.zip` are not modelled.
- Time: integer seconds in UTC. Microseconds, local time zones and daylight-saving folds in `fromtimestamp` are not modelled. The `OverflowError`/`OSError` that `fromtimestamp` raises for times beyond the platform's `time_t`, which line 47 would not catch, is not modelled: any time outside years 1 to 9999 gives the `ValueError` that line 47 does catch.
- Host: each fallible operation fails in the same way every time it is tried in one run, because a `Host` function answers per base path and name. For example, an `unlink` that fails in one pass fails in every later pass of that run.
- `RetentionRerun.SecondRunChangesNothing`: run 2 reuses run 1's `Host` and cutoffs. A second invocation would read the clock again, so its cutoffs would be later. An `unlink` that failed in run 1 is assumed to fail again in run 2; the source's glob would retry it, and it might succeed. Neither case is covered.
- `RetentionProperties.RunNeverLosesAFolder`: assumes every archive written is at least as new as `old_zip_threshold` (`ArchivesSurvive`). That holds when the clock does not run backwards and the `del_zip` offset is not negative. With a negative offset, a folder could be archived, removed, and its archive expired in the same iteration.
- `print` text: the log records which event happened, not its wording.
- `RetentionProperties.ExpireIdempotent`: holds only because `Host.unlinkFails` gives the same answer for a name on every pass. The source repeats the expiry pass after every iteration that reaches it, so an `unlink` that failed transiently is retried by a later pass. The model does not show that retry.
- `Paths.Suffix`: follows `PurePath.suffix` up to Python 3.13. Python 3.14 counts a trailing dot as a suffix (`x.` gets the suffix `.` there, so `x.` → `x.zip`).
- `RetentionProgress.PassArchivesStaleFolders` and the `RetentionRerun` lemmas assume `iterdir` lists every child exactly once (`Enumerates`, `ListsEachOnce`). `Host.listdir` itself may be any order, so the methods and the safety lemmas cover any listing.
