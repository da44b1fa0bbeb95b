# git-cloner: the repository refresh, modelled in Dafny

git-cloner reads a list of repository URLs and, for each one, replaces the
local copy under an output directory with a fresh clone. For one URL the
program:

1. derives the destination `output/<name>`, where `<name>` is the text after
   the last `/` of the URL with every trailing `.git` removed, and the backup
   path, which is the destination with its extension replaced by `old`;
2. if the destination exists, renames it to the backup path;
3. clones the URL into the destination;
4. after a successful clone, removes the backup path if it exists; after a
   failed clone, renames the backup path back to the destination if it exists.

Every failed rename or removal is only printed; no step stops the refresh.
All URLs are refreshed concurrently and the program waits for all of them.

The model has four modules:

- `Paths` (`paths.dfy`): the path derivation as functions. Paths are sequences
  of components, as Rust's `Path::components` sees them on Unix. `Join`
  follows `Path::join` for a segment without `/`: an empty segment adds no
  component; a `.` segment adds none either, except that joined to an empty
  output path it gives the path `.`; and `..` stays a component. `WithExtension` follows
  `Path::with_extension`: it keeps the file stem (the text before the last
  `.`, unless that text is empty) and appends `.old`; a path without a file
  name is returned unchanged.
- `Fs` (`filesystem.dfy`): a `FileSystem` class whose `entries` map each
  existing path to the directory tree it holds, and whose ghost `calls` log
  records every call made on it, in order. Its `Rename`, `RemoveDirAll` and
  `Clone` methods may each fail, and a failed call changes nothing but the
  log.
- `Swap` (`swap.dfy`): the per-repository protocol. `Refresh` is the task
  body, written step by step against a `FileSystem` (with `BackUp` and
  `Finish` for its first and last stages). It returns a `Trace` saying which
  guarded calls ran and how each ended. Its postcondition ties the new
  filesystem to `Effect`, and the calls it made to `Calls`, both functions of
  the initial filesystem and the trace; so the clone is made in every run. `Admissible` states which traces the `exists()` checks allow.
  The lemmas say where each tree ends up in each branch.
- `Fleet` (`fleet.dfy`): the fan-out as a loop that refreshes the URLs one
  after another. The lemmas show that when no two repositories share a path,
  each repository ends the pass exactly as if it had been refreshed alone,
  and any combination of per-repository outcomes is possible.

Three details of the code shape what the model proves:

- A failed backup rename does not stop the refresh: the clone is still
  attempted into the occupied destination (`src/main.rs:49-56`).
- The backup path replaces the destination's extension rather than
  appending a suffix, so `my.repo` backs up to `my.old`
  (`src/main.rs:48`).
- The cleanup and restore steps test whether the backup path exists, not
  whether this run created it, so a stale backup from an earlier run is
  removed or moved into the destination (`src/main.rs:61, 72`).

Two consequences of the code as written are proved:

- A repository whose name ends in `.old` with text before it, such as
  `legacy.old`, is its own backup path. After a successful clone, a
  successful cleanup removes the fresh tree, and nothing is left at the
  destination
  (`Swap.SelfBackupLosesClone`, `Swap.OldNamedRepositoryLosesClone`).
- When the backup rename fails while a stale backup exists and the clone
  then fails, a successful restore moves the stale backup over the live copy
  (`Swap.PreviousCopySurvivesCloneFailure`). In the model a rename replaces
  whatever is at its target; a real rename onto a non-empty directory fails,
  so on a real system this happens only when the live copy is an empty
  directory.

## Model

| member | source | states |
|---|---|---|
| `Paths.LastSegment` | src/main.rs:44 | the result has no `/`, ends the URL, and is the whole URL or preceded by a `/` |
| `Paths.LastSegmentUnique` | src/main.rs:44 | those three properties determine the last segment uniquely |
| `Paths.TrimGitSuffixes` | src/main.rs:44 | the result does not end in `.git`, and the input is the result followed by some number of `.git` |
| `Paths.DirNameShape` | src/main.rs:43-44 | the directory name has no `/`, does not end in `.git`, and is a prefix of the last segment |
| `Paths.Join` | src/main.rs:43-44 | `Path::join` of one segment; pinned down by `Paths.DestinationIsChild` (a normal name adds exactly one component) and `Paths.EmptyNameIsOutputDirectory` (an empty name adds none) |
| `Paths.WithExtension` | src/main.rs:48 | `Path::with_extension`; pinned down by `Paths.BackupIsSibling`, `Paths.BackupEqualsDestination` and `Paths.ExtensionReplaced` |
| `Paths.DirName` | src/main.rs:44 | the directory name; pinned down by `Paths.DirNameShape`, `Paths.TrimRepeatedGit` and `Paths.DirNameOfUrl` |
| `Paths.Destination` | src/main.rs:43-44 | the destination; pinned down by `Paths.DestinationIsChild` and `Paths.EmptyNameIsOutputDirectory` |
| `Paths.BackupPath` | src/main.rs:48 | the backup path; pinned down by `Paths.BackupIsSibling`, `Paths.BackupEqualsDestination` and `Paths.ExtensionReplaced` |
| `Paths.TargetOf` | src/main.rs:43-48 | the two paths of one refresh, carrying the URL they were derived from; pinned down by `Paths.PlainNameTarget` and `Paths.OwnBackupTarget` |
| `Paths.DestinationIsChild` | src/main.rs:43-44 | a name other than empty, `.` or `..` becomes exactly one new component under the output directory |
| `Paths.EmptyNameIsOutputDirectory` | src/main.rs:43-44 | a URL ending in `/`, or whose last segment is `.git`, gives an empty name, and its destination is the output directory itself |
| `Paths.AlphaExample` | src/main.rs:43-44 | `https://host/org/alpha.git` gives the name `alpha` and the destination `output/alpha` |
| `Paths.TrimRepeatedGit` | src/main.rs:44 | a name that does not end in `.git`, followed by any number of `.git`, trims back to exactly that name |
| `Paths.DirNameOfUrl` | src/main.rs:43-44 | any URL `base/name` followed by any number of `.git` is cloned under `name`, when the name has no `/` and does not end in `.git` |
| `Paths.Stem` | src/main.rs:48 | the stem is a prefix of the name; it is the whole name, or a non-empty text followed by the last `.` of the name; it is the whole name exactly when the name is `..` or has no `.` after its first character |
| `Paths.BackupIsSibling` | src/main.rs:48 | the backup path has the same parent as the destination, and its last name is the destination's stem followed by `.old` |
| `Paths.SelfBackupName` | src/main.rs:48 | a name equals its stem followed by `.old` exactly when it ends in `.old` with text before it |
| `Paths.BackupEqualsDestination` | src/main.rs:48 | the backup path equals the destination exactly when the destination has no file name or its name ends in `.old` with text before it |
| `Paths.ExtensionReplaced` | src/main.rs:48 | a name other than `..` whose last `.` is at position `i > 0` backs up to its first `i` characters followed by `.old`: the extension is replaced, not appended |
| `Paths.ExtensionReplacedExample` | src/main.rs:48 | `my.repo` backs up to `my.old`: the extension is replaced, not appended |
| `Paths.PlainNameBackup` | src/main.rs:48 | a directory whose name has no `.`, such as `alpha`, backs up to its sibling `alpha.old` |
| `Paths.PlainNameTarget` | src/main.rs:43-48 | a URL `base/name` followed by any number of `.git`, with no `.` in the name, gets the destination `output/name` and the backup path `output/name.old` |
| `Paths.OldNameIsOwnBackup` | src/main.rs:48 | a directory named like `legacy.old` is its own backup path, whatever its parent |
| `Paths.OwnBackupTarget` | src/main.rs:43-48 | a URL `base/legacy.old.git` (any such name, any number of `.git`) gets the destination `output/legacy.old`, and its backup path is that same path |
| `Fs.Renamed` | src/main.rs:49 | after a rename the source's tree is at the target, the source is gone unless it is the target, and every other path is unchanged |
| `Fs.FileSystem.Exists` | src/main.rs:47 | `Path::exists`: whether the path is in `entries` |
| `Fs.FileSystem.Rename` | src/main.rs:49-52 | a successful rename needs an existing source and yields `Renamed`; a failed one changes nothing; either way the call is logged |
| `Fs.FileSystem.RemoveDirAll` | src/main.rs:62-65 | a successful removal needs an existing path and removes exactly it; a failed one changes nothing; either way the call is logged |
| `Fs.FileSystem.Clone` | src/main.rs:56 | a successful clone puts the returned tree at the destination and changes nothing else; a failed one changes nothing; either way the call is logged |
| `Swap.AfterBackup` | src/main.rs:47-53 | the state after the backup step; pinned down by `Swap.BackupMovesDestination` and `Swap.Frame` |
| `Swap.AfterClone` | src/main.rs:56 | the state after the clone; pinned down by `Swap.CommitOnSuccess` and `Swap.FreshTarget` |
| `Swap.AfterFinish` | src/main.rs:57-78 | the state after the cleanup or restore; pinned down by `Swap.CommitOnSuccess`, `Swap.CleanupFailureKeepsClone`, `Swap.RollbackRestores`, `Swap.RestoreFailureStrandsBackup` and `Swap.StaleBackupIsConsumed` |
| `Swap.Effect` | src/main.rs:43-79 | the state after a whole refresh; pinned down by `Swap.Frame`, `Swap.Locality` and the branch lemmas |
| `Swap.Admissible` | src/main.rs:47-72 | a step is attempted exactly when its `exists()` check (lines 47, 61 and 72) holds; used by every branch lemma and by `Swap.Locality` |
| `Swap.Calls` | src/main.rs:43-79 | the calls of one refresh; pinned down by `Swap.CloneAlwaysAttempted` and `Swap.BackupFailureStillClones` |
| `Swap.BackupCalls` | src/main.rs:47-53 | the rename call of the backup step, when it is attempted |
| `Swap.FinishCalls` | src/main.rs:57-78 | the removal or restore call, when it is attempted |
| `Swap.Refresh` | src/main.rs:43-79 | the trace is one the `exists()` checks allow, the new filesystem is `Effect` of the old one and the trace, and the calls made are exactly `Calls` of the trace |
| `Swap.BackUp` | src/main.rs:47-53 | the rename is attempted exactly when the destination exists; the new state is `AfterBackup`, and the call made is `BackupCalls` |
| `Swap.Finish` | src/main.rs:57-78 | the removal (clone succeeded) or restore (clone failed) is attempted exactly when the backup path exists; the new state is `AfterFinish`, and the call made is `FinishCalls` |
| `Swap.CloneAlwaysAttempted` | src/main.rs:47-56 | every refresh makes the clone call: first when there was no destination, right after the backup rename otherwise; a refresh makes at most three calls |
| `Swap.Frame` | src/main.rs:43-79 | every path other than the destination and the backup path is unchanged by a refresh |
| `Swap.Locality` | src/main.rs:43-79 | the effect on the two paths, and whether a trace is possible, depend only on what those two paths hold |
| `Swap.BackupMovesDestination` | src/main.rs:47-50 | after a successful backup rename the destination is absent and the backup path holds the old destination tree |
| `Swap.BackupFailureStillClones` | src/main.rs:49-56 | a failed backup rename is followed at once by the clone call, and when that clone succeeds the destination holds the fresh tree |
| `Swap.CommitOnSuccess` | src/main.rs:56-66 | after a successful clone the destination holds the fresh tree, and a backup path remains exactly when its removal failed |
| `Swap.CleanupFailureKeepsClone` | src/main.rs:61-65 | a failed removal leaves the fresh tree at the destination and the backup path holding the previous copy or the stale backup |
| `Swap.FreshTarget` | src/main.rs:47-79 | with no previous copy and no backup path, success leaves exactly the fresh tree added and failure leaves the filesystem unchanged |
| `Swap.RollbackRestores` | src/main.rs:68-77 | a failed clone followed by a successful restore gives back the initial filesystem without the backup path, and the initial filesystem itself when there was no stale backup |
| `Swap.RestoreFailureStrandsBackup` | src/main.rs:71-76 | when the restore fails the destination is absent and the previous copy is at the backup path |
| `Swap.StaleBackupIsConsumed` | src/main.rs:60-76 | with no destination but a stale backup, the backup is removed after a successful clone and moved into the destination after a failed one |
| `Swap.PreviousCopySurvivesCloneFailure` | src/main.rs:47-77 | after a failed clone the previous copy is at the destination or the backup path, unless a failed backup rename was followed by a restore of a stale backup over it |
| `Swap.SelfBackupLosesClone` | src/main.rs:48-65 | when the destination is its own backup path, a successful clone is always followed by a removal attempt, and a successful removal leaves nothing at the destination |
| `Swap.OldNamedRepositoryLosesClone` | src/main.rs:43-65 | for a URL such as `base/legacy.old.git`, a successful clone followed by a successful cleanup leaves nothing at `output/legacy.old` |
| `Swap.PlainNamedRollbackRestores` | src/main.rs:43-77 | for a URL such as `base/alpha.git` with a previous copy and no stale backup, a failed clone with a successful restore leaves the filesystem as it was |
| `Fleet.TargetsOf` | src/main.rs:40-44 | one target per URL, in order, each derived from its own URL |
| `Fleet.FleetEffect` | src/main.rs:40-84 | the state after the whole pass; pinned down by `Fleet.FleetUntouched` and `Fleet.FleetIndependence` |
| `Fleet.FleetAdmissible` | src/main.rs:40-84 | which lists of outcomes the pass can produce; pinned down by `Fleet.FleetAdmissibleIffEach` |
| `Fleet.FleetCalls` | src/main.rs:40-84 | the calls of the whole pass, refresh after refresh; pinned down by `Fleet.FleetClonesEach` |
| `Fleet.RefreshAll` | src/main.rs:40-84 | one trace per URL; the traces are possible in sequence, the new filesystem is `FleetEffect` of the old one, and the calls made are exactly `FleetCalls` |
| `Fleet.FleetClonesEach` | src/main.rs:40-84 | every repository of the pass gets its clone call, and after a failed backup rename of a repository its clone call comes right after that rename |
| `Fleet.FleetUntouched` | src/main.rs:40-84 | a path that is no repository's destination or backup path is unchanged by the whole pass |
| `Fleet.FleetIndependence` | src/main.rs:40-84 | with no shared paths, each repository's two paths end the pass exactly as a refresh of that repository alone would leave them |
| `Fleet.FleetAdmissibleIffEach` | src/main.rs:40-84 | with no shared paths, a list of outcomes is possible for the pass exactly when each outcome is possible for its repository alone |

## Left out

- Fleet.RefreshAll: runs the refreshes one after another in list order instead of as concurrent tasks joined at the end (`tokio::spawn`, `join_all`). For repositories with no shared path, `Fleet.FleetIndependence` shows the order does not matter. Two URLs whose paths collide race in the program, and that race is not modelled. Paths collide when they share a destination, or share a backup path even with different destinations (`a/my.repo` and `b/my` both back up to `output/my.old`), or when one's destination is the other's backup path.
- Reading and parsing the configuration file and the command-line arguments, including the panics on a missing or malformed file, are external libraries and are not modelled.
- Fs.FileSystem.Clone: the network fetch of `git2` is not modelled; any tree may come back on success. A successful clone may replace an existing destination, whereas `git2` refuses to clone into a non-empty directory; so the success case of `Swap.BackupFailureStillClones` happens on a real system only when the live copy is an empty directory. A failed clone leaves the filesystem unchanged, although a real failed clone may leave a partial directory.
- Fs.FileSystem.RemoveDirAll: a failed removal changes nothing in the model. A real `remove_dir_all` deletes entries one by one and can fail partway, leaving a partly deleted tree at the backup path. So the backup-path clause of `Swap.CleanupFailureKeepsClone` holds on a real system only when the removal failed before deleting anything.
- Fs.FileSystem.Rename: the operating system's reasons for failure are not modelled; any call may fail. A successful rename replaces whatever was at the target, whereas a real rename onto a non-empty directory fails.
- Each path holds an opaque directory tree, so nesting of paths is not modelled. With an empty name the destination is the output directory itself, and renaming it would also move the other repositories' directories inside it.
- A `..` component is compared as written and is not resolved to the parent directory. Symbolic links are not modelled either.
- Paths and URLs are sequences of characters; non-UTF-8 file names and Windows path rules are not modelled.
- The printed messages (`println!`, `eprintln!`) are represented only by the returned `Trace`.
- The commented-out sequential version and the hourly schedule loop (`src/main.rs:86-139`) are dead code and are not modelled.
