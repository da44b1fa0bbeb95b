/** The swap protocol run for one repository (main.rs lines 43-79): move an
    existing copy to the backup path, clone into the destination, then either
    remove the backup (clone succeeded) or move it back (clone failed). Every
    failure is only logged; the protocol never stops early.

    The effect of a run is given as a function of the initial filesystem and
    a `Trace` of what each effect did, so that lemmas can state where every
    tree ends up in every branch. */
module Swap {
  import opened Paths
  import opened Fs

  /** What became of a guarded filesystem call: not attempted because the
      `exists()` check was false, attempted and succeeded, attempted and
      failed (the failure is printed and ignored). */
  datatype Step = Skipped | Done | Failed

  /** The outcome of one refresh: the backup rename (line 49), the clone
      (line 56, `Some(tree)` on success) and the final step, which is the
      backup removal (line 62) after a successful clone and the restore
      rename (line 73) after a failed one. */
  datatype Trace = Trace(backup: Step, clone: Option<Tree>, finish: Step)

  /** State after lines 47-53. */
  function AfterBackup(m: Entries, t: Target, s: Step): Entries {
    if s == Done && t.dest in m then Renamed(m, t.dest, t.backup) else m
  }

  /** State after line 56. */
  function AfterClone(m: Entries, t: Target, c: Option<Tree>): Entries {
    if c.Some? then m[t.dest := c.value] else m
  }

  /** State after lines 57-78. */
  function AfterFinish(m: Entries, t: Target, c: Option<Tree>, s: Step): Entries {
    if s != Done || t.backup !in m then m
    else if c.Some? then m - {t.backup}
    else Renamed(m, t.backup, t.dest)
  }

  /** The filesystem after a refresh of `t` that went as `tr` says. */
  function Effect(m: Entries, t: Target, tr: Trace): Entries {
    AfterFinish(AfterClone(AfterBackup(m, t, tr.backup), t, tr.clone), t, tr.clone, tr.finish)
  }

  /** The filesystem calls a refresh of `t` that went as `tr` makes, in order:
      the backup rename when it was attempted, then always the clone, then
      the removal or the restore when it was attempted. */
  function Calls(t: Target, tr: Trace): seq<Call> {
    BackupCalls(t, tr.backup) + [CloneCall(t.url, t.dest)] + FinishCalls(t, tr.clone, tr.finish)
  }

  /** The call made by lines 47-53. */
  function BackupCalls(t: Target, s: Step): seq<Call> {
    if s == Skipped then [] else [RenameCall(t.dest, t.backup)]
  }

  /** The call made by lines 57-78. */
  function FinishCalls(t: Target, c: Option<Tree>, s: Step): seq<Call> {
    if s == Skipped then []
    else if c.Some? then [RemoveCall(t.backup)]
    else [RenameCall(t.backup, t.dest)]
  }

  /** `tr` is a trace the refresh of `t` can produce from `m`: each guarded
      call is attempted exactly when its `exists()` check holds at that point. */
  predicate Admissible(m: Entries, t: Target, tr: Trace) {
    (tr.backup == Skipped <==> t.dest !in m) &&
    (tr.finish == Skipped <==> t.backup !in AfterClone(AfterBackup(m, t, tr.backup), t, tr.clone))
  }

  /** The per-repository task body: derive the paths, then back up, clone and
      commit or roll back, on the shared filesystem `fs`. */
  method Refresh(fs: FileSystem, output: Path, url: string) returns (tr: Trace)
    modifies fs
    ensures Admissible(old(fs.entries), TargetOf(output, url), tr)
    ensures fs.entries == Effect(old(fs.entries), TargetOf(output, url), tr)
    ensures fs.calls == old(fs.calls) + Calls(TargetOf(output, url), tr)
  {
    ghost var t := TargetOf(output, url);
    ghost var c0 := fs.calls;
    var dest := Destination(output, url);
    var backup := BackUp(fs, dest, t);
    ghost var c1 := fs.calls;
    var cloned := fs.Clone(url, dest);
    ghost var c2 := fs.calls;
    var finish := Finish(fs, dest, cloned, t);
    tr := Trace(backup, cloned, finish);
    assert c2 == c0 + (BackupCalls(t, backup) + [CloneCall(t.url, t.dest)]);
  }

  /** Lines 47-53: if the destination exists, try to rename it to the backup
      path; a failure is only reported. */
  method BackUp(fs: FileSystem, dest: Path, ghost t: Target) returns (backup: Step)
    requires t.dest == dest && t.backup == BackupPath(dest)
    modifies fs
    ensures backup == Skipped <==> t.dest !in old(fs.entries)
    ensures fs.entries == AfterBackup(old(fs.entries), t, backup)
    ensures fs.calls == old(fs.calls) + BackupCalls(t, backup)
  {
    backup := Skipped;
    if fs.Exists(dest) {
      var oldPath := BackupPath(dest);
      var ok := fs.Rename(dest, oldPath);
      backup := if ok then Done else Failed;
    }
  }

  /** Lines 57-78: after a successful clone remove the backup path, after a
      failed one rename it back to the destination, in both cases only if it
      exists; a failure is only reported. */
  method Finish(fs: FileSystem, dest: Path, cloned: Option<Tree>, ghost t: Target) returns (finish: Step)
    requires t.dest == dest && t.backup == BackupPath(dest)
    modifies fs
    ensures finish == Skipped <==> t.backup !in old(fs.entries)
    ensures fs.entries == AfterFinish(old(fs.entries), t, cloned, finish)
    ensures fs.calls == old(fs.calls) + FinishCalls(t, cloned, finish)
  {
    finish := Skipped;
    var oldPath := BackupPath(dest);
    if cloned.Some? {
      if fs.Exists(oldPath) {
        var ok := fs.RemoveDirAll(oldPath);
        finish := if ok then Done else Failed;
      }
    } else {
      if fs.Exists(oldPath) {
        var ok := fs.Rename(oldPath, dest);
        finish := if ok then Done else Failed;
      }
    }
  }

  /** Every refresh attempts the clone, and nothing but the four guarded
      calls and the clone is made. The clone is the first call when the
      destination did not exist and the second otherwise. */
  lemma CloneAlwaysAttempted(m: Entries, t: Target, tr: Trace)
    requires Admissible(m, t, tr)
    ensures var i := if t.dest in m then 1 else 0;
      i < |Calls(t, tr)| && Calls(t, tr)[i] == CloneCall(t.url, t.dest)
    ensures t.dest in m ==> Calls(t, tr)[0] == RenameCall(t.dest, t.backup)
    ensures |Calls(t, tr)| <= 3
  {
  }

  /** Nothing outside the destination and the backup path is read or written. */
  lemma Frame(m: Entries, t: Target, tr: Trace, p: Path)
    requires p != t.dest && p != t.backup
    ensures AgreeAt(Effect(m, t, tr), m, p)
  {
  }

  /** What a refresh does and whether a trace is possible depend only on what
      the two paths of the target hold. */
  lemma Locality(m1: Entries, m2: Entries, t: Target, tr: Trace)
    requires AgreeAt(m1, m2, t.dest) && AgreeAt(m1, m2, t.backup)
    ensures Admissible(m1, t, tr) <==> Admissible(m2, t, tr)
    ensures AgreeAt(Effect(m1, t, tr), Effect(m2, t, tr), t.dest)
    ensures AgreeAt(Effect(m1, t, tr), Effect(m2, t, tr), t.backup)
  {
  }

  /** Lines 47-50: a successful backup rename leaves the old destination tree
      at the backup path and nothing at the destination. */
  lemma BackupMovesDestination(m: Entries, t: Target, tr: Trace)
    requires Admissible(m, t, tr) && tr.backup == Done && t.dest != t.backup
    ensures t.dest !in AfterBackup(m, t, tr.backup)
    ensures t.backup in AfterBackup(m, t, tr.backup)
    ensures AfterBackup(m, t, tr.backup)[t.backup] == m[t.dest]
  {
  }

  /** Lines 49-56: a failed backup rename does not stop the refresh; the clone
      is the very next call, and when it succeeds the fresh tree replaces the
      existing copy in place. */
  lemma BackupFailureStillClones(m: Entries, t: Target, tr: Trace)
    requires Admissible(m, t, tr) && tr.backup == Failed
    ensures t.dest in m
    ensures Calls(t, tr)[..2] == [RenameCall(t.dest, t.backup), CloneCall(t.url, t.dest)]
    ensures tr.clone.Some? && t.dest != t.backup ==>
      t.dest in Effect(m, t, tr) && Effect(m, t, tr)[t.dest] == tr.clone.value
  {
  }

  /** Lines 56-66: after a successful clone the destination holds the fresh
      tree, and a backup remains exactly when its removal failed. */
  lemma CommitOnSuccess(m: Entries, t: Target, tr: Trace, tree: Tree)
    requires Admissible(m, t, tr) && tr.clone == Some(tree) && t.dest != t.backup
    ensures t.dest in Effect(m, t, tr) && Effect(m, t, tr)[t.dest] == tree
    ensures t.backup in Effect(m, t, tr) <==> tr.finish == Failed
  {
  }

  /** Lines 61-65: a failed removal after a successful clone leaves the
      fresh tree alone; only the backup lingers, holding the previous copy
      (or a stale backup from an earlier run when nothing was moved). */
  lemma CleanupFailureKeepsClone(m: Entries, t: Target, tr: Trace, tree: Tree)
    requires Admissible(m, t, tr) && tr.clone == Some(tree) && tr.finish == Failed
    requires t.dest != t.backup
    ensures Effect(m, t, tr)[t.dest] == tree
    ensures t.backup in Effect(m, t, tr)
    ensures Effect(m, t, tr)[t.backup] == if tr.backup == Done then m[t.dest] else m[t.backup]
  {
  }

  /** No earlier copy and no stale backup: a successful clone leaves exactly
      the fresh tree at the destination and creates no backup; a failed one
      leaves the filesystem as it was. */
  lemma FreshTarget(m: Entries, t: Target, tr: Trace)
    requires Admissible(m, t, tr) && t.dest !in m && t.backup !in m && t.dest != t.backup
    ensures tr.clone.Some? ==> Effect(m, t, tr) == m[t.dest := tr.clone.value]
    ensures tr.clone.None? ==> Effect(m, t, tr) == m
  {
  }

  /** Lines 68-77: after a failed clone, a successful restore puts the copy
      that existed before the refresh back at the destination, unchanged, and
      leaves no backup path; with no stale backup beforehand the whole
      filesystem is as it was. */
  lemma RollbackRestores(m: Entries, t: Target, tr: Trace)
    requires Admissible(m, t, tr) && t.dest in m && tr.backup == Done
    requires tr.clone.None? && tr.finish == Done && t.dest != t.backup
    ensures Effect(m, t, tr) == m - {t.backup}
    ensures t.backup !in m ==> Effect(m, t, tr) == m
  {
    var e := Effect(m, t, tr);
    forall p ensures AgreeAt(e, m - {t.backup}, p) {
      if p != t.dest && p != t.backup {
        Frame(m, t, tr, p);
      }
    }
  }

  /** Lines 73-75: when the restore itself fails, the destination is empty and
      the previous copy is stranded at the backup path. */
  lemma RestoreFailureStrandsBackup(m: Entries, t: Target, tr: Trace)
    requires Admissible(m, t, tr) && t.dest in m && tr.backup == Done
    requires tr.clone.None? && tr.finish == Failed && t.dest != t.backup
    ensures t.dest !in Effect(m, t, tr)
    ensures t.backup in Effect(m, t, tr) && Effect(m, t, tr)[t.backup] == m[t.dest]
  {
  }

  /** Lines 61 and 72 test whether the backup path exists, not whether this
      run made it. A stale backup left by an earlier run is removed after a
      successful clone and moved into the destination after a failed one. */
  lemma StaleBackupIsConsumed(m: Entries, t: Target, tr: Trace)
    requires Admissible(m, t, tr) && t.dest !in m && t.backup in m && t.dest != t.backup
    requires tr.finish == Done
    ensures t.backup !in Effect(m, t, tr)
    ensures tr.clone.Some? ==> Effect(m, t, tr) == m[t.dest := tr.clone.value] - {t.backup}
    ensures tr.clone.None? ==> Effect(m, t, tr)[t.dest] == m[t.backup]
  {
  }

  /** A failed clone never loses the copy that was at the destination (it is
      at the destination or at the backup path afterwards), except in one
      case: the backup rename failed while a stale backup existed, and the
      restore then moved the stale backup over the live copy. */
  lemma PreviousCopySurvivesCloneFailure(m: Entries, t: Target, tr: Trace)
    requires Admissible(m, t, tr) && t.dest in m && tr.clone.None? && t.dest != t.backup
    ensures var e := Effect(m, t, tr);
      (t.dest in e && e[t.dest] == m[t.dest]) || (t.backup in e && e[t.backup] == m[t.dest])
      || (tr.backup == Failed && tr.finish == Done)
    ensures tr.backup == Failed && tr.finish == Done ==>
      t.backup in m && Effect(m, t, tr)[t.dest] == m[t.backup] && t.backup !in Effect(m, t, tr)
  {
  }

  /** A destination that is its own backup path (a name such as
      "legacy.old"): the cleanup after a successful clone removes the tree
      just cloned, so nothing is left at the destination. */
  lemma SelfBackupLosesClone(m: Entries, t: Target, tr: Trace)
    requires Admissible(m, t, tr) && t.dest == t.backup && tr.clone.Some?
    ensures tr.finish != Skipped
    ensures tr.finish == Done ==> t.dest !in Effect(m, t, tr)
  {
  }

  /** A repository whose URL is `base/name` followed by any number of ".git",
      with a name such as "legacy.old": once the clone and the cleanup
      succeed, nothing is left at its destination. */
  lemma OldNamedRepositoryLosesClone(output: Path, base: string, name: string, k: nat, m: Entries, tr: Trace)
    requires '/' !in name && |name| > 4 && EndsWith(name, ".old")
    requires Admissible(m, TargetOf(output, base + "/" + name + Repeat(GitSuffix, k)), tr)
    requires tr.clone.Some? && tr.finish == Done
    ensures var t := TargetOf(output, base + "/" + name + Repeat(GitSuffix, k));
      t.dest == output + [Normal(name)] && t.dest !in Effect(m, t, tr)
  {
    OwnBackupTarget(output, base, name, k);
    SelfBackupLosesClone(m, TargetOf(output, base + "/" + name + Repeat(GitSuffix, k)), tr);
  }

  /** A URL `base/name` followed by any number of ".git", with a plain name
      such as "alpha", a previous copy at `output/name` and no
      `output/name.old`: when the clone fails and the restore succeeds, the
      filesystem is exactly as it was before the refresh. */
  lemma PlainNamedRollbackRestores(output: Path, base: string, name: string, k: nat, m: Entries, tr: Trace)
    requires name != "" && '/' !in name && '.' !in name
    requires output + [Normal(name)] in m && output + [Normal(name + ".old")] !in m
    requires Admissible(m, TargetOf(output, base + "/" + name + Repeat(GitSuffix, k)), tr)
    requires tr.backup == Done && tr.clone.None? && tr.finish == Done
    ensures Effect(m, TargetOf(output, base + "/" + name + Repeat(GitSuffix, k)), tr) == m
  {
    var t := TargetOf(output, base + "/" + name + Repeat(GitSuffix, k));
    PlainNameTarget(output, base, name, k);
    assert t.dest[|t.dest| - 1] != t.backup[|t.backup| - 1];
    RollbackRestores(m, t, tr);
  }
}
