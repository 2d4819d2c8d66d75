/** Publication of a set of report files with rollback. Any file operation may fail, with no
    effect, according to an arbitrary schedule. */
module ReportPublication {

  type Path = string
  type Content = string
  type Files = map<Path, Content>

  /** A directory, the schedule of failures, the history of every state it was in and the
      places in that history where a sync succeeded. */
  class Disk {
    const fails: nat -> bool
    var files: Files
    var ticks: nat
    ghost var history: seq<Files>
    ghost var synced: set<nat>

    constructor (files: Files, fails: nat -> bool)
      ensures Valid() && this.files == files && this.fails == fails && ticks == 0 && synced == {}
    {
      this.files, this.fails, this.ticks, this.history, this.synced := files, fails, 0, [files], {};
    }

    /** `history[t]` is the directory after the first `t` operations. */
    ghost predicate Valid()
      reads this
    {
      |history| == ticks + 1 && history[ticks] == files
    }

    /** `os.replace`: renames over the destination, or raises. */
    method Replace(source: Path, target: Path) returns (ok: bool)
      requires source != target
      modifies this
      ensures ok ==> source in old(files) && files == (old(files) - {source})[target := old(files)[source]]
      ensures !ok ==> files == old(files)
      ensures history == old(history) + [files] && ticks == old(ticks) + 1 && synced == old(synced)
      ensures ok <==> !fails(old(ticks)) && source in old(files)
    {
      ok := !fails(ticks) && source in files;
      ticks := ticks + 1;
      if ok { files := (files - {source})[target := files[source]]; }
      history := history + [files];
    }

    /** `unlink(missing_ok=True)`. */
    method Unlink(p: Path) returns (ok: bool)
      modifies this
      ensures files == if ok then old(files) - {p} else old(files)
      ensures history == old(history) + [files] && ticks == old(ticks) + 1 && synced == old(synced)
      ensures ok <==> !fails(old(ticks))
    {
      ok := !fails(ticks);
      ticks := ticks + 1;
      if ok { files := files - {p}; }
      history := history + [files];
    }

    /** `exists()`, which may raise. */
    method Exists(p: Path) returns (ok: bool, present: bool)
      modifies this
      ensures files == old(files) && history == old(history) + [files] && ticks == old(ticks) + 1 && synced == old(synced)
      ensures ok ==> present == (p in files)
      ensures ok <==> !fails(old(ticks))
    {
      ok, present := !fails(ticks), p in files;
      ticks := ticks + 1;
      history := history + [files];
    }

    /** Opening a new file, or writing to one just created. */
    method Put(p: Path, content: Content) returns (ok: bool)
      modifies this
      ensures files == if ok then old(files)[p := content] else old(files)
      ensures history == old(history) + [files] && ticks == old(ticks) + 1 && synced == old(synced)
      ensures ok <==> !fails(old(ticks))
    {
      ok := !fails(ticks);
      ticks := ticks + 1;
      if ok { files := files[p := content]; }
      history := history + [files];
    }

    /** `_fsync_directory` */
    method Sync() returns (ok: bool)
      modifies this
      ensures files == old(files) && history == old(history) + [files] && ticks == old(ticks) + 1
      ensures synced == if ok then old(synced) + {ticks} else old(synced)
      ensures ok <==> !fails(old(ticks))
    {
      ok := !fails(ticks);
      ticks := ticks + 1;
      history := history + [files];
      if ok { synced := synced + {ticks}; }
    }
  }

  /** What is to be published: for each target its new content and the temporary names that
      staging and backup will use. `before` is the directory as it was. */
  datatype Plan = Plan(
    targets: seq<Path>, contents: seq<Content>, stages: seq<Path>, backups: seq<Path>, before: Files)
  {
    /** One of each per target, all names different, the temporary ones unused. */
    ghost predicate Valid() {
      && |targets| == |contents| == |stages| == |backups|
      && (forall i, j :: 0 <= i < j < |targets| ==>
            targets[i] != targets[j] && stages[i] != stages[j] && backups[i] != backups[j])
      && (forall i, j :: 0 <= i < |targets| && 0 <= j < |targets| ==>
            targets[i] != stages[j] && targets[i] != backups[j] && stages[i] != backups[j])
      && (forall i :: 0 <= i < |targets| ==> stages[i] !in before && backups[i] !in before)
    }

    ghost predicate Index(i: int) { 0 <= i < |targets| }

    predicate Temporary(p: Path) { p in stages || p in backups }
  }

  predicate AsBefore(f: Files, before: Files, p: Path) {
    (p in f <==> p in before) && (p in before ==> f[p] == before[p])
  }

  /** The old content of target `i`, if it had any, is at the target or at its backup. */
  ghost predicate OldKept(plan: Plan, f: Files, i: int)
    requires plan.Valid() && plan.Index(i)
  {
    plan.targets[i] in plan.before ==>
      || (plan.targets[i] in f && f[plan.targets[i]] == plan.before[plan.targets[i]])
      || (plan.backups[i] in f && f[plan.backups[i]] == plan.before[plan.targets[i]])
  }

  ghost predicate IsNew(plan: Plan, f: Files, i: int)
    requires plan.Valid() && plan.Index(i)
  {
    plan.targets[i] in f && f[plan.targets[i]] == plan.contents[i]
  }

  ghost predicate AllOldKept(plan: Plan, f: Files)
    requires plan.Valid()
  {
    forall i :: plan.Index(i) ==> OldKept(plan, f, i)
  }

  ghost predicate AllNew(plan: Plan, f: Files)
    requires plan.Valid()
  {
    forall i :: plan.Index(i) ==> IsNew(plan, f, i)
  }

  /** Files that are neither targets nor temporaries are untouched. */
  ghost predicate OthersUntouched(plan: Plan, f: Files)
    requires plan.Valid()
  {
    forall p :: p !in plan.targets && !plan.Temporary(p) ==> AsBefore(f, plan.before, p)
  }

  // ---- Where one target stands ----

  /** Target as before, no backup. */
  ghost predicate Untouched(plan: Plan, f: Files, i: int)
    requires plan.Valid() && plan.Index(i)
  {
    AsBefore(f, plan.before, plan.targets[i]) && plan.backups[i] !in f
  }

  /** Old content moved to the backup, target absent. */
  ghost predicate Parked(plan: Plan, f: Files, i: int)
    requires plan.Valid() && plan.Index(i)
  {
    && plan.targets[i] !in f && plan.targets[i] in plan.before
    && plan.backups[i] in f && f[plan.backups[i]] == plan.before[plan.targets[i]]
  }

  /** New content in place; the backup holds the old content, if there was any. */
  ghost predicate Installed(plan: Plan, f: Files, i: int)
    requires plan.Valid() && plan.Index(i)
  {
    && IsNew(plan, f, i)
    && (if plan.targets[i] in plan.before
        then plan.backups[i] in f && f[plan.backups[i]] == plan.before[plan.targets[i]]
        else plan.backups[i] !in f)
  }

  /** Where a target may stand while publication can still be undone. */
  ghost predicate Undoable(plan: Plan, f: Files, installed: set<int>, i: int)
    requires plan.Valid() && plan.Index(i)
  {
    if i in installed then Installed(plan, f, i) else Untouched(plan, f, i) || Parked(plan, f, i)
  }

  ghost predicate AllUndoable(plan: Plan, f: Files, installed: set<int>)
    requires plan.Valid()
  {
    forall i :: plan.Index(i) ==> Undoable(plan, f, installed, i)
  }

  ghost predicate StagedFrom(plan: Plan, f: Files, k: int)
    requires plan.Valid()
  {
    forall i :: plan.Index(i) && k <= i ==> plan.stages[i] in f && f[plan.stages[i]] == plan.contents[i]
  }

  lemma UndoableKeepsOld(plan: Plan, f: Files, installed: set<int>)
    requires plan.Valid() && AllUndoable(plan, f, installed)
    ensures AllOldKept(plan, f)
  {
    forall i | plan.Index(i) ensures OldKept(plan, f, i) {
      assert Undoable(plan, f, installed, i);
    }
  }

  // ---- Changing the files of one target ----

  /** `f` and `g` differ at most in the files of target `k`. */
  ghost predicate AgreeOff(plan: Plan, f: Files, g: Files, k: int)
    requires plan.Valid() && plan.Index(k)
  {
    forall p :: p != plan.targets[k] && p != plan.stages[k] && p != plan.backups[k] ==>
      (p in f <==> p in g) && (p in f ==> f[p] == g[p])
  }

  lemma OneTargetAtATime(plan: Plan, f: Files, g: Files, left: set<int>, left': set<int>, k: int)
    requires plan.Valid() && plan.Index(k) && AgreeOff(plan, f, g, k)
    requires AllUndoable(plan, f, left) && OthersUntouched(plan, f)
    requires Undoable(plan, g, left', k)
    requires forall i :: i != k ==> (i in left <==> i in left')
    ensures AllUndoable(plan, g, left') && OthersUntouched(plan, g)
    ensures forall i :: plan.Index(i) && i != k && Untouched(plan, f, i) ==> Untouched(plan, g, i)
  {
    forall i | plan.Index(i) ensures Undoable(plan, g, left', i) {
      assert Undoable(plan, f, left, i);
    }
    forall p | p !in plan.targets && !plan.Temporary(p) ensures AsBefore(g, plan.before, p) {
      assert AsBefore(f, plan.before, p);
    }
  }

  // ---- The history of the directory ----

  /** Every state since `earlier` keeps every old content at its target or backup. */
  twostate predicate OldKeptSince(plan: Plan, disk: Disk)
    requires plan.Valid()
    reads disk
  {
    && old(disk.history) <= disk.history
    && forall k :: |old(disk.history)| <= k < |disk.history| ==> AllOldKept(plan, disk.history[k])
  }

  twostate predicate NewSince(plan: Plan, disk: Disk)
    requires plan.Valid()
    reads disk
  {
    && old(disk.history) <= disk.history
    && forall k :: |old(disk.history)| <= k < |disk.history| ==> AllNew(plan, disk.history[k])
  }

  /** Some operation from tick `from` up to tick `to` is made to fail. */
  ghost predicate Fault(fails: nat -> bool, from: nat, to: nat) {
    exists t :: from <= t < to && fails(t)
  }

  /** Time passed, and it went well exactly when no operation was made to fail. */
  twostate predicate Explained(disk: Disk, ok: bool)
    reads disk
  {
    && old(disk.ticks) <= disk.ticks
    && old(disk.synced) <= disk.synced
    && (old(disk.Valid()) ==> disk.Valid())
    && (ok <==> !Fault(disk.fails, old(disk.ticks), disk.ticks))
  }

  // ---- Publishing ----

  /** Move every existing target to its backup. */
  method Park(plan: Plan, disk: Disk) returns (ok: bool)
    requires plan.Valid() && AllUndoable(plan, disk.files, {}) && OthersUntouched(plan, disk.files)
    requires StagedFrom(plan, disk.files, 0)
    requires forall i :: plan.Index(i) ==> Untouched(plan, disk.files, i)
    modifies disk
    ensures Explained(disk, ok)
    ensures AllUndoable(plan, disk.files, {}) && OthersUntouched(plan, disk.files)
    ensures StagedFrom(plan, disk.files, 0)
    ensures OldKeptSince(plan, disk)
    ensures ok ==> forall i :: plan.Index(i) ==> plan.targets[i] !in disk.files
  {
    for k := 0 to |plan.targets|
      invariant Explained(disk, true)
      invariant AllUndoable(plan, disk.files, {}) && OthersUntouched(plan, disk.files)
      invariant StagedFrom(plan, disk.files, 0)
      invariant OldKeptSince(plan, disk)
      invariant forall i :: 0 <= i < k ==> plan.targets[i] !in disk.files
      invariant forall i :: k <= i < |plan.targets| ==> Untouched(plan, disk.files, i)
    {
      ok := ParkOne(plan, disk, k);
      if !ok { return; }
    }
    ok := true;
  }

  method ParkOne(plan: Plan, disk: Disk, k: int) returns (ok: bool)
    requires plan.Valid() && plan.Index(k)
    requires AllUndoable(plan, disk.files, {}) && OthersUntouched(plan, disk.files)
    requires Untouched(plan, disk.files, k)
    modifies disk
    ensures Explained(disk, ok)
    ensures AllUndoable(plan, disk.files, {}) && OthersUntouched(plan, disk.files)
    ensures OldKeptSince(plan, disk)
    ensures ok ==> plan.targets[k] !in disk.files
    ensures StagedFrom(plan, old(disk.files), 0) ==> StagedFrom(plan, disk.files, 0)
    ensures forall i :: plan.Index(i) && i != k && plan.targets[i] !in old(disk.files) ==>
              plan.targets[i] !in disk.files
    ensures forall i :: plan.Index(i) && i != k && Untouched(plan, old(disk.files), i) ==>
              Untouched(plan, disk.files, i)
  {
    UndoableKeepsOld(plan, disk.files, {});
    var answered, present := disk.Exists(plan.targets[k]);
    if !answered { return false; }
    if !present { return true; }
    ok := disk.Replace(plan.targets[k], plan.backups[k]);
    if ok {
      assert Parked(plan, disk.files, k);
      OneTargetAtATime(plan, old(disk.files), disk.files, {}, {}, k);
      UndoableKeepsOld(plan, disk.files, {});
    }
  }

  /** Move every staged file over its target. */
  method Install(plan: Plan, disk: Disk) returns (ok: bool, installed: set<int>)
    requires plan.Valid() && AllUndoable(plan, disk.files, {}) && OthersUntouched(plan, disk.files)
    requires StagedFrom(plan, disk.files, 0)
    requires forall i :: plan.Index(i) ==> plan.targets[i] !in disk.files
    modifies disk
    ensures Explained(disk, ok)
    ensures AllUndoable(plan, disk.files, installed) && OthersUntouched(plan, disk.files)
    ensures OldKeptSince(plan, disk)
    ensures ok ==> forall i :: plan.Index(i) ==> i in installed && plan.stages[i] !in disk.files
  {
    installed := {};
    for k := 0 to |plan.targets|
      invariant Explained(disk, true)
      invariant AllUndoable(plan, disk.files, installed) && OthersUntouched(plan, disk.files)
      invariant StagedFrom(plan, disk.files, k)
      invariant OldKeptSince(plan, disk)
      invariant forall i :: i in installed <==> 0 <= i < k
      invariant forall i :: k <= i < |plan.targets| ==> plan.targets[i] !in disk.files
      invariant forall i :: 0 <= i < k ==> plan.stages[i] !in disk.files
    {
      ok := InstallOne(plan, disk, installed, k);
      if !ok { return; }
      installed := installed + {k};
    }
    ok := true;
  }

  method InstallOne(plan: Plan, disk: Disk, installed: set<int>, k: int) returns (ok: bool)
    requires plan.Valid() && plan.Index(k) && k !in installed
    requires AllUndoable(plan, disk.files, installed) && OthersUntouched(plan, disk.files)
    requires plan.targets[k] !in disk.files
    requires plan.stages[k] in disk.files && disk.files[plan.stages[k]] == plan.contents[k]
    modifies disk
    ensures Explained(disk, ok)
    ensures AllUndoable(plan, disk.files, if ok then installed + {k} else installed)
    ensures OthersUntouched(plan, disk.files)
    ensures OldKeptSince(plan, disk)
    ensures ok ==> plan.stages[k] !in disk.files
    ensures StagedFrom(plan, old(disk.files), k + 1) ==> StagedFrom(plan, disk.files, k + 1)
    ensures forall i :: plan.Index(i) && i != k ==>
              && (plan.targets[i] in disk.files ==> plan.targets[i] in old(disk.files))
              && (plan.stages[i] in disk.files ==> plan.stages[i] in old(disk.files))
  {
    assert Undoable(plan, disk.files, installed, k);
    UndoableKeepsOld(plan, disk.files, installed);
    ok := disk.Replace(plan.stages[k], plan.targets[k]);
    if ok {
      assert Installed(plan, disk.files, k);
      OneTargetAtATime(plan, old(disk.files), disk.files, installed, installed + {k}, k);
      UndoableKeepsOld(plan, disk.files, installed + {k});
    }
  }

  /** The guarded block of `write_report`: back up, install, sync. */
  method Publish(plan: Plan, disk: Disk) returns (ok: bool, installed: set<int>)
    requires plan.Valid() && OthersUntouched(plan, disk.files)
    requires StagedFrom(plan, disk.files, 0)
    requires forall i :: plan.Index(i) ==> Untouched(plan, disk.files, i)
    modifies disk
    ensures Explained(disk, ok)
    ensures AllUndoable(plan, disk.files, installed) && OthersUntouched(plan, disk.files)
    ensures OldKeptSince(plan, disk)
    ensures ok ==> forall i :: plan.Index(i) ==> i in installed && plan.stages[i] !in disk.files
    ensures ok ==> disk.ticks in disk.synced
  {
    ok := Park(plan, disk);
    if !ok { return false, {}; }
    ok, installed := Install(plan, disk);
    UndoableKeepsOld(plan, disk.files, installed);
    if ok { ok := disk.Sync(); }
  }

  /** The handler of the guarded block: restore the targets, last first, then sync. */
  method Rollback(plan: Plan, disk: Disk, installed: set<int>) returns (clean: bool, ghost blame: map<int, nat>)
    requires plan.Valid() && AllUndoable(plan, disk.files, installed) && OthersUntouched(plan, disk.files)
    modifies disk
    ensures Explained(disk, clean)
    ensures OthersUntouched(plan, disk.files) && AllOldKept(plan, disk.files)
    ensures BackupsHoldOld(plan, disk.files)
    ensures OldKeptSince(plan, disk)
    ensures OwnFaults(disk.fails, old(disk.ticks), disk.ticks, blame) && (clean ==> blame == map[])
    ensures forall i :: plan.Index(i) && i !in blame ==> Untouched(plan, disk.files, i)
    ensures clean ==> disk.ticks in disk.synced
    ensures forall i :: plan.Index(i) ==> plan.targets[i] in disk.files ==>
              AsBefore(disk.files, plan.before, plan.targets[i]) || IsNew(plan, disk.files, i)
  {
    clean, blame := true, map[];
    ghost var left := installed;
    for k := |plan.targets| downto 0
      invariant Explained(disk, clean)
      invariant AllUndoable(plan, disk.files, left) && OthersUntouched(plan, disk.files)
      invariant OldKeptSince(plan, disk)
      invariant forall i :: 0 <= i < k ==> (i in left <==> i in installed)
      invariant OwnFaults(disk.fails, old(disk.ticks), disk.ticks, blame) && (clean ==> blame == map[])
      invariant forall i :: k <= i < |plan.targets| && i !in blame ==> Untouched(plan, disk.files, i)
    {
      ghost var t := disk.ticks;
      var restored := RestoreOne(plan, disk, installed, left, k);
      if restored {
        left := left - {k};
      } else {
        clean := false;
        blame := OneMoreFault(disk.fails, old(disk.ticks), t, disk.ticks, blame, k);
      }
    }
    UndoableKeepsOld(plan, disk.files, left);
    forall i | plan.Index(i)
      ensures plan.targets[i] in disk.files ==>
                AsBefore(disk.files, plan.before, plan.targets[i]) || IsNew(plan, disk.files, i)
      ensures plan.backups[i] in disk.files ==>
                plan.targets[i] in plan.before && disk.files[plan.backups[i]] == plan.before[plan.targets[i]]
    {
      assert Undoable(plan, disk.files, left, i);
    }
    var synced := disk.Sync();
    if !synced { clean := false; }
  }

  /** One iteration of the rollback loop. */
  method RestoreOne(plan: Plan, disk: Disk, installed: set<int>, ghost left: set<int>, k: int)
    returns (restored: bool)
    requires plan.Valid() && plan.Index(k) && (k in left <==> k in installed)
    requires AllUndoable(plan, disk.files, left) && OthersUntouched(plan, disk.files)
    modifies disk
    ensures Explained(disk, restored)
    ensures AllUndoable(plan, disk.files, if restored then left - {k} else left)
    ensures OthersUntouched(plan, disk.files)
    ensures OldKeptSince(plan, disk)
    ensures restored ==> Untouched(plan, disk.files, k)
    ensures forall i :: plan.Index(i) && i != k && Untouched(plan, old(disk.files), i) ==>
              Untouched(plan, disk.files, i)
  {
    ghost var f := disk.files;
    assert Undoable(plan, f, left, k);
    UndoableKeepsOld(plan, f, left);
    var answered, present := disk.Exists(plan.backups[k]);
    if !answered { return false; }
    if present {
      restored := disk.Replace(plan.backups[k], plan.targets[k]);
    } else if k in installed {
      restored := disk.Unlink(plan.targets[k]);
    } else {
      restored := true;
    }
    if restored {
      assert Untouched(plan, disk.files, k);
      OneTargetAtATime(plan, f, disk.files, left, left - {k}, k);
      UndoableKeepsOld(plan, disk.files, left - {k});
    }
  }

  // ---- Staging ----

  /** Only temporaries have been added to the directory. */
  ghost predicate OnlyTemporaries(plan: Plan, f: Files)
    requires plan.Valid()
  {
    forall p :: !plan.Temporary(p) ==> AsBefore(f, plan.before, p)
  }

  lemma OnlyTemporariesKeepsOld(plan: Plan, f: Files)
    requires plan.Valid() && OnlyTemporaries(plan, f)
    ensures AllOldKept(plan, f) && OthersUntouched(plan, f)
    ensures forall i :: plan.Index(i) ==> AsBefore(f, plan.before, plan.targets[i])
  {
    forall i | plan.Index(i) ensures AsBefore(f, plan.before, plan.targets[i]) && OldKept(plan, f, i) {
      assert !plan.Temporary(plan.targets[i]);
    }
  }

  ghost predicate SameExcept(f: Files, g: Files, name: Path) {
    forall p :: p != name ==> (p in f <==> p in g) && (p in f ==> f[p] == g[p])
  }

  /** The operation `m` ticks after `from` is the first to fail. */
  ghost predicate FailsAt(fails: nat -> bool, from: nat, m: nat) {
    fails(from + m) && forall t: nat :: from <= t < from + m ==> !fails(t)
  }

  /** Writing or removing a temporary leaves everything else alone. */
  method PutTemporary(plan: Plan, disk: Disk, p: Path, content: Content) returns (ok: bool)
    requires plan.Valid() && plan.Temporary(p) && OnlyTemporaries(plan, disk.files)
    modifies disk
    ensures Explained(disk, ok)
    ensures OnlyTemporaries(plan, disk.files) && OldKeptSince(plan, disk)
    ensures disk.files == if ok then old(disk.files)[p := content] else old(disk.files)
    ensures disk.ticks == old(disk.ticks) + 1
  {
    ok := disk.Put(p, content);
    OnlyTemporariesKeepsOld(plan, disk.files);
  }

  method UnlinkTemporary(plan: Plan, disk: Disk, p: Path) returns (ok: bool)
    requires plan.Valid() && plan.Temporary(p) && OnlyTemporaries(plan, disk.files)
    modifies disk
    ensures Explained(disk, ok)
    ensures OnlyTemporaries(plan, disk.files) && OldKeptSince(plan, disk)
    ensures disk.files == if ok then old(disk.files) - {p} else old(disk.files)
    ensures disk.ticks == old(disk.ticks) + 1
  {
    ok := disk.Unlink(p);
    OnlyTemporariesKeepsOld(plan, disk.files);
  }

  /** `_stage_report_file`: create, write, and on a failed write try to remove. */
  method StageReportFile(plan: Plan, disk: Disk, i: int) returns (ok: bool)
    requires plan.Valid() && plan.Index(i) && OnlyTemporaries(plan, disk.files)
    modifies disk
    ensures Explained(disk, ok)
    ensures OnlyTemporaries(plan, disk.files) && OldKeptSince(plan, disk)
    ensures ok ==> disk.files == old(disk.files)[plan.stages[i] := plan.contents[i]] && disk.ticks == old(disk.ticks) + 2
    ensures !ok ==> disk.fails(old(disk.ticks)) || disk.fails(old(disk.ticks) + 1)
    ensures disk.fails(old(disk.ticks)) ==> disk.files == old(disk.files)
    // a file that could not be written is removed again, if it can be
    ensures !ok && !disk.fails(old(disk.ticks)) && !disk.fails(old(disk.ticks) + 2) ==>
              disk.files == old(disk.files) - {plan.stages[i]}
    ensures SameExcept(disk.files, old(disk.files), plan.stages[i])
  {
    ok := PutTemporary(plan, disk, plan.stages[i], "");
    if !ok { return; }
    ok := PutTemporary(plan, disk, plan.stages[i], plan.contents[i]);
    if !ok {
      var _ := UnlinkTemporary(plan, disk, plan.stages[i]);
    }
  }

  /** `_reserve_report_backup`: create a file to claim its name, then remove it. */
  method ReserveReportBackup(plan: Plan, disk: Disk, i: int) returns (ok: bool)
    requires plan.Valid() && plan.Index(i) && OnlyTemporaries(plan, disk.files)
    requires plan.backups[i] !in disk.files
    modifies disk
    ensures Explained(disk, ok)
    ensures OnlyTemporaries(plan, disk.files) && OldKeptSince(plan, disk)
    ensures ok ==> disk.files == old(disk.files) && disk.ticks == old(disk.ticks) + 2
    ensures !ok ==> disk.fails(old(disk.ticks)) || disk.fails(old(disk.ticks) + 1)
    ensures disk.fails(old(disk.ticks)) ==> disk.files == old(disk.files)
    ensures SameExcept(disk.files, old(disk.files), plan.backups[i])
  {
    ok := PutTemporary(plan, disk, plan.backups[i], "");
    if !ok { return; }
    ok := UnlinkTemporary(plan, disk, plan.backups[i]);
  }

  /** Four operations stage one target: operation `m` of target `k` is the first to fail. */
  ghost predicate FailsIn(fails: nat -> bool, start: nat, k: nat, m: nat) {
    m < 4 && FailsAt(fails, start, 4 * k + m)
  }

  /** The name that is then left on disk: a staging file that was created and neither written
      nor, in the next operation, removed again, or a backup's placeholder not removed. */
  function Interrupted(plan: Plan, fails: nat -> bool, start: nat, k: nat, m: nat): seq<Path>
    requires |plan.targets| == |plan.stages| == |plan.backups|
  {
    if k < |plan.targets| then InterruptedOf(plan, k, m, fails(start + (4 * k + m) + 1)) else []
  }

  function InterruptedOf(plan: Plan, k: nat, m: nat, again: bool): seq<Path>
    requires k < |plan.targets| == |plan.stages| == |plan.backups|
  {
    if m == 1 && again then [plan.stages[k]] else if m == 3 then [plan.backups[k]] else []
  }

  /** Besides the first `staged` staging files, at most the names in `odd` differ from before. */
  ghost predicate StagedUpTo(plan: Plan, f: Files, staged: nat, odd: seq<Path>) {
    && staged <= |plan.stages|
    && forall p :: p !in plan.stages[..staged] && p !in odd ==> AsBefore(f, plan.before, p)
  }

  lemma StagedMore(plan: Plan, f: Files, g: Files, k: nat, odd: seq<Path>)
    requires k < |plan.stages| && StagedUpTo(plan, f, k, []) && SameExcept(g, f, plan.stages[k])
    requires odd == [plan.stages[k]] || g == f || (g == f - {plan.stages[k]} && plan.stages[k] !in plan.before)
    ensures StagedUpTo(plan, g, k + 1, [])
    ensures StagedUpTo(plan, g, k, odd)
  {
    assert plan.stages[..k + 1] == plan.stages[..k] + [plan.stages[k]];
    forall p | p !in plan.stages[..k] && p != plan.stages[k] ensures AsBefore(g, plan.before, p) {
      assert AsBefore(f, plan.before, p);
    }
  }

  lemma ReservedMore(plan: Plan, f: Files, g: Files, k: nat, name: Path, odd: seq<Path>)
    requires StagedUpTo(plan, f, k, []) && SameExcept(g, f, name)
    requires odd == [name] || g == f
    ensures StagedUpTo(plan, g, k, odd)
  {
    forall p | p !in plan.stages[..k] && p != name ensures AsBefore(g, plan.before, p) {
      assert AsBefore(f, plan.before, p);
    }
  }

  /** The first `k` targets are staged, and nothing else has changed. */
  ghost predicate Staging(plan: Plan, f: Files, k: nat)
    requires plan.Valid()
  {
    && StagedUpTo(plan, f, k, [])
    && (forall i :: plan.Index(i) ==> plan.backups[i] !in f)
    && (forall i :: plan.Index(i) && i < k ==> plan.stages[i] in f && f[plan.stages[i]] == plan.contents[i])
  }

  lemma StagingAdvances(plan: Plan, f: Files, k: nat)
    requires plan.Valid() && plan.Index(k) && Staging(plan, f, k)
    ensures Staging(plan, f[plan.stages[k] := plan.contents[k]], k + 1)
  {
    StagedMore(plan, f, f[plan.stages[k] := plan.contents[k]], k, [plan.stages[k]]);
  }

  lemma StagingIsTemporary(plan: Plan, f: Files, k: nat)
    requires plan.Valid() && Staging(plan, f, k)
    ensures OnlyTemporaries(plan, f) && AllOldKept(plan, f)
  {
    assert forall p :: p in plan.stages[..k] ==> p in plan.stages;
    forall p | !plan.Temporary(p) ensures AsBefore(f, plan.before, p) {
      assert p !in plan.stages[..k];
    }
    OnlyTemporariesKeepsOld(plan, f);
  }

  lemma AllStaged(plan: Plan, f: Files)
    requires plan.Valid() && Staging(plan, f, |plan.targets|)
    ensures StagedFrom(plan, f, 0)
    ensures forall i :: plan.Index(i) ==> Untouched(plan, f, i)
  {
    StagingIsTemporary(plan, f, |plan.targets|);
    OnlyTemporariesKeepsOld(plan, f);
  }

  /** The loop body of staging: `m` says which of its operations was the first to fail. */
  method StageOne(plan: Plan, disk: Disk, k: nat) returns (staged: bool, reserved: bool, ghost m: nat)
    requires plan.Valid() && plan.Index(k) && Staging(plan, disk.files, k)
    modifies disk
    ensures Explained(disk, reserved) && (reserved ==> staged)
    ensures OnlyTemporaries(plan, disk.files) && OldKeptSince(plan, disk)
    ensures reserved ==> disk.ticks == old(disk.ticks) + 4 && Staging(plan, disk.files, k + 1)
    ensures !reserved ==> m < 4 && FailsAt(disk.fails, old(disk.ticks), m)
    ensures !reserved ==> StagedUpTo(plan, disk.files, if staged then k + 1 else k,
                              InterruptedOf(plan, k, m, disk.fails(old(disk.ticks) + m + 1)))
  {
    StagingAdvances(plan, disk.files, k);
    reserved := false;
    staged, m := StageFile(plan, disk, k);
    if staged {
      reserved, m := ReserveName(plan, disk, k);
    }
  }

  method StageFile(plan: Plan, disk: Disk, k: nat) returns (ok: bool, ghost m: nat)
    requires plan.Valid() && plan.Index(k) && Staging(plan, disk.files, k)
    modifies disk
    ensures Explained(disk, ok)
    ensures OnlyTemporaries(plan, disk.files) && OldKeptSince(plan, disk)
    ensures ok ==> disk.files == old(disk.files)[plan.stages[k] := plan.contents[k]] && disk.ticks == old(disk.ticks) + 2
    ensures !ok ==> m < 4 && FailsAt(disk.fails, old(disk.ticks), m)
    ensures !ok ==> StagedUpTo(plan, disk.files, k, InterruptedOf(plan, k, m, disk.fails(old(disk.ticks) + m + 1)))
  {
    StagingIsTemporary(plan, disk.files, k);
    ok := StageReportFile(plan, disk, k);
    m := if disk.fails(old(disk.ticks)) then 0 else 1;
    if !ok {
      ghost var again := disk.fails(old(disk.ticks) + m + 1);
      StagedMore(plan, old(disk.files), disk.files, k, InterruptedOf(plan, k, m, again));
    }
  }

  /** Two operations into the staging of target `k`. */
  method ReserveName(plan: Plan, disk: Disk, k: nat) returns (ok: bool, ghost m: nat)
    requires plan.Valid() && plan.Index(k) && Staging(plan, disk.files, k + 1) && OnlyTemporaries(plan, disk.files)
    modifies disk
    ensures Explained(disk, ok)
    ensures OnlyTemporaries(plan, disk.files) && OldKeptSince(plan, disk)
    ensures ok ==> disk.files == old(disk.files) && disk.ticks == old(disk.ticks) + 2
    ensures !ok ==> 2 <= m < 4 && FailsAt(disk.fails, old(disk.ticks), m - 2)
    ensures !ok ==> forall again :: StagedUpTo(plan, disk.files, k + 1, InterruptedOf(plan, k, m, again))
  {
    ok := ReserveReportBackup(plan, disk, k);
    m := if disk.fails(old(disk.ticks)) then 2 else 3;
    if !ok {
      forall again ensures StagedUpTo(plan, disk.files, k + 1, InterruptedOf(plan, k, m, again)) {
        ReservedMore(plan, old(disk.files), disk.files, k + 1, plan.backups[k], InterruptedOf(plan, k, m, again));
      }
    }
  }

  /** Everything staged and every backup name reserved; the counts say how far it got, and
      `m` which operation was the first to fail. */
  method StageAll(plan: Plan, disk: Disk) returns (ok: bool, staged: nat, reserved: nat, ghost m: nat)
    requires plan.Valid() && disk.files == plan.before
    modifies disk
    ensures Explained(disk, ok)
    ensures reserved <= staged <= |plan.targets|
    ensures OnlyTemporaries(plan, disk.files) && OldKeptSince(plan, disk)
    ensures !ok ==>
              && FailsIn(disk.fails, old(disk.ticks), reserved, m)
              && StagedUpTo(plan, disk.files, staged, Interrupted(plan, disk.fails, old(disk.ticks), reserved, m))
    ensures ok ==> reserved == |plan.targets| && StagedFrom(plan, disk.files, 0)
    ensures ok ==> forall i :: plan.Index(i) ==> Untouched(plan, disk.files, i)
    ensures ok ==> disk.ticks in disk.synced
  {
    ok, staged, reserved, m := StageLoop(plan, disk);
    if !ok { return; }
    StagingIsTemporary(plan, disk.files, |plan.targets|);
    AllStaged(plan, disk.files);
    ok := disk.Sync();
    m := 0;
    if !ok { LaterFault(disk.fails, old(disk.ticks), 4 * |plan.targets|, 0); }
  }

  method StageLoop(plan: Plan, disk: Disk) returns (ok: bool, staged: nat, reserved: nat, ghost m: nat)
    requires plan.Valid() && disk.files == plan.before
    modifies disk
    ensures Explained(disk, ok)
    ensures reserved <= staged <= |plan.targets|
    ensures OnlyTemporaries(plan, disk.files) && OldKeptSince(plan, disk)
    ensures !ok ==>
              && FailsIn(disk.fails, old(disk.ticks), reserved, m)
              && StagedUpTo(plan, disk.files, staged, Interrupted(plan, disk.fails, old(disk.ticks), reserved, m))
    ensures ok ==> reserved == |plan.targets| && Staging(plan, disk.files, |plan.targets|)
    ensures ok ==> disk.ticks == old(disk.ticks) + 4 * |plan.targets|
  {
    staged, reserved, m := 0, 0, 0;
    for k := 0 to |plan.targets|
      invariant Explained(disk, true) && disk.ticks == old(disk.ticks) + 4 * k
      invariant staged == reserved == k
      invariant Staging(plan, disk.files, k) && OldKeptSince(plan, disk)
    {
      ghost var t := disk.ticks;
      var stagedIt, reservedIt;
      stagedIt, reservedIt, m := StageOne(plan, disk, k);
      if stagedIt { staged := k + 1; }
      if !reservedIt {
        StagingStopped(plan, disk.fails, old(disk.ticks), t, k, m);
        return false, staged, reserved, m;
      }
      reserved := k + 1;
    }
    StagingIsTemporary(plan, disk.files, |plan.targets|);
    ok := true;
  }

  lemma StagingStopped(plan: Plan, fails: nat -> bool, start: nat, t: nat, k: nat, m: nat)
    requires k < |plan.targets| == |plan.stages| == |plan.backups|
    requires t == start + 4 * k && !Fault(fails, start, t) && m < 4 && FailsAt(fails, t, m)
    ensures FailsIn(fails, start, k, m)
    ensures Interrupted(plan, fails, start, k, m) == InterruptedOf(plan, k, m, fails(t + m + 1))
  {
    LaterFault(fails, start, 4 * k, m);
  }

  lemma LaterFault(fails: nat -> bool, start: nat, passed: nat, m: nat)
    requires !Fault(fails, start, start + passed) && FailsAt(fails, start + passed, m)
    ensures FailsAt(fails, start, passed + m)
  {}

  // ---- Cleanup ----

  /** Each of some targets has a failed operation of its own between two ticks. */
  ghost predicate OwnFaults(fails: nat -> bool, from: nat, to: nat, blame: map<int, nat>) {
    && (forall i :: i in blame ==> from <= blame[i] < to && fails(blame[i]))
    && (forall i, j :: i in blame && j in blame && i != j ==> blame[i] != blame[j])
  }

  lemma OneMoreFault(fails: nat -> bool, from: nat, mid: nat, to: nat, blame: map<int, nat>, k: int)
      returns (more: map<int, nat>)
    requires from <= mid && OwnFaults(fails, from, mid, blame) && Fault(fails, mid, to)
    ensures OwnFaults(fails, from, to, more) && more.Keys == blame.Keys + {k}
  {
    var t: nat :| mid <= t < to && fails(t);
    more := blame[k := t];
  }

  /** Remove the backups of a published report, then sync. */
  method Cleanup(plan: Plan, disk: Disk) returns (clean: bool, ghost blame: map<int, nat>)
    requires plan.Valid() && AllNew(plan, disk.files) && OthersUntouched(plan, disk.files)
    modifies disk
    ensures Explained(disk, clean)
    ensures AllNew(plan, disk.files) && OthersUntouched(plan, disk.files)
    ensures NewSince(plan, disk)
    ensures OwnFaults(disk.fails, old(disk.ticks), disk.ticks, blame) && (clean ==> blame == map[])
    ensures forall i :: plan.Index(i) && i !in blame ==> plan.backups[i] !in disk.files
    ensures clean ==> disk.ticks in disk.synced
    ensures forall p :: p in disk.files ==> p in old(disk.files) && disk.files[p] == old(disk.files)[p]
  {
    clean, blame := true, map[];
    for k := 0 to |plan.targets|
      invariant Explained(disk, clean)
      invariant AllNew(plan, disk.files) && OthersUntouched(plan, disk.files)
      invariant NewSince(plan, disk)
      invariant OwnFaults(disk.fails, old(disk.ticks), disk.ticks, blame) && (clean ==> blame == map[])
      invariant forall i :: 0 <= i < k && i !in blame ==> plan.backups[i] !in disk.files
      invariant forall p :: p in disk.files ==> p in old(disk.files) && disk.files[p] == old(disk.files)[p]
    {
      ghost var t := disk.ticks;
      var gone := RemoveBackup(plan, disk, k);
      if !gone {
        clean := false;
        blame := OneMoreFault(disk.fails, old(disk.ticks), t, disk.ticks, blame, k);
      }
    }
    var synced := disk.Sync();
    if !synced { clean := false; }
  }

  method RemoveBackup(plan: Plan, disk: Disk, k: int) returns (gone: bool)
    requires plan.Valid() && plan.Index(k) && AllNew(plan, disk.files) && OthersUntouched(plan, disk.files)
    modifies disk
    ensures Explained(disk, gone)
    ensures AllNew(plan, disk.files) && OthersUntouched(plan, disk.files)
    ensures NewSince(plan, disk)
    ensures gone ==> plan.backups[k] !in disk.files
    ensures forall p :: p in disk.files ==> p in old(disk.files) && disk.files[p] == old(disk.files)[p]
  {
    RemovingTemporary(plan, disk.files, plan.backups[k]);
    gone := disk.Unlink(plan.backups[k]);
  }

  lemma RemovingTemporary(plan: Plan, f: Files, p: Path)
    requires plan.Valid() && plan.Temporary(p)
    ensures AllNew(plan, f) ==> AllNew(plan, f - {p})
    ensures OthersUntouched(plan, f) ==> OthersUntouched(plan, f - {p})
  {
    if AllNew(plan, f) {
      forall i | plan.Index(i) ensures IsNew(plan, f - {p}, i) {
        assert IsNew(plan, f, i);
      }
    }
  }

  /** The `finally` loop: it stops at the first removal that raises. */
  method RemoveAll(plan: Plan, disk: Disk, names: seq<Path>) returns (tidy: bool, ghost removed: nat)
    requires plan.Valid() && forall p :: p in names ==> plan.Temporary(p)
    modifies disk
    ensures Explained(disk, tidy)
    ensures Pruned(old(disk.files), disk.files, names)
    ensures removed <= |names| && (tidy <==> removed == |names|)
    ensures forall p :: p in disk.files <==> p in old(disk.files) && p !in names[..removed]
    ensures old(disk.history) <= disk.history
    ensures forall k :: |old(disk.history)| <= k < |disk.history| ==>
              Pruned(old(disk.files), disk.history[k], names)
  {
    for n := 0 to |names|
      invariant Explained(disk, true)
      invariant Pruned(old(disk.files), disk.files, names)
      invariant forall p :: p in disk.files <==> p in old(disk.files) && p !in names[..n]
      invariant old(disk.history) <= disk.history
      invariant forall k :: |old(disk.history)| <= k < |disk.history| ==>
        Pruned(old(disk.files), disk.history[k], names)
    {
      assert names[n] in names;
      var gone := disk.Unlink(names[n]);
      if !gone { return false, n; }
      assert names[..n + 1] == names[..n] + [names[n]];
    }
    assert names[..|names|] == names;
    tidy, removed := true, |names|;
  }

  // ---- `write_report` ----

  /** How publication ended, before the final removal of temporaries. */
  datatype Ending =
    | StagingFailed
    | RolledBack
    | RollbackIncomplete  // backups preserved
    | CleanupIncomplete   // backups preserved
    | Published

  /** A backup still on disk holds the old content of its target. */
  ghost predicate BackupsHoldOld(plan: Plan, f: Files)
    requires plan.Valid()
  {
    forall i :: plan.Index(i) && plan.backups[i] in f ==>
      plan.targets[i] in plan.before && f[plan.backups[i]] == plan.before[plan.targets[i]]
  }

  /** No staging name is left on disk. */
  ghost predicate NothingStaged(plan: Plan, f: Files)
    requires plan.Valid()
  {
    forall i :: plan.Index(i) ==> plan.stages[i] !in f
  }

  /** Everything but the names in `odd` is as before. */
  ghost predicate AsBeforeBut(plan: Plan, f: Files, odd: seq<Path>) {
    forall p :: p !in odd ==> AsBefore(f, plan.before, p)
  }

  /** What each ending leaves on disk. `tidy`: the final removal did not raise; then nothing
      is left under a staging name, but for one whose own creation was interrupted. */
  ghost predicate Leaves(plan: Plan, f: Files, ending: Ending, tidy: bool)
    requires plan.Valid()
  {
    && OthersUntouched(plan, f)
    && (tidy && !ending.StagingFailed? ==> NothingStaged(plan, f))
    && match ending
       case Published =>
         && AllNew(plan, f)
         && (forall i :: plan.Index(i) ==> plan.backups[i] !in f)
         && (tidy ==> forall p :: p !in plan.targets ==> AsBefore(f, plan.before, p))
       case CleanupIncomplete => AllNew(plan, f) && BackupsHoldOld(plan, f)
       case RolledBack =>
         && OnlyTemporaries(plan, f)
         && (forall i :: plan.Index(i) ==> plan.backups[i] !in f)
         && (tidy ==> f == plan.before)
       case StagingFailed => OnlyTemporaries(plan, f)
       case RollbackIncomplete =>
         && AllOldKept(plan, f) && BackupsHoldOld(plan, f)
         && (forall i :: plan.Index(i) && plan.targets[i] in f ==>
               AsBefore(f, plan.before, plan.targets[i]) || IsNew(plan, f, i))
  }

  /** The final removal takes away nothing but temporaries, and no preserved backup. */
  ghost predicate Spares(plan: Plan, settled: Files, f: Files, ending: Ending) {
    forall p :: !plan.Temporary(p) || (Preserves(ending) && p !in plan.stages) ==> AsBefore(f, settled, p)
  }

  /** The tick at which each phase was over: staging, publication, and then the rollback or
      the removal of backups; `blame` gives a failed operation of that last phase for each
      target that it did not restore, or whose backup it did not remove. */
  datatype Phases = Phases(staged: nat, published: nat, settled: nat, blame: map<int, nat>)

  /** Which ending it is depends on nothing but the phases in which some operation failed. */
  ghost predicate EndsAs(fails: nat -> bool, start: nat, phases: Phases, ending: Ending) {
    && start <= phases.staged <= phases.published <= phases.settled
    && ending ==
       if Fault(fails, start, phases.staged) then StagingFailed
       else if Fault(fails, phases.staged, phases.published) then
         if Fault(fails, phases.published, phases.settled) then RollbackIncomplete else RolledBack
       else
         if Fault(fails, phases.published, phases.settled) then CleanupIncomplete else Published
  }

  /** The last phase went on past every failure: it fell short only for targets of which some
      operation of their own failed. */
  ghost predicate Thorough(plan: Plan, fails: nat -> bool, history: seq<Files>, phases: Phases, ending: Ending)
    requires plan.Valid() && phases.settled < |history|
  {
    && OwnFaults(fails, phases.published, phases.settled, phases.blame)
    && forall i :: plan.Index(i) && i !in phases.blame ==>
         && (ending.RollbackIncomplete? ==> Untouched(plan, history[phases.settled], i))
         && (ending.CleanupIncomplete? ==> plan.backups[i] !in history[phases.settled])
  }

  /** What a sync had made durable when each phase was over: first every staged file beside
      the untouched targets, then every new file beside every backup, and in the end the
      restored or the cleaned-up directory. */
  ghost predicate Durable(plan: Plan, history: seq<Files>, synced: set<nat>, phases: Phases, ending: Ending)
    requires plan.Valid()
  {
    && phases.staged <= phases.published <= phases.settled < |history|
    && (!ending.StagingFailed? ==>
          && phases.staged in synced && StagedFrom(plan, history[phases.staged], 0)
          && forall i :: plan.Index(i) ==> Untouched(plan, history[phases.staged], i))
    && (Commits(ending) ==>
          && phases.published in synced
          && forall i :: plan.Index(i) ==> Installed(plan, history[phases.published], i))
    && (ending.RolledBack? ==>
          && phases.settled in synced
          && forall i :: plan.Index(i) ==> Untouched(plan, history[phases.settled], i))
    && (ending.Published? ==>
          && phases.settled in synced && AllNew(plan, history[phases.settled])
          && forall i :: plan.Index(i) ==> plan.backups[i] !in history[phases.settled])
  }

  /** Old contents are safe in every state after the first `start` operations: to the end,
      or until publication is over, from when on every new file is in place. */
  ghost predicate NeverLoses(plan: Plan, history: seq<Files>, start: nat, phases: Phases, ending: Ending)
    requires plan.Valid()
  {
    && phases.published < |history|
    && (forall k :: start < k < |history| && (Commits(ending) ==> k <= phases.published) ==>
          AllOldKept(plan, history[k]))
    && (Commits(ending) ==> forall k :: phases.published <= k < |history| ==> AllNew(plan, history[k]))
  }

  predicate Preserves(ending: Ending) { ending.RollbackIncomplete? || ending.CleanupIncomplete? }

  predicate Commits(ending: Ending) { ending.Published? || ending.CleanupIncomplete? }

  /** The temporaries the `finally` clause removes. */
  function Leftovers(plan: Plan, ending: Ending, staged: nat, reserved: nat): seq<Path>
    requires staged <= |plan.stages| && reserved <= |plan.backups|
  {
    if Preserves(ending) then plan.stages[..staged] else plan.stages[..staged] + plan.backups[..reserved]
  }

  /** `write_report` up to its `finally` clause. */
  method PublishOrRestore(plan: Plan, disk: Disk)
    returns (ending: Ending, staged: nat, reserved: nat, ghost phases: Phases, ghost m: nat)
    requires plan.Valid() && disk.Valid() && disk.files == plan.before
    modifies disk
    ensures disk.Valid()
    ensures EndsAs(disk.fails, old(disk.ticks), phases, ending) && phases.settled == disk.ticks
    ensures Durable(plan, disk.history, disk.synced, phases, ending)
    ensures Thorough(plan, disk.fails, disk.history, phases, ending)
    ensures ending.StagingFailed? ==>
              && FailsIn(disk.fails, old(disk.ticks), reserved, m)
              && StagedUpTo(plan, disk.files, staged, Interrupted(plan, disk.fails, old(disk.ticks), reserved, m))
    ensures staged <= |plan.targets| && reserved <= |plan.targets|
    ensures !ending.StagingFailed? ==> staged == reserved == |plan.targets|
    ensures Leaves(plan, disk.files, ending, false)
    ensures NeverLoses(plan, disk.history, old(disk.ticks), phases, ending)
  {
    var ok;
    ok, staged, reserved, m := StageAll(plan, disk);
    OnlyTemporariesKeepsOld(plan, disk.files);
    phases := Phases(disk.ticks, disk.ticks, disk.ticks, map[]);
    if !ok { return StagingFailed, staged, reserved, phases, m; }
    ghost var published, blame;
    ending, published, blame := PublishStaged(plan, disk);
    phases := phases.(published := published, settled := disk.ticks, blame := blame);
  }

  /** From the staged files on: the guarded block, then the removal of backups or rollback. */
  method PublishStaged(plan: Plan, disk: Disk) returns (ending: Ending, ghost published: nat, ghost blame: map<int, nat>)
    requires plan.Valid() && disk.Valid() && OthersUntouched(plan, disk.files)
    requires StagedFrom(plan, disk.files, 0) && forall i :: plan.Index(i) ==> Untouched(plan, disk.files, i)
    requires disk.ticks in disk.synced
    modifies disk
    ensures disk.Valid() && old(disk.ticks) <= published <= disk.ticks
    ensures old(disk.history) <= disk.history && old(disk.synced) <= disk.synced
    ensures ending ==
              if Fault(disk.fails, old(disk.ticks), published) then
                if Fault(disk.fails, published, disk.ticks) then RollbackIncomplete else RolledBack
              else
                if Fault(disk.fails, published, disk.ticks) then CleanupIncomplete else Published
    ensures var phases := Phases(old(disk.ticks), published, disk.ticks, blame);
            && Durable(plan, disk.history, disk.synced, phases, ending)
            && Thorough(plan, disk.fails, disk.history, phases, ending)
            && NeverLoses(plan, disk.history, old(disk.ticks), phases, ending)
    ensures Leaves(plan, disk.files, ending, false)
  {
    var ok, installed := Publish(plan, disk);
    published := disk.ticks;
    ending, blame := Settle(plan, disk, ok, installed);
  }

  /** After the guarded block: remove the backups, or roll back. */
  method Settle(plan: Plan, disk: Disk, published: bool, installed: set<int>)
    returns (ending: Ending, ghost blame: map<int, nat>)
    requires plan.Valid() && disk.Valid()
    requires AllUndoable(plan, disk.files, installed) && OthersUntouched(plan, disk.files)
    requires published ==> forall i :: plan.Index(i) ==> i in installed
    modifies disk
    ensures Explained(disk, ending.Published? || ending.RolledBack?) && disk.Valid()
    ensures if published then Commits(ending) else ending.RolledBack? || ending.RollbackIncomplete?
    ensures Leaves(plan, disk.files, ending, false)
    ensures if published then NewSince(plan, disk) else OldKeptSince(plan, disk)
    ensures published ==> forall i :: plan.Index(i) ==> Installed(plan, old(disk.files), i)
    ensures OwnFaults(disk.fails, old(disk.ticks), disk.ticks, blame)
    ensures forall i :: plan.Index(i) && i !in blame ==>
              if published then plan.backups[i] !in disk.files else Untouched(plan, disk.files, i)
    ensures ending.RolledBack? || ending.Published? ==> blame == map[] && disk.ticks in disk.synced
  {
    if published {
      assert AllNew(plan, disk.files) && BackupsHoldOld(plan, disk.files) by {
        forall i | plan.Index(i) ensures Installed(plan, disk.files, i) {
          assert Undoable(plan, disk.files, installed, i);
        }
      }
      var clean;
      clean, blame := Cleanup(plan, disk);
      ending := if clean then Published else CleanupIncomplete;
    } else {
      var clean;
      clean, blame := Rollback(plan, disk, installed);
      if clean { UntouchedEverywhere(plan, disk.files); }
      ending := if clean then RolledBack else RollbackIncomplete;
    }
  }

  lemma UntouchedEverywhere(plan: Plan, f: Files)
    requires plan.Valid() && OthersUntouched(plan, f)
    requires forall i :: plan.Index(i) ==> Untouched(plan, f, i)
    ensures OnlyTemporaries(plan, f)
  {
    forall p | !plan.Temporary(p) ensures AsBefore(f, plan.before, p) {
      if p in plan.targets {
        var i :| 0 <= i < |plan.targets| && plan.targets[i] == p;
        assert Untouched(plan, f, i);
      }
    }
  }

  /** `g` is `f` with some of `names` removed. */
  ghost predicate Pruned(f: Files, g: Files, names: seq<Path>) {
    && (forall p :: p in g ==> p in f && g[p] == f[p])
    && (forall p :: p in f && p !in names ==> p in g)
  }

  lemma PrunedKeeps(plan: Plan, f: Files, g: Files, names: seq<Path>)
    requires plan.Valid() && Pruned(f, g, names) && forall p :: p in names ==> plan.Temporary(p)
    ensures OthersUntouched(plan, f) ==> OthersUntouched(plan, g)
    ensures OnlyTemporaries(plan, f) ==> OnlyTemporaries(plan, g) && AllOldKept(plan, g)
    ensures AllNew(plan, f) ==> AllNew(plan, g)
    ensures AllOldKept(plan, f) && (forall i :: plan.Index(i) ==> plan.backups[i] !in names) ==> AllOldKept(plan, g)
  {
    forall i | plan.Index(i) ensures !plan.Temporary(plan.targets[i]) {}
    if AllNew(plan, f) {
      forall i | plan.Index(i) ensures IsNew(plan, g, i) { assert IsNew(plan, f, i); }
    }
    if AllOldKept(plan, f) && forall i :: plan.Index(i) ==> plan.backups[i] !in names {
      forall i | plan.Index(i) ensures OldKept(plan, g, i) { assert OldKept(plan, f, i); }
    }
    if OnlyTemporaries(plan, f) {
      forall p | !plan.Temporary(p) ensures AsBefore(g, plan.before, p) { assert AsBefore(f, plan.before, p); }
      OnlyTemporariesKeepsOld(plan, g);
    }
    if OthersUntouched(plan, f) {
      forall p | p !in plan.targets && !plan.Temporary(p) ensures AsBefore(g, plan.before, p) {
        assert AsBefore(f, plan.before, p);
      }
    }
  }

  lemma LeftoversAreTemporary(plan: Plan, ending: Ending, staged: nat, reserved: nat)
    requires plan.Valid() && staged <= |plan.targets| && reserved <= |plan.targets|
    ensures var names := Leftovers(plan, ending, staged, reserved);
            && (forall p :: p in names ==> plan.Temporary(p))
            && (Preserves(ending) ==> forall i :: plan.Index(i) ==> plan.backups[i] !in names)
            && (!Preserves(ending) && staged == reserved == |plan.targets| ==>
                  forall p :: plan.Temporary(p) ==> p in names)
  {}

  lemma PruningLeaves(plan: Plan, f: Files, g: Files, ending: Ending, staged: nat, reserved: nat, tidy: bool)
    requires plan.Valid() && staged <= |plan.targets| && reserved <= |plan.targets|
    requires !ending.StagingFailed? ==> staged == reserved == |plan.targets|
    requires Leaves(plan, f, ending, false)
    requires var names := Leftovers(plan, ending, staged, reserved);
             Pruned(f, g, names) && (tidy ==> forall p :: p in names ==> p !in g)
    ensures Leaves(plan, g, ending, tidy)
    ensures Spares(plan, f, g, ending)
  {
    var names := Leftovers(plan, ending, staged, reserved);
    LeftoversAreTemporary(plan, ending, staged, reserved);
    PrunedKeeps(plan, f, g, names);
    if ending.RollbackIncomplete? {
      forall i | plan.Index(i) && plan.targets[i] in g
        ensures AsBefore(g, plan.before, plan.targets[i]) || IsNew(plan, g, i)
      {
        assert AsBefore(f, plan.before, plan.targets[i]) || IsNew(plan, f, i);
      }
    }
    if tidy && !Preserves(ending) && !ending.StagingFailed? {
      forall p | plan.Temporary(p) ensures AsBefore(g, plan.before, p) { assert p in names; }
    }
    if tidy && ending.RolledBack? {
      forall p ensures AsBefore(g, plan.before, p) {
        if !plan.Temporary(p) { assert AsBefore(g, plan.before, p); }
      }
      SameFiles(g, plan.before);
    }
  }

  lemma OddOneIsLeft(plan: Plan, f: Files, g: Files, staged: nat, reserved: nat, odd: seq<Path>)
    requires plan.Valid() && staged <= |plan.targets| && reserved <= |plan.targets|
    requires StagedUpTo(plan, f, staged, odd)
    requires var names := Leftovers(plan, StagingFailed, staged, reserved);
             Pruned(f, g, names) && forall p :: p in names ==> p !in g
    ensures AsBeforeBut(plan, g, odd)
  {
    var names := Leftovers(plan, StagingFailed, staged, reserved);
    LeftoversAreTemporary(plan, StagingFailed, staged, reserved);
    forall p | p !in odd ensures AsBefore(g, plan.before, p) {
      if p in names {
        TemporaryIsNew(plan, p);
      } else {
        assert p !in plan.stages[..staged];
        assert AsBefore(f, plan.before, p);
      }
    }
  }

  lemma TemporaryIsNew(plan: Plan, p: Path)
    requires plan.Valid() && plan.Temporary(p)
    ensures p !in plan.before
  {}

  lemma SameFiles(f: Files, before: Files)
    requires forall p :: AsBefore(f, before, p)
    ensures f == before
  {
    forall p ensures p in f.Keys <==> p in before.Keys { assert AsBefore(f, before, p); }
    assert f.Keys == before.Keys;
    forall p | p in before ensures f[p] == before[p] { assert AsBefore(f, before, p); }
  }

  /** Every instant of a whole publication, and what it leaves behind: `write_report` for
      any list of distinct targets and any schedule of failures. It returns normally just
      when `ending.Published? && tidy`. */
  method WriteReport(plan: Plan, disk: Disk) returns (ending: Ending, tidy: bool, ghost phases: Phases)
    requires plan.Valid() && disk.Valid() && disk.files == plan.before
    modifies disk
    ensures disk.Valid()
    ensures EndsAs(disk.fails, old(disk.ticks), phases, ending)
    ensures phases.settled <= disk.ticks && (tidy <==> !Fault(disk.fails, phases.settled, disk.ticks))
    ensures Durable(plan, disk.history, disk.synced, phases, ending)
    ensures Thorough(plan, disk.fails, disk.history, phases, ending)
    ensures ending.StagingFailed? && tidy ==>
              forall k: nat, m: nat :: FailsIn(disk.fails, old(disk.ticks), k, m) ==>
                AsBeforeBut(plan, disk.files, Interrupted(plan, disk.fails, old(disk.ticks), k, m))
    ensures Leaves(plan, disk.files, ending, tidy) && Spares(plan, disk.history[phases.settled], disk.files, ending)
    ensures NeverLoses(plan, disk.history, old(disk.ticks), phases, ending)
    ensures !TwoFaults(disk.fails, old(disk.ticks), disk.ticks) ==>
              AllNew(plan, disk.files) || OnlyTemporaries(plan, disk.files)
    ensures ending.Published? && tidy <==> !Fault(disk.fails, old(disk.ticks), disk.ticks)
  {
    var staged, reserved;
    ghost var m;
    ending, staged, reserved, phases, m := PublishOrRestore(plan, disk);
    var names := Leftovers(plan, ending, staged, reserved);
    LeftoversAreTemporary(plan, ending, staged, reserved);
    ghost var f, before := disk.files, disk.history;
    ghost var removed;
    tidy, removed := RemoveAll(plan, disk, names);
    assert names[..|names|] == names;
    PruningLeaves(plan, f, disk.files, ending, staged, reserved, tidy);
    if ending.StagingFailed? {
      if tidy {
        OddOneIsLeft(plan, f, disk.files, staged, reserved,
          Interrupted(plan, disk.fails, old(disk.ticks), reserved, m));
      }
      forall k: nat, n: nat | FailsIn(disk.fails, old(disk.ticks), k, n) ensures k == reserved && n == m {
        OneFirstFault(disk.fails, old(disk.ticks), 4 * reserved + m, 4 * k + n);
      }
    }
    forall k | |before| <= k < |disk.history|
      ensures if Commits(ending) then AllNew(plan, disk.history[k]) else AllOldKept(plan, disk.history[k])
    {
      PrunedKeeps(plan, f, disk.history[k], names);
    }
    OneFaultIsHarmless(plan, disk.fails, old(disk.ticks), disk.ticks, phases, disk.files, ending, tidy);
  }

  lemma OneFirstFault(fails: nat -> bool, from: nat, m: nat, n: nat)
    requires FailsAt(fails, from, m) && FailsAt(fails, from, n)
    ensures m == n
  {
    var a, b := from + m, from + n;
    assert fails(a) && fails(b);
  }

  /** Two different operations between `start` and `end` are made to fail. */
  ghost predicate TwoFaults(fails: nat -> bool, start: nat, end: nat) {
    exists t, u :: start <= t < u < end && fails(t) && fails(u)
  }

  /** A single failure, wherever it strikes, leaves every target new or every target as it
      was, and there is a normal return exactly when there is none. */
  lemma OneFaultIsHarmless(plan: Plan, fails: nat -> bool, start: nat, end: nat, phases: Phases, f: Files,
      ending: Ending, tidy: bool)
    requires plan.Valid() && Leaves(plan, f, ending, tidy)
    requires EndsAs(fails, start, phases, ending)
    requires phases.settled <= end && (tidy <==> !Fault(fails, phases.settled, end))
    ensures !TwoFaults(fails, start, end) ==> AllNew(plan, f) || OnlyTemporaries(plan, f)
    ensures !Fault(fails, start, end) <==> ending.Published? && tidy
  {}
}
