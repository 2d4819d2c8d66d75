/** What a hook decides when nothing interferes, and when it gives up a running check. */
module PrePushVerdicts {
  import opened PrePushProtocol
  import opened PrePushSafety

  // ---- The gate's verdict ----

  /** Something the record speaks of is alive and is not the asking hook. */
  ghost predicate StillAlive(s: State, mine: set<Pid>, p: Pid)
    requires s.record.Valid?
  {
    && p in s.procs && s.procs[p].live && p !in mine
    && (CountsFor(s.procs[p], s.record) || (s.record.session != 0 && s.procs[p].sid == s.record.session))
  }

  /** The record is read and, if it can be, both enumerations are made. */
  function Judge(s: State, h: HookId, groupsAnswered: bool, sessionAnswered: bool): State
    requires InMain(s, h) && s.hooks[h].main.Reading?
  {
    var read := DoMain(s, ReadRecord(h));
    if s.record.Valid? then
      DoMain(DoMain(read, EnumerateGroups(h, groupsAnswered)), EnumerateSession(h, sessionAnswered))
    else read
  }

  /** The gate opens exactly when there is no record, or both enumerations are answered and
      nothing the record speaks of is alive; otherwise the hook leaves without building. */
  lemma GateDecides(s: State, h: HookId, groupsAnswered: bool, sessionAnswered: bool)
    requires InMain(s, h) && s.hooks[h].main.Reading?
    ensures var m := Judge(s, h, groupsAnswered, sessionAnswered).hooks[h].main;
            && (m.Running? <==> s.record.Absent?)
            && (m.GateClear? <==>
                  && s.record.Valid? && groupsAnswered && sessionAnswered
                  && forall p :: !StillAlive(s, s.hooks[h].mine, p))
            && (m.Running? || m.GateClear? || m.Leaving?)
  {
    if s.record.Valid? {
      var mine := s.hooks[h].mine;
      var members, inSession := GroupMembers(s.procs, s.record, mine), SessionMembers(s.procs, s.record.session, mine);
      assert forall p :: StillAlive(s, mine, p) <==> p in members || p in inSession;
      if forall p :: !StillAlive(s, mine, p) {
        assert forall p :: p !in members && p !in inSession;
        assert members == {} && inSession == {};
      }
    }
  }

  /** Past an open gate the record is dropped, if it can be, and the hook builds. */
  lemma OpenGateBuilds(s: State, h: HookId, unlinked: bool)
    requires InMain(s, h) && s.hooks[h].main.GateClear?
    ensures var t := DoMain(s, DropDrainedRecord(h, unlinked));
            t.hooks[h].main.Running? && (unlinked ==> t.record.Absent?)
  {}

  // ---- One check ----

  /** A check leads its own group and session. Run to its end, it leaves the hook ready for the next one if it passed, and
      on its way out otherwise, with the lock, the record and everyone else as they were. */
  lemma CheckRunsToItsEnd(s: State, h: HookId, root: Pid, passed: bool)
    requires MainEnabled(s, Spawn(h, root))
    ensures var spawned := DoMain(s, Spawn(h, root));
            && spawned.procs == s.procs[root := Proc(root, root, true)]
            && ProcessEnabled(spawned, Exit(root))
            && var exited := DoProcess(spawned, Exit(root));
            && MainEnabled(exited, WaitReaps(h))
            && var reaped := DoMain(exited, WaitReaps(h));
            && MainEnabled(reaped, CheckEnds(h, passed))
            && DoMain(reaped, CheckEnds(h, passed)) ==
                 s.(hooks := s.hooks[h := s.hooks[h].(main := if passed then Running else Leaving)])
  {
    var exited := DoProcess(DoMain(s, Spawn(h, root)), Exit(root));
    assert exited.procs - {root} == s.procs;
  }

  // ---- The signal handler ----

  /** The hook runs a check whose root is unreaped and alive. */
  predicate RunsCheck(s: State, h: HookId, root: Pid) {
    && h in s.hooks && s.hooks[h].main == Checking(root, false)
    && root in s.procs && s.procs[root].live
  }

  /** A signal arrives and its handler polls the root. */
  function Interrupt(s: State, h: HookId): State
    requires h in s.hooks && s.hooks[h].main.Checking?
  {
    DoMain(DoMain(s, Signal(h)), PollToArm(h))
  }

  /** A signal whose record cannot be written is declined: the check, the lock and whatever
      the signal interrupted are exactly as before. */
  lemma UnrecordableSignalIsDeclined(s: State, h: HookId, root: Pid, outcome: WriteOutcome)
    requires RunsCheck(s, h, root) && !outcome.Written?
    ensures var t := Interrupt(s, h);
            && MainEnabled(t, ArmWrite(h, outcome))
            && var u := DoMain(t, ArmWrite(h, outcome));
            && u == s.(record := u.record)
            && (u.record == s.record || u.record.Corrupt?)
  {
    var k := s.hooks[h];
    assert (k.frames + [Entered])[..|k.frames|] == k.frames;
    assert (k.frames + [Arming(root)])[..|k.frames|] == k.frames;
    assert SetTop(k.(frames := k.frames + [Entered]), Arming(root)).frames == k.frames + [Arming(root)];
    var u := DoMain(Interrupt(s, h), ArmWrite(h, outcome));
    assert u.hooks[h] == k;
    assert u.hooks == s.hooks;
  }

  /** One whose record is written begins to stop the check under a record that names it. */
  lemma RecordedSignalStops(s: State, h: HookId, root: Pid)
    requires RunsCheck(s, h, root)
    ensures var t := Interrupt(s, h);
            && MainEnabled(t, ArmWrite(h, Written))
            && var u := DoMain(t, ArmWrite(h, Written));
            && InHandler(u, h) && Top(u.hooks[h]) == Stopping(root)
            && Names(u.record, root) && root in u.armed
            && u.procs == s.procs && u.lock == s.lock
  {}

  /** The record names the session, and whatever of it is alive in the root's own group. */
  ghost predicate Names(r: Record, root: Pid) {
    && r.Valid? && Protects(r, root)
    && forall pr: Proc :: pr.live && pr.pgid == root && pr.sid == root ==> CountsFor(pr, r)
  }

  /** A stop that left nothing over has the hook look at the session once more. */
  lemma StopLooksAgain(s: State, h: HookId)
    requires InHandler(s, h) && Top(s.hooks[h]).Stopping?
    ensures var t := DoMain(s, StopReturns(h, map[]));
            && InHandler(t, h) && Top(t.hooks[h]) == Verifying(Top(s.hooks[h]).session)
            && t.procs == s.procs && t.record == s.record && t.hooks[h].mine == s.hooks[h].mine
  {}

  /** The record is cleared exactly on an answered and empty look at the session; otherwise
      it is rewritten, naming the session. Either way the hook leaves. */
  lemma LookDecides(s: State, h: HookId, answered: bool)
    requires InHandler(s, h) && Top(s.hooks[h]).Verifying?
    ensures var root, t := Top(s.hooks[h]).session, DoMain(s, Verify(h, answered));
            if answered && SessionMembers(s.procs, root, s.hooks[h].mine) == {} then
              && MainEnabled(t, ClearRecord(h, true))
              && var u := DoMain(t, ClearRecord(h, true));
              u.record.Absent? && u.hooks[h].main.Leaving? && u.hooks[h].frames == []
            else
              && MainEnabled(t, RecordWrite(h, Written))
              && var u := DoMain(t, RecordWrite(h, Written));
              Names(u.record, root) && u.hooks[h].main.Leaving? && u.hooks[h].frames == []
  {}

  /** A handler that finds no check to stop, or collects a dead root, has nothing to stop and
      leaves the record alone. */
  lemma IdlePollStopsNothing(s: State, h: HookId)
    requires InHandler(s, h) && Top(s.hooks[h]).Entered?
    requires forall root :: !RunsCheck(s, h, root)
    ensures var t := DoMain(s, PollToArm(h));
            InHandler(t, h) && Top(t.hooks[h]).NothingToStop? && t.record == s.record && t.lock == s.lock
  {
    var k := s.hooks[h];
    assert k.main.Checking? ==> !RunsCheck(s, h, k.main.root);
  }

  /** It then has the hook leave and release the lock. */
  lemma IdleHandlerReleases(s: State, h: HookId)
    requires Inv(s) && InHandler(s, h) && Top(s.hooks[h]).NothingToStop?
    ensures var t := DoMain(s, HandlerExits(h));
            && MainEnabled(t, Release(h))
            && var u := DoMain(t, Release(h));
            u.hooks[h].main.Gone? && u.lock.None? && u.record == s.record && u.procs == s.procs
  {}

  // ---- Giving up a check ----

  /** In every reachable state, a hook gives up a check it is running only if the root has
      been waited for, its session is armed, or the hook itself is abandoned or killed. */
  lemma CheckIsNotGivenUp(s: State, t: State, h: HookId)
    requires Inv(s) && Next(s, t)
    requires h in s.hooks && s.hooks[h].main.Checking?
    requires h in t.hooks && !t.hooks[h].main.Checking?
    ensures || s.hooks[h].main.reaped
            || s.hooks[h].main.root in s.armed
            || t == DoMain(s, Abandon(h))
            || t == DoMain(s, Die(h))
  {
    HolderFacts(s, h);
    var step := StepBetween(s, t);
    if !IsProcessStep(step) {
      if step.h != h { OthersStay(s, step, h); } else { GivenUpBy(s, step); }
    }
  }

  lemma GivenUpBy(s: State, step: Step)
    requires !IsProcessStep(step) && MainEnabled(s, step)
    requires step.h in s.hooks && s.hooks[step.h].main.Checking? && HookOk(s, s.hooks[step.h])
    requires !DoMain(s, step).hooks[step.h].main.Checking?
    ensures || s.hooks[step.h].main.reaped || s.hooks[step.h].main.root in s.armed
            || step == Abandon(step.h) || step == Die(step.h)
  {
    var k := s.hooks[step.h];
    if k.frames != [] { assert FrameOk(s, k, Top(k)); }
  }
}
