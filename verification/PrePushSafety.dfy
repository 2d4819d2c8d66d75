/** What the stop-and-record protocol guarantees over whole runs. */
module PrePushSafety {
  import opened PrePushProtocol

  /** Any run, from any leftover record and process table, with no hook started yet. */
  ghost predicate IsRun(run: seq<State>) {
    && run != []
    && Init(run[0])
    && forall i :: StepAt(run, i)
  }

  ghost predicate StepAt(run: seq<State>, i: int) {
    0 <= i < |run| - 1 ==> Next(run[i], run[i + 1])
  }

  lemma {:induction false} InvariantHolds(run: seq<State>, n: nat)
    requires IsRun(run) && n < |run|
    ensures Inv(run[n])
  {
    if n > 0 {
      InvariantHolds(run, n - 1);
      assert StepAt(run, n - 1);
      NextKeeps(run[n - 1], run[n]);
    }
  }

  lemma {:induction false} ArmedIsHistory(run: seq<State>, i: nat, n: nat)
    requires IsRun(run) && i <= n < |run|
    ensures run[i].armed <= run[n].armed
    decreases n
  {
    if i < n {
      ArmedIsHistory(run, i, n - 1);
      assert StepAt(run, n - 1);
    }
  }

  /** A hook between passing the gate and giving up the lock. */
  predicate Building(k: Hook) { k.main.Running? || k.main.Checking? }

  /** Once a session has been armed, then at every later point of every run - whoever holds
      the lock, whatever died, failed or went unanswered in between - either none of its
      processes is alive or a record guards it: one naming that session, or a corrupt one. */
  lemma ArmedSessionStaysGuarded(run: seq<State>, i: nat, n: nat, session: Pid)
    requires IsRun(run) && i <= n < |run|
    requires session in run[i].armed
    ensures LiveIn(run[n].procs, session) == {} || Protects(run[n].record, session)
  {
    ArmedIsHistory(run, i, n);
    InvariantHolds(run, n);
  }

  /** Builds never overlap: while a hook builds it is the only one that does, and no armed
      session other than that of the very check it is running has a live process. */
  lemma BuildsNeverOverlap(run: seq<State>, i: nat, n: nat, h: HookId, session: Pid)
    requires IsRun(run) && i <= n < |run|
    requires h in run[n].hooks && Building(run[n].hooks[h])
    requires session in run[i].armed
    ensures LiveIn(run[n].procs, session) == {}
            || (run[n].hooks[h].main.Checking? && run[n].hooks[h].main.root == session)
    ensures forall x :: x in run[n].hooks && Building(run[n].hooks[x]) ==> x == h
  {
    ArmedIsHistory(run, i, n);
    InvariantHolds(run, n);
    assert HookOk(run[n], run[n].hooks[h]);
  }

  /** A later push starts building only over dead sessions. */
  lemma BuildStartsOverDeadSessions(run: seq<State>, i: nat, n: nat, h: HookId, session: Pid)
    requires IsRun(run) && i <= n < |run|
    requires h in run[n].hooks && run[n].hooks[h].main.Running?
    requires session in run[i].armed
    ensures LiveIn(run[n].procs, session) == {}
  {
    BuildsNeverOverlap(run, i, n, h, session);
  }

  // ---- The gate ----

  /** Hook `h` held the lock, and the record was `found`, from `i` to `n`. */
  ghost predicate HeldOver(run: seq<State>, h: HookId, found: Record, i: nat, n: nat)
    requires n < |run|
  {
    forall j :: i <= j <= n ==> run[j].lock == Some(h) && run[j].record == found
  }

  ghost predicate GroupsSeenEmpty(s: State, h: HookId, found: Record) {
    h in s.hooks && found.Valid? && GroupMembers(s.procs, found, s.hooks[h].mine) == {}
  }

  ghost predicate SessionSeenEmpty(s: State, h: HookId, found: Record) {
    h in s.hooks && found.Valid? && SessionMembers(s.procs, found.session, s.hooks[h].mine) == {}
  }

  /** `h` enumerated in state `s`, found nothing, and moved on in `t`. */
  ghost predicate SawNothing(s: State, t: State, h: HookId)
    requires h in s.hooks && h in t.hooks
  {
    var m, m' := s.hooks[h].main, t.hooks[h].main;
    || (m'.GateSession? && GroupsSeenEmpty(s, h, m'.found))
    || (m'.GateClear? && m == GateSession(m'.found, true) && SessionSeenEmpty(s, h, m'.found))
  }

  /** Past the first enumeration, with nothing found so far. */
  predicate AtGate(m: Main) { (m.GateSession? && m.groupsEmpty) || m.GateClear? }

  lemma GateMoveBy(s: State, step: Step, h: HookId)
    requires Inv(s) && !IsProcessStep(step) && MainEnabled(s, step)
    requires var t := DoMain(s, step); Inv(t) && h in t.hooks && AtGate(t.hooks[h].main)
    ensures var t := DoMain(s, step);
            && h in s.hooks && s.lock == t.lock == Some(h) && s.record == t.record
            && (t.hooks[h].main == s.hooks[h].main || SawNothing(s, t, h))
  {
    var t := DoMain(s, step);
    HolderFacts(t, h);
    if step.h != h {
      assert h in s.hooks && s.hooks[h] == t.hooks[h];
      HolderFacts(s, h);
    }
  }

  /** A hook at the gate got there by its own last step, or did not move. */
  ghost predicate GateMoved(s: State, t: State, h: HookId)
    requires h in t.hooks && AtGate(t.hooks[h].main)
  {
    && h in s.hooks
    && s.lock == t.lock == Some(h)
    && s.record == t.record == t.hooks[h].main.found
    && (t.hooks[h].main == s.hooks[h].main || SawNothing(s, t, h))
  }

  lemma GateMoveNext(s: State, t: State, h: HookId)
    requires Inv(s) && Inv(t) && Next(s, t)
    requires h in t.hooks && AtGate(t.hooks[h].main)
    ensures GateMoved(s, t, h)
  {
    HolderFacts(t, h);
    var step: Step :|
      if IsProcessStep(step) then ProcessEnabled(s, step) && t == DoProcess(s, step)
      else MainEnabled(s, step) && t == DoMain(s, step);
    if !IsProcessStep(step) { GateMoveBy(s, step, h); }
  }

  lemma GateMove(run: seq<State>, n: nat, h: HookId)
    requires IsRun(run) && n < |run|
    requires h in run[n].hooks && AtGate(run[n].hooks[h].main)
    ensures n > 0 && GateMoved(run[n - 1], run[n], h)
  {
    InvariantHolds(run, n - 1);
    InvariantHolds(run, n);
    assert StepAt(run, n - 1);
    GateMoveNext(run[n - 1], run[n], h);
  }

  /** At the second enumeration with the groups found empty, they were seen empty earlier
      while the lock was held and the record unchanged. */
  lemma {:induction false} GroupsWereEnumerated(run: seq<State>, n: nat, h: HookId) returns (i: nat)
    requires IsRun(run) && n < |run|
    requires h in run[n].hooks && run[n].hooks[h].main.GateSession? && run[n].hooks[h].main.groupsEmpty
    ensures i < n && HeldOver(run, h, run[n].hooks[h].main.found, i, n)
    ensures GroupsSeenEmpty(run[i], h, run[n].hooks[h].main.found)
    decreases n
  {
    GateMove(run, n, h);
    if run[n - 1].hooks[h].main == run[n].hooks[h].main {
      i := GroupsWereEnumerated(run, n - 1, h);
    } else {
      i := n - 1;
    }
  }

  /** No building run starts over a record until the recorded groups and the recorded
      session have both been enumerated, answered and empty, in that order, under the lock
      and with the record unchanged. */
  lemma {:induction false} GateWasEnumerated(run: seq<State>, n: nat, h: HookId) returns (i: nat, j: nat)
    requires IsRun(run) && n < |run|
    requires h in run[n].hooks && run[n].hooks[h].main.GateClear?
    ensures i < j < n && HeldOver(run, h, run[n].hooks[h].main.found, i, n)
    ensures GroupsSeenEmpty(run[i], h, run[n].hooks[h].main.found)
    ensures SessionSeenEmpty(run[j], h, run[n].hooks[h].main.found)
    decreases n
  {
    GateMove(run, n, h);
    if run[n - 1].hooks[h].main == run[n].hooks[h].main {
      i, j := GateWasEnumerated(run, n - 1, h);
    } else {
      i := GroupsWereEnumerated(run, n - 1, h);
      j := n - 1;
    }
  }

  /** The only ways past the gate: no record to read, or a record enumerated empty. */
  lemma GatePassedHow(s: State, step: Step, h: HookId)
    requires !IsProcessStep(step) && MainEnabled(s, step)
    requires h in s.hooks && !Building(s.hooks[h])
    requires Building(DoMain(s, step).hooks[h])
    ensures s.record.Absent? || s.hooks[h].main.GateClear?
  {}

  /** Whenever any hook of any run starts building, either it read that there was no
      record, or it enumerated the recorded groups and then the recorded session, both
      answered and empty, holding the lock over an unchanged record all the while. */
  lemma BuildStartIsJustified(run: seq<State>, n: nat, h: HookId) returns (i: nat, j: nat)
    requires IsRun(run) && n + 1 < |run|
    requires h in run[n].hooks && !Building(run[n].hooks[h])
    requires h in run[n + 1].hooks && Building(run[n + 1].hooks[h])
    ensures run[n].record.Absent?
            || (&& i < j < n
                && HeldOver(run, h, run[n].record, i, n)
                && GroupsSeenEmpty(run[i], h, run[n].record)
                && SessionSeenEmpty(run[j], h, run[n].record))
  {
    i, j := 0, 0;
    var s, t := run[n], run[n + 1];
    assert StepAt(run, n);
    var step: Step :|
      if IsProcessStep(step) then ProcessEnabled(s, step) && t == DoProcess(s, step)
      else MainEnabled(s, step) && t == DoMain(s, step);
    assert !IsProcessStep(step);
    GatePassedHow(s, step, h);
    if !s.record.Absent? {
      i, j := GateWasEnumerated(run, n, h);
      assert run[n].record == run[n].hooks[h].main.found;
    }
  }

  // ---- Exactly which sessions are guarded ----

  lemma StepBetween(s: State, t: State) returns (step: Step)
    requires Next(s, t)
    ensures if IsProcessStep(step) then ProcessEnabled(s, step) && t == DoProcess(s, step)
            else MainEnabled(s, step) && t == DoMain(s, step)
    ensures IsProcessStep(step) ==> s.hooks == t.hooks && s.armed == t.armed && s.record == t.record
  {
    step :|
      if IsProcessStep(step) then ProcessEnabled(s, step) && t == DoProcess(s, step)
      else MainEnabled(s, step) && t == DoMain(s, step);
  }

  /** A record that can be read is the one the run began with or names an armed session. */
  predicate Accounted(s: State, initial: Record) {
    s.record.Valid? ==> s.record == initial || s.record.session in s.armed
  }

  lemma AccountedBy(s: State, step: Step, initial: Record)
    requires !IsProcessStep(step) && MainEnabled(s, step) && Accounted(s, initial)
    requires step.RecordWrite? ==> Top(s.hooks[step.h]).session in s.armed
    ensures Accounted(DoMain(s, step), initial)
  {}

  lemma RewriteNamesArmed(s: State, h: HookId)
    requires Inv(s) && InHandler(s, h) && Top(s.hooks[h]).Recording?
    ensures Top(s.hooks[h]).session in s.armed
  {
    HolderFacts(s, h);
    assert FrameOk(s, s.hooks[h], Top(s.hooks[h]));
  }

  lemma {:induction false} RecordIsAccounted(run: seq<State>, n: nat)
    requires IsRun(run) && n < |run|
    ensures Accounted(run[n], run[0].record)
  {
    if n > 0 {
      RecordIsAccounted(run, n - 1);
      InvariantHolds(run, n - 1);
      assert StepAt(run, n - 1);
      var step := StepBetween(run[n - 1], run[n]);
      if step.RecordWrite? { RewriteNamesArmed(run[n - 1], step.h); }
      if !IsProcessStep(step) { AccountedBy(run[n - 1], step, run[0].record); }
    }
  }

  /** At every point of every run, a session with a live process is guarded exactly when it
      has been armed, a write left the record corrupt, or the record the run began with is
      still there and names it. */
  lemma GuardedExactly(run: seq<State>, n: nat, session: Pid)
    requires IsRun(run) && n < |run|
    requires LiveIn(run[n].procs, session) != {}
    ensures Protects(run[n].record, session) <==>
              || session in run[n].armed
              || run[n].record.Corrupt?
              || (run[n].record == run[0].record && run[n].record.Valid? && run[n].record.session == session)
  {
    InvariantHolds(run, n);
    RecordIsAccounted(run, n);
  }

  /** The handler's poll found the check's root, `session`, unreaped and alive. */
  predicate PollsLive(s: State, t: State, h: HookId, session: Pid) {
    && MainEnabled(s, PollToArm(h)) && t == DoMain(s, PollToArm(h))
    && s.hooks[h].main == Checking(session, false)
    && session in s.procs && s.procs[session].live
  }

  /** The handler wrote the record it polled for. */
  predicate WritesRecord(s: State, t: State, h: HookId, session: Pid) {
    && MainEnabled(s, ArmWrite(h, Written)) && t == DoMain(s, ArmWrite(h, Written))
    && Top(s.hooks[h]) == Arming(session)
  }

  predicate AtArming(s: State, h: HookId, d: nat, session: Pid) {
    h in s.hooks && d < |s.hooks[h].frames| && s.hooks[h].frames[d] == Arming(session)
  }

  /** Only the poll puts a handler at arming. */
  lemma ArmingStays(s: State, step: Step, d: nat, session: Pid)
    requires !IsProcessStep(step) && !step.PollToArm? && MainEnabled(s, step)
    requires AtArming(DoMain(s, step), step.h, d, session)
    ensures AtArming(s, step.h, d, session)
  {}

  lemma PollArms(s: State, h: HookId, d: nat, session: Pid)
    requires Inv(s) && MainEnabled(s, PollToArm(h)) && AtArming(DoMain(s, PollToArm(h)), h, d, session)
    ensures AtArming(s, h, d, session) || PollsLive(s, DoMain(s, PollToArm(h)), h, session)
  {
    HolderFacts(s, h);
  }

  lemma ArmingComesFrom(s: State, t: State, h: HookId, d: nat, session: Pid)
    requires Inv(s) && Next(s, t) && AtArming(t, h, d, session)
    ensures AtArming(s, h, d, session) || PollsLive(s, t, h, session)
  {
    var step := StepBetween(s, t);
    if !IsProcessStep(step) {
      if step.h != h { OthersStay(s, step, h); }
      else if step.PollToArm? { PollArms(s, h, d, session); }
      else { ArmingStays(s, step, d, session); }
    }
  }

  lemma OthersStay(s: State, step: Step, h: HookId)
    requires !IsProcessStep(step) && MainEnabled(s, step) && step.h != h
    ensures h in DoMain(s, step).hooks <==> h in s.hooks
    ensures h in s.hooks ==> DoMain(s, step).hooks[h] == s.hooks[h]
  {}

  lemma {:induction false} ArmingWasPolled(run: seq<State>, n: nat, h: HookId, d: nat, session: Pid)
      returns (i: nat)
    requires IsRun(run) && n < |run| && AtArming(run[n], h, d, session)
    ensures i < n && PollsLive(run[i], run[i + 1], h, session)
    ensures forall k :: i < k <= n ==> AtArming(run[k], h, d, session)
    decreases n
  {
    ArmingStep(run, n, h, d, session);
    i := n - 1;
    if AtArming(run[i], h, d, session) {
      i := ArmingWasPolled(run, i, h, d, session);
    }
  }

  lemma ArmingStep(run: seq<State>, n: nat, h: HookId, d: nat, session: Pid)
    requires IsRun(run) && n < |run| && AtArming(run[n], h, d, session)
    ensures n > 0 && (AtArming(run[n - 1], h, d, session) || PollsLive(run[n - 1], run[n], h, session))
  {
    InvariantHolds(run, n - 1);
    assert StepAt(run, n - 1);
    ArmingComesFrom(run[n - 1], run[n], h, d, session);
  }

  lemma ArmedBy(s: State, t: State, session: Pid) returns (h: HookId)
    requires Next(s, t) && session in t.armed && session !in s.armed
    ensures WritesRecord(s, t, h, session)
  {
    var step := StepBetween(s, t);
    OnlyWritingArms(s, step, session);
    h := step.h;
  }

  lemma OnlyWritingArms(s: State, step: Step, session: Pid)
    requires !IsProcessStep(step) && MainEnabled(s, step)
    requires session in DoMain(s, step).armed && session !in s.armed
    ensures step == ArmWrite(step.h, Written) && Top(s.hooks[step.h]) == Arming(session)
  {}

  /** Step `i` of the run polled, step `j` wrote, and the handler that did both stood at
      arming in between, whatever interrupted it. */
  ghost predicate Arms(run: seq<State>, n: nat, session: Pid, h: HookId, i: nat, j: nat) {
    && i < j < n < |run|
    && PollsLive(run[i], run[i + 1], h, session)
    && WritesRecord(run[j], run[j + 1], h, session)
    && forall k :: i < k <= j ==> AtArming(run[k], h, |run[j].hooks[h].frames| - 1, session)
  }

  /** A session is armed exactly when a handler's poll found its root unreaped and alive and
      that handler's write of the record then succeeded. */
  lemma {:induction false} ArmedExactly(run: seq<State>, n: nat, session: Pid)
    requires IsRun(run) && n < |run|
    ensures session in run[n].armed <==> exists h: HookId, i: nat, j: nat :: Arms(run, n, session, h, i, j)
  {
    if h: HookId, i: nat, j: nat :| Arms(run, n, session, h, i, j) {
      ArmedIsHistory(run, j + 1, n);
    }
    if session in run[n].armed {
      var h, i, j := WasArmed(run, n, session);
    }
  }

  lemma {:induction false} WasArmed(run: seq<State>, n: nat, session: Pid) returns (h: HookId, i: nat, j: nat)
    requires IsRun(run) && n < |run| && session in run[n].armed
    ensures Arms(run, n, session, h, i, j)
    decreases n
  {
    assert StepAt(run, n - 1);
    if session in run[n - 1].armed {
      h, i, j := WasArmed(run, n - 1, session);
    } else {
      j := n - 1;
      h := ArmedBy(run[j], run[n], session);
      i := ArmingWasPolled(run, j, h, |run[j].hooks[h].frames| - 1, session);
    }
  }

  // ---- Runs that leave a session unguarded ----

  /** One hook, whose pids are 7 and 8, and no record. */
  function Alone(procs: map<Pid, Proc>, lock: Option<HookId>, main: Main, frames: seq<Frame>): State {
    State(procs, lock, Absent, map[0 := Hook({7, 8}, main, frames)], {})
  }

  const MEMBER := Proc(100, 100, true)
  const ZOMBIE := Proc(100, 100, false)

  lemma Goes(s: State, step: Step, t: State)
    requires if IsProcessStep(step) then ProcessEnabled(s, step) && t == DoProcess(s, step)
             else MainEnabled(s, step) && t == DoMain(s, step)
    ensures Next(s, t)
  {}

  /** A step of the one hook, or of a process, that extends a run. */
  lemma Extend(run: seq<State>, step: Step, t: State) returns (longer: seq<State>)
    requires IsRun(run)
    requires var s := run[|run| - 1];
             if IsProcessStep(step) then ProcessEnabled(s, step) && t == DoProcess(s, step)
             else MainEnabled(s, step) && t == DoMain(s, step)
    ensures IsRun(longer) && longer[|longer| - 1] == t
  {
    longer := run + [t];
    Goes(run[|run| - 1], step, t);
    forall i ensures StepAt(longer, i) {
      assert StepAt(run, i);
    }
  }

  lemma HookGetsThrough() returns (run: seq<State>)
    ensures IsRun(run) && run[|run| - 1] == Alone(map[], Some(0), Running, [])
  {
    run := [State(map[], None, Absent, map[], {})];
    run := Extend(run, Arrive(0, {7, 8}), Alone(map[], None, Waiting, []));
    run := Extend(run, Acquire(0), Alone(map[], Some(0), Reading, []));
    run := Extend(run, ReadRecord(0), Alone(map[], Some(0), Running, []));
  }

  /** The check forks a worker, then its root exits. */
  lemma RootExits() returns (run: seq<State>)
    ensures IsRun(run)
    ensures run[|run| - 1] == Alone(map[100 := ZOMBIE, 101 := MEMBER], Some(0), Checking(100, false), [])
  {
    run := HookGetsThrough();
    run := Extend(run, Spawn(0, 100), Alone(map[100 := MEMBER], Some(0), Checking(100, false), []));
    run := Extend(run, Fork(100, 101), Alone(map[100 := MEMBER, 101 := MEMBER], Some(0), Checking(100, false), []));
    run := Extend(run, Exit(100), Alone(map[100 := ZOMBIE, 101 := MEMBER], Some(0), Checking(100, false), []));
  }

  lemma SignalComes() returns (run: seq<State>)
    ensures IsRun(run)
    ensures run[|run| - 1] == Alone(map[100 := ZOMBIE, 101 := MEMBER], Some(0), Checking(100, false), [Entered])
  {
    run := RootExits();
    var s := Alone(map[100 := ZOMBIE, 101 := MEMBER], Some(0), Checking(100, false), [Entered]);
    assert [] + [Entered] == [Entered];
    assert DoMain(run[|run| - 1], Signal(0)).hooks[0] == s.hooks[0];
    run := Extend(run, Signal(0), s);
  }

  lemma SignalFindsNoRoot() returns (run: seq<State>)
    ensures IsRun(run)
    ensures run[|run| - 1] == Alone(map[101 := MEMBER], Some(0), Checking(100, true), [NothingToStop])
  {
    run := SignalComes();
    var s, t := run[|run| - 1], Alone(map[101 := MEMBER], Some(0), Checking(100, true), [NothingToStop]);
    assert s.procs - {100} == t.procs;
    assert SetTop(s.hooks[0], NothingToStop).frames == [NothingToStop];
    run := Extend(run, PollToArm(0), t);
  }

  /** A signal that finds the check's root already gone arms nothing: the lock is released
      over a live member of the check's session with no record on disk. */
  lemma UnarmedReleaseIsUnguarded() returns (run: seq<State>)
    ensures IsRun(run)
    ensures var s := run[|run| - 1];
            s.lock.None? && s.record.Absent? && 101 in LiveIn(s.procs, 100)
  {
    run := SignalFindsNoRoot();
    run := Extend(run, HandlerExits(0), Alone(map[101 := MEMBER], Some(0), Leaving, []));
    run := Extend(run, Release(0), Alone(map[101 := MEMBER], None, Gone, []));
    assert 101 in LiveIn(map[101 := MEMBER], 100);
  }

  /** No signal is needed: a check that ends while a worker of its session lives on leaves
      that worker behind with the lock free and no record. */
  lemma QuietReleaseIsUnguarded() returns (run: seq<State>)
    ensures IsRun(run)
    ensures var s := run[|run| - 1];
            s.lock.None? && s.record.Absent? && 101 in LiveIn(s.procs, 100)
  {
    run := RootExits();
    var s, t := run[|run| - 1], Alone(map[101 := MEMBER], Some(0), Checking(100, true), []);
    assert s.procs - {100} == t.procs;
    run := Extend(run, WaitReaps(0), t);
    run := Extend(run, CheckEnds(0, true), Alone(map[101 := MEMBER], Some(0), Running, []));
    run := Extend(run, Finish(0), Alone(map[101 := MEMBER], Some(0), Leaving, []));
    run := Extend(run, Release(0), Alone(map[101 := MEMBER], None, Gone, []));
    assert 101 in LiveIn(map[101 := MEMBER], 100);
  }
}
