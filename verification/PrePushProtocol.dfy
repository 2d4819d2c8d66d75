/** The pre-push hook's single-flight lock and its stop-and-record protocol, as a state
    machine over every interleaving of hooks, checks and signals.

    A hook may raise, be abandoned or be killed at any step; a record write may fail with
    or without truncating the file; an enumeration may go unanswered. One enumeration is
    one atomic look at the process table. */
module PrePushProtocol {

  type Pid = int
  type HookId = nat

  datatype Option<+T> = None | Some(value: T)

  /** A process table entry; one that is not live is a zombie. */
  datatype Proc = Proc(pgid: Pid, sid: Pid, live: bool)

  /** How the members of recorded groups are told from strangers wearing the number. */
  datatype Scope = InSession | Observed(sessionOf: map<Pid, Pid>)

  /** The on-disk record. A file that is present but cannot be parsed is `Corrupt`. */
  datatype Record =
    | Absent
    | Corrupt
    | Valid(groups: set<Pid>, session: Pid, scope: Scope)

  /** Where a hook's main program is. `reaped` says the check's root was waited for. */
  datatype Main =
    | Waiting
    | Reading
    | GateGroups(found: Record)
    | GateSession(found: Record, groupsEmpty: bool)
    | GateClear(found: Record)
    | Running
    | Checking(root: Pid, reaped: bool)
    | Leaving
    | Gone

  /** Where one invocation of the signal handler is; a signal may interrupt a handler. */
  datatype Frame =
    | Entered
    | Arming(session: Pid)
    | Stopping(session: Pid)
    | Recording(session: Pid, groups: set<Pid>, scope: Scope)
    | Verifying(session: Pid)
    | Clearing(session: Pid)
    | NothingToStop

  /** `mine`: the hook's own pid and its parent's, which enumerations leave out. */
  datatype Hook = Hook(mine: set<Pid>, main: Main, frames: seq<Frame>)

  /** `armed` is history: the sessions whose record was written before their stop began. */
  datatype State = State(
    procs: map<Pid, Proc>,
    lock: Option<HookId>,
    record: Record,
    hooks: map<HookId, Hook>,
    armed: set<Pid>)

  // ---- What an enumeration sees ----

  function LiveIn(procs: map<Pid, Proc>, session: Pid): set<Pid> {
    set p | p in procs && procs[p].live && procs[p].sid == session
  }

  predicate CountsFor(pr: Proc, r: Record)
    requires r.Valid?
  {
    && pr.live
    && pr.pgid in r.groups
    && match r.scope
       case InSession => r.session == 0 || pr.sid == r.session
       case Observed(sessionOf) => pr.pgid in sessionOf && pr.sid == sessionOf[pr.pgid]
  }

  /** `live_group_members` of a record. */
  function GroupMembers(procs: map<Pid, Proc>, r: Record, mine: set<Pid>): set<Pid>
    requires r.Valid?
  {
    set p | p in procs && p !in mine && CountsFor(procs[p], r)
  }

  /** `live_session_members`; session 0 stands for none. */
  function SessionMembers(procs: map<Pid, Proc>, session: Pid, mine: set<Pid>): set<Pid> {
    if session == 0 then {} else LiveIn(procs, session) - mine
  }

  // ---- Steps ----

  datatype WriteOutcome = Written | Untouched | Truncated

  function Write(before: Record, after: Record, outcome: WriteOutcome): Record {
    match outcome
    case Written => after
    case Untouched => before
    case Truncated => Corrupt
  }

  datatype Step =
    // processes
    | Fork(parent: Pid, child: Pid)
    | SetPgid(p: Pid, pgid: Pid)
    | SetSid(p: Pid)
    | Exit(p: Pid)
    | Vanish(p: Pid)
    // a hook's main program
    | Arrive(h: HookId, mine: set<Pid>)
    | Acquire(h: HookId)
    | ReadRecord(h: HookId)
    | EnumerateGroups(h: HookId, answered: bool)
    | EnumerateSession(h: HookId, answered: bool)
    | DropDrainedRecord(h: HookId, unlinked: bool)
    | Spawn(h: HookId, root: Pid)
    | WaitReaps(h: HookId)
    | CheckEnds(h: HookId, passed: bool)
    | Finish(h: HookId)
    | Release(h: HookId)
    | Abandon(h: HookId)
    | Die(h: HookId)
    // a hook's signal handler
    | Signal(h: HookId)
    | PollToArm(h: HookId)
    | ArmWrite(h: HookId, outcome: WriteOutcome)
    | StopReaps(h: HookId)
    | StopReturns(h: HookId, unaccounted: map<Pid, Pid>)
    | RecordWrite(h: HookId, outcome: WriteOutcome)
    | Verify(h: HookId, answered: bool)
    | ClearRecord(h: HookId, unlinked: bool)
    | HandlerExits(h: HookId)

  predicate Holds(k: Hook) { !k.main.Waiting? && !k.main.Gone? }

  /** The main program runs when no handler does. */
  predicate InMain(s: State, h: HookId) {
    h in s.hooks && Holds(s.hooks[h]) && s.hooks[h].frames == []
  }

  predicate InHandler(s: State, h: HookId) {
    h in s.hooks && Holds(s.hooks[h]) && s.hooks[h].frames != []
  }

  function Top(k: Hook): Frame
    requires k.frames != []
  {
    k.frames[|k.frames| - 1]
  }

  function Pop(k: Hook): Hook
    requires k.frames != []
  {
    k.(frames := k.frames[..|k.frames| - 1])
  }

  function SetTop(k: Hook, f: Frame): Hook
    requires k.frames != []
  {
    k.(frames := k.frames[..|k.frames| - 1] + [f])
  }

  /** `SystemExit` unwinds the handlers and the main program to the lock's release. */
  function Unwind(k: Hook): Hook { k.(main := Leaving, frames := []) }

  predicate UnreapedRoot(s: State, p: Pid) {
    exists h :: h in s.hooks && s.hooks[h].main == Checking(p, false)
  }

  predicate IsProcessStep(step: Step) {
    step.Fork? || step.SetPgid? || step.SetSid? || step.Exit? || step.Vanish?
  }

  predicate ProcessEnabled(s: State, step: Step)
    requires IsProcessStep(step)
  {
    match step
    case Fork(parent, child) =>
      && parent in s.procs && s.procs[parent].live && child !in s.procs
      && (forall h :: h in s.hooks ==> child !in s.hooks[h].mine)
    case SetPgid(p, _) => p in s.procs && s.procs[p].live && s.procs[p].sid != p
    // A session number already recorded is not handed out again.
    case SetSid(p) => p in s.procs && s.procs[p].live && s.procs[p].sid != p && p !in s.armed
    case Exit(p) => p in s.procs && s.procs[p].live
    // An unreaped child of a living hook keeps its entry.
    case Vanish(p) => p in s.procs && !s.procs[p].live && !UnreapedRoot(s, p)
  }

  function DoProcess(s: State, step: Step): State
    requires IsProcessStep(step) && ProcessEnabled(s, step)
  {
    match step
    case Fork(parent, child) => s.(procs := s.procs[child := s.procs[parent]])
    case SetPgid(p, g) => s.(procs := s.procs[p := s.procs[p].(pgid := g)])
    case SetSid(p) => s.(procs := s.procs[p := Proc(p, p, true)])
    case Exit(p) => s.(procs := s.procs[p := s.procs[p].(live := false)])
    case Vanish(p) => s.(procs := s.procs - {p})
  }

  predicate MainEnabled(s: State, step: Step)
    requires !IsProcessStep(step)
  {
    match step
    case Arrive(h, mine) =>
      && h !in s.hooks
      // A hook is not itself part of a check.
      && (forall p :: p in mine && p in s.procs ==>
            s.procs[p].sid !in s.armed && !UnreapedRoot(s, s.procs[p].sid))
    case Acquire(h) => h in s.hooks && s.hooks[h].main.Waiting? && s.lock.None?
    case ReadRecord(h) => InMain(s, h) && s.hooks[h].main.Reading?
    case EnumerateGroups(h, _) => InMain(s, h) && s.hooks[h].main.GateGroups? && s.hooks[h].main.found.Valid?
    case EnumerateSession(h, _) => InMain(s, h) && s.hooks[h].main.GateSession? && s.hooks[h].main.found.Valid?
    case DropDrainedRecord(h, _) => InMain(s, h) && s.hooks[h].main.GateClear?
    case Spawn(h, root) =>
      && InMain(s, h) && s.hooks[h].main.Running?
      && root > 0 && root !in s.procs && root !in s.armed
      && (forall p :: p in s.procs ==> s.procs[p].sid != root)
      && (forall k :: k in s.hooks ==> root !in s.hooks[k].mine)
    case WaitReaps(h) =>
      && InMain(s, h) && s.hooks[h].main.Checking? && !s.hooks[h].main.reaped
      && s.hooks[h].main.root in s.procs && !s.procs[s.hooks[h].main.root].live
    case CheckEnds(h, _) => InMain(s, h) && s.hooks[h].main.Checking? && s.hooks[h].main.reaped
    case Finish(h) => InMain(s, h) && s.hooks[h].main.Running?
    case Release(h) => InMain(s, h) && s.hooks[h].main.Leaving?
    case Abandon(h) => h in s.hooks && Holds(s.hooks[h])
    case Die(h) => h in s.hooks && !s.hooks[h].main.Gone?
    case Signal(h) => h in s.hooks && Holds(s.hooks[h]) && !s.hooks[h].main.Leaving?
    case PollToArm(h) => InHandler(s, h) && Top(s.hooks[h]).Entered?
    case ArmWrite(h, _) => InHandler(s, h) && Top(s.hooks[h]).Arming?
    case StopReaps(h) =>
      && InHandler(s, h) && Top(s.hooks[h]).Stopping?
      && s.hooks[h].main.Checking? && !s.hooks[h].main.reaped
      && s.hooks[h].main.root in s.procs && !s.procs[s.hooks[h].main.root].live
    case StopReturns(h, _) => InHandler(s, h) && Top(s.hooks[h]).Stopping?
    case RecordWrite(h, _) => InHandler(s, h) && Top(s.hooks[h]).Recording?
    case Verify(h, _) => InHandler(s, h) && Top(s.hooks[h]).Verifying?
    case ClearRecord(h, _) => InHandler(s, h) && Top(s.hooks[h]).Clearing?
    case HandlerExits(h) => InHandler(s, h) && Top(s.hooks[h]).NothingToStop?
  }

  function Update(s: State, h: HookId, k: Hook): State { s.(hooks := s.hooks[h := k]) }

  /** The kernel drops a lock with the process that holds it. */
  function Unlock(s: State, h: HookId): Option<HookId> {
    if s.lock == Some(h) then None else s.lock
  }

  function DoMain(s: State, step: Step): State
    requires !IsProcessStep(step) && MainEnabled(s, step)
  {
    match step
    case Arrive(h, mine) => Update(s, h, Hook(mine, Waiting, []))
    case Acquire(h) => Update(s, h, s.hooks[h].(main := Reading)).(lock := Some(h))
    case ReadRecord(h) =>
      Update(s, h, s.hooks[h].(main :=
        match s.record
        case Absent => Running
        case Corrupt => Leaving
        case Valid(_, _, _) => GateGroups(s.record)))
    case EnumerateGroups(h, answered) =>
      var k := s.hooks[h];
      var empty := answered && GroupMembers(s.procs, k.main.found, k.mine) == {};
      Update(s, h, k.(main := GateSession(k.main.found, empty)))
    case EnumerateSession(h, answered) =>
      var k := s.hooks[h];
      var empty := answered && SessionMembers(s.procs, k.main.found.session, k.mine) == {};
      Update(s, h, k.(main := if k.main.groupsEmpty && empty then GateClear(k.main.found) else Leaving))
    case DropDrainedRecord(h, unlinked) =>
      Update(s, h, s.hooks[h].(main := Running)).(record := if unlinked then Absent else s.record)
    case Spawn(h, root) =>
      Update(s, h, s.hooks[h].(main := Checking(root, false)))
        .(procs := s.procs[root := Proc(root, root, true)])
    case WaitReaps(h) =>
      Update(s, h, s.hooks[h].(main := Checking(s.hooks[h].main.root, true)))
        .(procs := s.procs - {s.hooks[h].main.root})
    case CheckEnds(h, passed) => Update(s, h, s.hooks[h].(main := if passed then Running else Leaving))
    case Finish(h) => Update(s, h, s.hooks[h].(main := Leaving))
    case Release(h) => Update(s, h, s.hooks[h].(main := Gone)).(lock := Unlock(s, h))
    case Abandon(h) => Update(s, h, Unwind(s.hooks[h]))
    case Die(h) => Update(s, h, s.hooks[h].(main := Gone, frames := [])).(lock := Unlock(s, h))
    case Signal(h) => Update(s, h, s.hooks[h].(frames := s.hooks[h].frames + [Entered]))
    case PollToArm(h) =>
      var k := s.hooks[h];
      if !k.main.Checking? || k.main.reaped then Update(s, h, SetTop(k, NothingToStop))
      else if k.main.root in s.procs && s.procs[k.main.root].live then
        Update(s, h, SetTop(k, Arming(k.main.root)))
      else
        Update(s, h, SetTop(k, NothingToStop).(main := Checking(k.main.root, true)))
          .(procs := s.procs - {k.main.root})
    case ArmWrite(h, outcome) =>
      var k := s.hooks[h];
      var session := Top(k).session;
      var s1 := s.(record := Write(s.record, Valid({session}, session, InSession), outcome));
      if outcome.Written? then
        Update(s1, h, SetTop(k, Stopping(session))).(armed := s.armed + {session})
      else Update(s1, h, Pop(k))
    case StopReaps(h) =>
      Update(s, h, s.hooks[h].(main := Checking(s.hooks[h].main.root, true)))
        .(procs := s.procs - {s.hooks[h].main.root})
    case StopReturns(h, unaccounted) =>
      var k := s.hooks[h];
      var session := Top(k).session;
      Update(s, h, SetTop(k,
        if unaccounted == map[] then Verifying(session)
        else Recording(session, unaccounted.Keys, Observed(unaccounted))))
    case RecordWrite(h, outcome) =>
      var f := Top(s.hooks[h]);
      Update(s, h, Unwind(s.hooks[h]))
        .(record := Write(s.record, Valid(f.groups, f.session, f.scope), outcome))
    case Verify(h, answered) =>
      var k := s.hooks[h];
      var session := Top(k).session;
      var empty := answered && SessionMembers(s.procs, session, k.mine) == {};
      Update(s, h, SetTop(k, if empty then Clearing(session) else Recording(session, {session}, InSession)))
    case ClearRecord(h, unlinked) =>
      Update(s, h, Unwind(s.hooks[h])).(record := if unlinked then Absent else s.record)
    case HandlerExits(h) => Update(s, h, Unwind(s.hooks[h]))
  }

  ghost predicate Next(s: State, t: State) {
    exists step: Step ::
      if IsProcessStep(step) then ProcessEnabled(s, step) && t == DoProcess(s, step)
      else MainEnabled(s, step) && t == DoMain(s, step)
  }

  // ---- The invariant ----

  /** The record stands guard over `session`. */
  predicate Protects(r: Record, session: Pid) {
    r.Corrupt? || (r.Valid? && r.session == session)
  }

  predicate LockInv(s: State) {
    && (forall h :: h in s.hooks ==> (Holds(s.hooks[h]) <==> s.lock == Some(h)))
    && (forall h :: h in s.hooks && !Holds(s.hooks[h]) ==> s.hooks[h].frames == [])
    && (s.lock.Some? ==> s.lock.value in s.hooks)
  }

  /** Every armed session still alive is guarded by the record. */
  predicate GuardInv(s: State) {
    && 0 !in s.armed
    && forall session :: session in s.armed && LiveIn(s.procs, session) != {} ==> Protects(s.record, session)
  }

  predicate AllArmedDead(s: State) {
    forall session :: session in s.armed ==> LiveIn(s.procs, session) == {}
  }

  predicate FrameOk(s: State, k: Hook, f: Frame) {
    match f
    case Entered => true
    case NothingToStop => k.main.Checking? ==> k.main.reaped
    case Arming(session) => k.main.Checking? && k.main.root == session
    case Stopping(session) => k.main.Checking? && k.main.root == session && session in s.armed
    case Recording(session, _, _) => k.main.Checking? && k.main.root == session && session in s.armed
    case Verifying(session) => k.main.Checking? && k.main.root == session && session in s.armed
    case Clearing(session) =>
      k.main.Checking? && k.main.root == session && session in s.armed && LiveIn(s.procs, session) == {}
  }

  /** A handler that has armed never returns to what it interrupted. */
  predicate Committed(f: Frame) {
    f.Stopping? || f.Recording? || f.Verifying? || f.Clearing?
  }

  /** What holds at each point of a hook. */
  predicate HookOk(s: State, k: Hook) {
    && (match k.main
        case GateGroups(found) => found.Valid? && found == s.record
        case GateSession(found, _) => found.Valid? && found == s.record
        case GateClear(found) => found.Valid? && found == s.record && AllArmedDead(s)
        case Running => AllArmedDead(s)
        case Checking(root, reaped) =>
          && root != 0
          && (forall session :: session in s.armed && session != root ==> LiveIn(s.procs, session) == {})
          && (!reaped ==> root in s.procs && s.procs[root].sid == root)
          && (reaped && k.frames != [] ==> !Top(k).Arming?)
          && (root in s.armed ==> exists i :: 0 <= i < |k.frames| && Committed(k.frames[i]))
        case _ => true)
    && (forall i :: 0 <= i < |k.frames| ==> FrameOk(s, k, k.frames[i]))
  }

  predicate HooksInv(s: State) {
    forall h :: h in s.hooks && Holds(s.hooks[h]) ==> HookOk(s, s.hooks[h])
  }

  /** No hook, nor its parent, is a member of a check's session. */
  predicate OutsiderInv(s: State) {
    forall h, p :: h in s.hooks && p in s.hooks[h].mine && p in s.procs ==>
      s.procs[p].sid !in s.armed && !UnreapedRoot(s, s.procs[p].sid)
  }

  predicate Inv(s: State) {
    LockInv(s) && GuardInv(s) && HooksInv(s) && OutsiderInv(s)
  }

  predicate Init(s: State) {
    s.lock.None? && s.hooks == map[] && s.armed == {}
  }

  // ---- Process steps ----

  /** An armed session that has died stays dead. */
  lemma DeadStaysDead(s: State, step: Step, session: Pid)
    requires IsProcessStep(step) && ProcessEnabled(s, step)
    requires session in s.armed && LiveIn(s.procs, session) == {}
    ensures LiveIn(DoProcess(s, step).procs, session) == {}
  {
    var t := DoProcess(s, step);
    assert step.Fork? ==> step.parent !in LiveIn(s.procs, session);
    assert forall p :: p in s.procs ==> p !in LiveIn(s.procs, session);
  }

  lemma ProcessStepKeepsHook(s: State, step: Step, h: HookId)
    requires Inv(s) && IsProcessStep(step) && ProcessEnabled(s, step)
    requires h in s.hooks && Holds(s.hooks[h])
    ensures HookOk(DoProcess(s, step), s.hooks[h])
  {
    var t, k := DoProcess(s, step), s.hooks[h];
    forall session | session in s.armed && LiveIn(s.procs, session) == {}
      ensures LiveIn(t.procs, session) == {}
    {
      DeadStaysDead(s, step, session);
    }
    if k.main.Checking? && !k.main.reaped {
      assert UnreapedRoot(s, k.main.root);
    }
    forall i | 0 <= i < |k.frames| ensures FrameOk(t, k, k.frames[i]) {
      assert FrameOk(s, k, k.frames[i]);
    }
  }

  lemma ProcessStepKeeps(s: State, step: Step)
    requires Inv(s) && IsProcessStep(step) && ProcessEnabled(s, step)
    ensures Inv(DoProcess(s, step))
  {
    var t := DoProcess(s, step);
    forall session | session in t.armed && LiveIn(t.procs, session) != {}
      ensures Protects(t.record, session)
    {
      if LiveIn(s.procs, session) == {} { DeadStaysDead(s, step, session); }
    }
    forall h | h in t.hooks && Holds(t.hooks[h]) ensures HookOk(t, t.hooks[h]) {
      ProcessStepKeepsHook(s, step, h);
    }
    forall h, p | h in t.hooks && p in t.hooks[h].mine && p in t.procs
      ensures t.procs[p].sid !in t.armed && !UnreapedRoot(t, t.procs[p].sid)
    {
      if step.SetSid? && step.p == p {
        RootsLeadTheirSession(s, p);
      } else {
        assert s.procs[p].sid == t.procs[p].sid;
        UnreapedRootOfHooks(s, t, s.procs[p].sid);
      }
    }
  }

  lemma RootsLeadTheirSession(s: State, p: Pid)
    requires HooksInv(s)
    ensures UnreapedRoot(s, p) ==> p in s.procs && s.procs[p].sid == p
  {
    if UnreapedRoot(s, p) {
      var h :| h in s.hooks && s.hooks[h].main == Checking(p, false);
      assert HookOk(s, s.hooks[h]);
    }
  }

  lemma UnreapedRootOfHooks(s: State, t: State, p: Pid)
    requires s.hooks == t.hooks
    ensures UnreapedRoot(s, p) <==> UnreapedRoot(t, p)
  {}

  // ---- Hook steps that leave the table, the record and the history alone ----

  /** A hook moves on without adding an unreaped root. */
  predicate QuietMove(k: Hook, k': Hook) {
    && k'.mine == k.mine
    && (k'.main.Checking? && !k'.main.reaped ==> k'.main == k.main)
  }

  /** One hook's move keeps the invariant if it is well placed in the new state. `s` and
      `t` agree on everything but that hook, the lock, the record and fallen processes. */
  lemma MoveKeeps(s: State, t: State, h: HookId, k': Hook)
    requires Inv(s)
    requires h in s.hooks && t.hooks == s.hooks[h := k'] && t.armed == s.armed
    requires QuietMove(s.hooks[h], k')
    requires t.procs.Keys <= s.procs.Keys && forall p :: p in t.procs ==> t.procs[p] == s.procs[p]
    requires s.lock.None? || s.lock == Some(h)
    requires t.lock == if Holds(k') then Some(h) else None
    requires if Holds(k') then HookOk(t, k') else k'.frames == []
    requires GuardInv(t)
    ensures Inv(t)
  {
    forall x | x in t.hooks && Holds(t.hooks[x]) ensures x == h {
      assert x in s.hooks;
    }
    assert forall x :: UnreapedRoot(t, x) ==> UnreapedRoot(s, x);
  }

  /** Frames below the top stay well placed when the top changes. */
  lemma TopChangeKeeps(s: State, k: Hook, f: Frame)
    requires k.frames != [] && HookOk(s, k) && FrameOk(s, k, f)
    requires f.Arming? ==> k.main == Checking(f.session, false)
    requires Committed(Top(k)) ==> Committed(f)
    ensures HookOk(s, SetTop(k, f))
  {
    var k' := SetTop(k, f);
    forall i | 0 <= i < |k'.frames| ensures FrameOk(s, k', k'.frames[i]) {
      if i < |k.frames| - 1 {
        assert FrameOk(s, k, k.frames[i]);
        assert k'.frames[i] == k.frames[i];
      }
    }
    KeepsCommitment(k, k');
  }

  /** No frame that has committed is lost when all frames but the top are kept, and the top
      is kept too if it has committed. */
  lemma KeepsCommitment(k: Hook, k': Hook)
    requires |k'.frames| >= |k.frames| - 1
    requires forall i :: 0 <= i < |k.frames| - 1 ==> k'.frames[i] == k.frames[i]
    requires k.frames != [] && Committed(Top(k)) ==> |k'.frames| >= |k.frames| && Committed(k'.frames[|k.frames| - 1])
    ensures (exists i :: 0 <= i < |k.frames| && Committed(k.frames[i])) ==>
            (exists i :: 0 <= i < |k'.frames| && Committed(k'.frames[i]))
  {
    if i :| 0 <= i < |k.frames| && Committed(k.frames[i]) {
      assert Committed(k'.frames[i]);
    }
  }

  /** Reaping a dead root only removes a zombie. */
  lemma ReapKeepsLive(s: State, root: Pid, session: Pid)
    requires root in s.procs ==> !s.procs[root].live
    ensures LiveIn(s.procs - {root}, session) == LiveIn(s.procs, session)
  {}

  // ---- Every hook step ----

  lemma HolderFacts(s: State, h: HookId)
    requires Inv(s) && h in s.hooks && Holds(s.hooks[h])
    ensures s.lock == Some(h) && HookOk(s, s.hooks[h])
  {}

  /** A hook that does not hold the lock comes or goes. */
  lemma IdleMoveKeeps(s: State, t: State, h: HookId, k': Hook)
    requires Inv(s)
    requires h in s.hooks ==> !Holds(s.hooks[h]) && k'.mine == s.hooks[h].mine
    requires h !in s.hooks ==> forall p :: p in k'.mine && p in s.procs ==>
               s.procs[p].sid !in s.armed && !UnreapedRoot(s, s.procs[p].sid)
    requires !Holds(k') && k'.frames == []
    requires t == s.(hooks := s.hooks[h := k'])
    ensures Inv(t)
  {
    assert s.lock != Some(h);
    assert forall x :: UnreapedRoot(t, x) ==> UnreapedRoot(s, x);
    forall x | x in t.hooks && Holds(t.hooks[x]) ensures HookOk(t, t.hooks[x]) {
      assert HookOk(s, s.hooks[x]);
      SameExceptHooks(s, t, s.hooks[x]);
    }
  }

  lemma SameExceptHooks(s: State, t: State, k: Hook)
    requires HookOk(s, k) && t == s.(hooks := t.hooks)
    ensures HookOk(t, k)
  {
    forall i | 0 <= i < |k.frames| ensures FrameOk(t, k, k.frames[i]) {
      assert FrameOk(s, k, k.frames[i]);
    }
  }

  lemma ArriveKeeps(s: State, h: HookId, mine: set<Pid>)
    requires Inv(s) && MainEnabled(s, Arrive(h, mine))
    ensures Inv(DoMain(s, Arrive(h, mine)))
  {
    IdleMoveKeeps(s, DoMain(s, Arrive(h, mine)), h, Hook(mine, Waiting, []));
  }

  predicate IsGateStep(step: Step) {
    || step.Acquire? || step.ReadRecord? || step.EnumerateGroups? || step.EnumerateSession?
    || step.DropDrainedRecord?
  }

  /** Passing the gate proves every armed session dead: one still alive would be guarded
      by the record, whose own session was just enumerated empty. */
  lemma GateKeeps(s: State, step: Step)
    requires Inv(s) && IsGateStep(step) && MainEnabled(s, step)
    ensures Inv(DoMain(s, step))
  {
    var t, h := DoMain(s, step), step.h;
    var k := s.hooks[h];
    if step.EnumerateSession? && t.hooks[h].main.GateClear? {
      SessionEmptyMeansDead(s, h, k.main.found.session);
      assert AllArmedDead(s);
    }
    if step.ReadRecord? && s.record.Absent? {
      assert AllArmedDead(s);
    }
    assert t.hooks[h].frames == [];
    MoveKeeps(s, t, h, t.hooks[h]);
  }

  /** What an enumeration leaves out, the hook's own pids, is never in an armed session. */
  lemma SessionEmptyMeansDead(s: State, h: HookId, session: Pid)
    requires Inv(s) && h in s.hooks
    requires SessionMembers(s.procs, session, s.hooks[h].mine) == {}
    ensures session in s.armed ==> LiveIn(s.procs, session) == {}
  {
    var mine := s.hooks[h].mine;
    var members := SessionMembers(s.procs, session, mine);
    if session in s.armed {
      assert forall p :: p in LiveIn(s.procs, session) ==> p in members || p in mine;
      assert forall p :: p in mine ==> p !in LiveIn(s.procs, session);
    }
  }

  predicate IsExitStep(step: Step) {
    || step.CheckEnds? || step.Finish? || step.Release? || step.Abandon? || step.Die? || step.HandlerExits?
  }

  lemma ExitKeeps(s: State, step: Step)
    requires Inv(s) && IsExitStep(step) && MainEnabled(s, step)
    ensures Inv(DoMain(s, step))
  {
    var t, h := DoMain(s, step), step.h;
    if step.Die? && s.hooks[h].main.Waiting? {
      WaitingDies(s, h);
    } else {
      MoveKeeps(s, t, h, t.hooks[h]);
    }
  }

  lemma WaitingDies(s: State, h: HookId)
    requires Inv(s) && h in s.hooks && s.hooks[h].main.Waiting?
    ensures Inv(DoMain(s, Die(h)))
  {
    assert s.lock != Some(h);
    IdleMoveKeeps(s, DoMain(s, Die(h)), h, s.hooks[h].(main := Gone, frames := []));
  }

  lemma SpawnKeeps(s: State, h: HookId, root: Pid)
    requires Inv(s) && MainEnabled(s, Spawn(h, root))
    ensures Inv(DoMain(s, Spawn(h, root)))
  {
    var t := DoMain(s, Spawn(h, root));
    forall session | session in s.armed ensures LiveIn(t.procs, session) == LiveIn(s.procs, session) {}
    forall x, p | x in t.hooks && p in t.hooks[x].mine && p in t.procs
      ensures t.procs[p].sid !in t.armed && !UnreapedRoot(t, t.procs[p].sid)
    {
      assert x in s.hooks && p in s.hooks[x].mine && p in s.procs;
      var sid := s.procs[p].sid;
      assert UnreapedRoot(t, sid) ==> sid == root || UnreapedRoot(s, sid);
    }
  }

  /** The hook collects its dead root: by `wait`, or by a poll while stopping. */
  lemma ReapKeeps(s: State, step: Step)
    requires Inv(s) && (step.WaitReaps? || step.StopReaps?) && MainEnabled(s, step)
    ensures Inv(DoMain(s, step))
  {
    var t, h := DoMain(s, step), step.h;
    var k, k' := s.hooks[h], t.hooks[h];
    ReapedIsWellPlaced(s, k);
    MoveKeeps(s, t, h, k');
  }

  lemma ReapedIsWellPlaced(s: State, k: Hook)
    requires k.main.Checking? && !k.main.reaped && HookOk(s, k)
    requires k.main.root in s.procs && !s.procs[k.main.root].live
    requires k.frames != [] ==> !Top(k).Arming?
    ensures HookOk(s.(procs := s.procs - {k.main.root}), k.(main := Checking(k.main.root, true)))
    ensures GuardInv(s) ==> GuardInv(s.(procs := s.procs - {k.main.root}))
  {
    var root := k.main.root;
    var t, k' := s.(procs := s.procs - {root}), k.(main := Checking(root, true));
    forall session ensures LiveIn(t.procs, session) == LiveIn(s.procs, session) {
      ReapKeepsLive(s, root, session);
    }
    forall i | 0 <= i < |k'.frames| ensures FrameOk(t, k', k'.frames[i]) {
      assert FrameOk(s, k, k.frames[i]);
    }
  }

  lemma SignalKeeps(s: State, h: HookId)
    requires Inv(s) && MainEnabled(s, Signal(h))
    ensures Inv(DoMain(s, Signal(h)))
  {
    var t := DoMain(s, Signal(h));
    var k, k' := s.hooks[h], t.hooks[h];
    forall i | 0 <= i < |k'.frames| ensures FrameOk(t, k', k'.frames[i]) {
      if i < |k.frames| { assert FrameOk(s, k, k.frames[i]); }
    }
    KeepsCommitment(k, k');
    MoveKeeps(s, t, h, k');
  }

  lemma PollKeeps(s: State, h: HookId)
    requires Inv(s) && MainEnabled(s, PollToArm(h))
    ensures Inv(DoMain(s, PollToArm(h)))
  {
    var t, k := DoMain(s, PollToArm(h)), s.hooks[h];
    HolderFacts(s, h);
    PolledIsWellPlaced(s, k);
    if !k.main.Checking? || k.main.reaped {
      TopMoveKeeps(s, t, h, NothingToStop);
    } else if s.procs[k.main.root].live {
      TopMoveKeeps(s, t, h, Arming(k.main.root));
    } else {
      PollReapsKeeps(s, t, h);
    }
  }

  /** The poll before arming finds the root dead and collects it. */
  lemma PollReapsKeeps(s: State, t: State, h: HookId)
    requires Inv(s) && h in s.hooks && s.lock == Some(h) && s.hooks[h].frames != [] && Top(s.hooks[h]).Entered?
    requires s.hooks[h].main.Checking? && !s.hooks[h].main.reaped && HookOk(s, s.hooks[h])
    requires var root := s.hooks[h].main.root;
             && root in s.procs && !s.procs[root].live
             && t == Update(s, h, SetTop(s.hooks[h], NothingToStop).(main := Checking(root, true)))
                       .(procs := s.procs - {root})
    ensures Inv(t)
  {
    var root := s.hooks[h].main.root;
    var reaped, k := s.(procs := s.procs - {root}), s.hooks[h].(main := Checking(root, true));
    ReapedIsWellPlaced(s, s.hooks[h]);
    TopChangeKeeps(reaped, k, NothingToStop);
    SameExceptHooks(reaped, t, SetTop(k, NothingToStop));
    MoveKeeps(s, t, h, SetTop(k, NothingToStop));
  }

  lemma PolledIsWellPlaced(s: State, k: Hook)
    requires HookOk(s, k) && k.frames != [] && Top(k).Entered?
    ensures HookOk(s, SetTop(k, if k.main.Checking? && !k.main.reaped then Arming(k.main.root) else NothingToStop))
  {
    TopChangeKeeps(s, k, if k.main.Checking? && !k.main.reaped then Arming(k.main.root) else NothingToStop);
  }

  lemma ArmKeeps(s: State, h: HookId, outcome: WriteOutcome)
    requires Inv(s) && MainEnabled(s, ArmWrite(h, outcome))
    ensures Inv(DoMain(s, ArmWrite(h, outcome)))
  {
    if outcome.Written? { ArmedKeeps(s, h); } else { ArmFailsKeeps(s, h, outcome); }
  }

  /** The record could not be written: the handler returns and the lock is kept. */
  lemma ArmFailsKeeps(s: State, h: HookId, outcome: WriteOutcome)
    requires Inv(s) && MainEnabled(s, ArmWrite(h, outcome)) && !outcome.Written?
    ensures Inv(DoMain(s, ArmWrite(h, outcome)))
  {
    var t := DoMain(s, ArmWrite(h, outcome));
    var k, k' := s.hooks[h], t.hooks[h];
    assert FrameOk(s, k, Top(k));
    forall i | 0 <= i < |k'.frames| ensures FrameOk(t, k', k'.frames[i]) {
      assert FrameOk(s, k, k.frames[i]);
    }
    KeepsCommitment(k, k');
    MoveKeeps(s, t, h, k');
  }

  lemma ArmedKeeps(s: State, h: HookId)
    requires Inv(s) && MainEnabled(s, ArmWrite(h, Written))
    ensures Inv(DoMain(s, ArmWrite(h, Written)))
  {
    HolderFacts(s, h);
    assert FrameOk(s, s.hooks[h], Top(s.hooks[h]));
    ArmingKeeps(s, DoMain(s, ArmWrite(h, Written)), h);
  }

  /** The hook's own session joins the armed ones, under a record that names it. */
  lemma ArmingKeeps(s: State, t: State, h: HookId)
    requires Inv(s) && h in s.hooks && s.hooks[h].frames != []
    requires s.hooks[h].main.Checking? && !s.hooks[h].main.reaped && s.lock == Some(h)
    requires var k := s.hooks[h];
             var root := k.main.root;
             t == State(s.procs, s.lock, Valid({root}, root, InSession),
                        s.hooks[h := SetTop(k, Stopping(root))], s.armed + {root})
    ensures Inv(t)
  {
    var k := s.hooks[h];
    assert HookOk(s, k) && UnreapedRoot(s, k.main.root);
    ArmedIsWellPlaced(s, t, k);
    forall x | x in t.hooks && Holds(t.hooks[x]) ensures x == h { assert x in s.hooks; }
    assert forall x :: UnreapedRoot(t, x) ==> UnreapedRoot(s, x);
  }

  lemma ArmedIsWellPlaced(s: State, t: State, k: Hook)
    requires HookOk(s, k) && k.frames != [] && k.main.Checking? && !k.main.reaped
    requires t.procs == s.procs && t.armed == s.armed + {k.main.root}
    ensures HookOk(t, SetTop(k, Stopping(k.main.root)))
  {
    var k' := SetTop(k, Stopping(k.main.root));
    assert Committed(k'.frames[|k'.frames| - 1]);
    forall i | 0 <= i < |k'.frames| ensures FrameOk(t, k', k'.frames[i]) {
      if i < |k.frames| - 1 {
        assert FrameOk(s, k, k.frames[i]);
        assert k'.frames[i] == k.frames[i];
      }
    }
  }

  lemma StopReturnsKeeps(s: State, step: Step)
    requires Inv(s) && (step.StopReturns? || step.Verify?) && MainEnabled(s, step)
    ensures Inv(DoMain(s, step))
  {
    var t, h := DoMain(s, step), step.h;
    HolderFacts(s, h);
    assert FrameOk(s, s.hooks[h], Top(s.hooks[h]));
    if Top(t.hooks[h]).Clearing? { SessionEmptyMeansDead(s, h, Top(s.hooks[h]).session); }
    TopChangeKeeps(s, s.hooks[h], Top(t.hooks[h]));
    TopMoveKeeps(s, t, h, Top(t.hooks[h]));
  }

  lemma TopMoveKeeps(s: State, t: State, h: HookId, f: Frame)
    requires Inv(s) && h in s.hooks && s.lock == Some(h) && s.hooks[h].frames != []
    requires HookOk(s, SetTop(s.hooks[h], f))
    requires t == Update(s, h, SetTop(s.hooks[h], f))
    ensures Inv(t)
  {
    SameExceptHooks(s, t, SetTop(s.hooks[h], f));
    MoveKeeps(s, t, h, SetTop(s.hooks[h], f));
  }

  /** Rewriting the record keeps it naming the check's own session, and removing it needs
      that session dead; every other armed session already is. */
  lemma RecordStepKeeps(s: State, step: Step)
    requires Inv(s) && (step.RecordWrite? || step.ClearRecord?) && MainEnabled(s, step)
    ensures Inv(DoMain(s, step))
  {
    var t, h := DoMain(s, step), step.h;
    var k, k' := s.hooks[h], t.hooks[h];
    assert FrameOk(s, k, Top(k));
    MoveKeeps(s, t, h, k');
  }

  predicate IsHandlerStep(step: Step) {
    || step.Signal? || step.PollToArm? || step.ArmWrite? || step.StopReaps? || step.StopReturns?
    || step.RecordWrite? || step.Verify? || step.ClearRecord?
  }

  lemma HandlerStepKeeps(s: State, step: Step)
    requires Inv(s) && IsHandlerStep(step) && MainEnabled(s, step)
    ensures Inv(DoMain(s, step))
  {
    if step.Signal? { SignalKeeps(s, step.h); }
    else if step.PollToArm? { PollKeeps(s, step.h); }
    else if step.ArmWrite? { ArmKeeps(s, step.h, step.outcome); }
    else if step.StopReaps? { ReapKeeps(s, step); }
    else if step.StopReturns? || step.Verify? { StopReturnsKeeps(s, step); }
    else { RecordStepKeeps(s, step); }
  }

  lemma MainStepKeeps(s: State, step: Step)
    requires Inv(s) && !IsProcessStep(step) && !IsHandlerStep(step) && MainEnabled(s, step)
    ensures Inv(DoMain(s, step))
  {
    if step.Arrive? { ArriveKeeps(s, step.h, step.mine); }
    else if step.Spawn? { SpawnKeeps(s, step.h, step.root); }
    else if step.WaitReaps? { ReapKeeps(s, step); }
    else if IsGateStep(step) { GateKeeps(s, step); }
    else { ExitKeeps(s, step); }
  }

  lemma NextKeeps(s: State, t: State)
    requires Inv(s) && Next(s, t)
    ensures Inv(t)
  {
    var step: Step :|
      if IsProcessStep(step) then ProcessEnabled(s, step) && t == DoProcess(s, step)
      else MainEnabled(s, step) && t == DoMain(s, step);
    if IsProcessStep(step) { ProcessStepKeeps(s, step); }
    else if IsHandlerStep(step) { HandlerStepKeeps(s, step); }
    else { MainStepKeeps(s, step); }
  }
}
