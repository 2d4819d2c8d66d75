/** What a stop could not account for holds back every later build while it lives. */
module PrePushLeftovers {
  import opened PrePushProtocol
  import opened PrePushSafety

  /** The process lives in a group the stop left over, in the session observed for it. */
  predicate IsLeftover(s: State, unaccounted: map<Pid, Pid>, p: Pid) {
    && p in s.procs && s.procs[p].live
    && s.procs[p].pgid in unaccounted && s.procs[p].sid == unaccounted[s.procs[p].pgid]
  }

  /** Every hook there is has a left-over process to find, other than itself and its parent. */
  ghost predicate InSight(s: State, unaccounted: map<Pid, Pid>) {
    forall g :: g in s.hooks ==> SomeLeftover(s, unaccounted, s.hooks[g].mine)
  }

  ghost predicate SomeLeftover(s: State, unaccounted: map<Pid, Pid>, mine: set<Pid>) {
    exists p :: IsLeftover(s, unaccounted, p) && p !in mine
  }

  /** The stop of `h`'s handler returns with something left over. */
  ghost predicate StopLeaves(s: State, t: State, h: HookId, unaccounted: map<Pid, Pid>) {
    && unaccounted != map[]
    && MainEnabled(s, StopReturns(h, unaccounted)) && t == DoMain(s, StopReturns(h, unaccounted))
  }

  ghost predicate Records(s: State, t: State, h: HookId) {
    MainEnabled(s, RecordWrite(h, Written)) && t == DoMain(s, RecordWrite(h, Written))
  }

  /** The handler at depth `d` of `h` has not been left. */
  predicate HandlerAt(s: State, h: HookId, d: nat) { h in s.hooks && d < |s.hooks[h].frames| }

  /** Step `i` ends a stop with `unaccounted` left over, and step `j` is the same handler's
      successful write of the record, whatever interrupted it in between. */
  ghost predicate LeavesAndRecords(run: seq<State>, i: nat, j: nat, h: HookId, unaccounted: map<Pid, Pid>) {
    && i < j < |run| - 1
    && StopLeaves(run[i], run[i + 1], h, unaccounted)
    && Records(run[j], run[j + 1], h)
    && |run[j].hooks[h].frames| == |run[i].hooks[h].frames|
    && forall k :: i <= k <= j ==> HandlerAt(run[k], h, |run[i].hooks[h].frames| - 1)
  }

  // ---- What is written ----

  /** A handler about to record keeps what it will record until it is left. */
  lemma RecordingStays(s: State, t: State, h: HookId, d: nat)
    requires Next(s, t) && HandlerAt(s, h, d) && HandlerAt(t, h, d) && s.hooks[h].frames[d].Recording?
    ensures t.hooks[h].frames[d] == s.hooks[h].frames[d]
  {
    var step := StepBetween(s, t);
    if !IsProcessStep(step) {
      if step.h != h { OthersStay(s, step, h); } else { RecordingStaysBy(s, step, d); }
    }
  }

  lemma RecordingStaysBy(s: State, step: Step, d: nat)
    requires !IsProcessStep(step) && MainEnabled(s, step)
    requires HandlerAt(s, step.h, d) && HandlerAt(DoMain(s, step), step.h, d) && s.hooks[step.h].frames[d].Recording?
    ensures DoMain(s, step).hooks[step.h].frames[d] == s.hooks[step.h].frames[d]
  {}

  /** A process that is left over counts for the record. */
  ghost predicate Covers(r: Record, unaccounted: map<Pid, Pid>) {
    && r.Valid?
    && forall pr: Proc :: pr.live && pr.pgid in unaccounted && pr.sid == unaccounted[pr.pgid] ==> CountsFor(pr, r)
  }

  /** What the handler's frame will write. */
  function ToWrite(f: Frame): Record
    requires f.Recording?
  {
    Valid(f.groups, f.session, f.scope)
  }

  lemma StopLeavesRecording(s: State, t: State, h: HookId, unaccounted: map<Pid, Pid>)
    requires StopLeaves(s, t, h, unaccounted)
    ensures h in t.hooks && |t.hooks[h].frames| == |s.hooks[h].frames|
    ensures Top(t.hooks[h]).Recording? && Covers(ToWrite(Top(t.hooks[h])), unaccounted)
  {}

  ghost predicate AboutToRecord(s: State, h: HookId, d: nat, unaccounted: map<Pid, Pid>) {
    && HandlerAt(s, h, d) && s.hooks[h].frames[d].Recording?
    && Covers(ToWrite(s.hooks[h].frames[d]), unaccounted)
  }

  lemma {:induction false} StillToWrite(run: seq<State>, i: nat, k: nat, h: HookId, unaccounted: map<Pid, Pid>)
    requires IsRun(run) && i < k < |run| && StopLeaves(run[i], run[i + 1], h, unaccounted)
    requires forall m :: i <= m <= k ==> HandlerAt(run[m], h, |run[i].hooks[h].frames| - 1)
    ensures AboutToRecord(run[k], h, |run[i].hooks[h].frames| - 1, unaccounted)
    decreases k
  {
    if k == i + 1 {
      StopLeavesRecording(run[i], run[k], h, unaccounted);
    } else {
      StillToWrite(run, i, k - 1, h, unaccounted);
      assert StepAt(run, k - 1);
      RecordingStays(run[k - 1], run[k], h, |run[i].hooks[h].frames| - 1);
    }
  }

  // ---- What the record then holds back ----

  /** Not past the gate, nor past its first enumeration with nothing found. */
  predicate HeldBack(m: Main) {
    m.Waiting? || m.Reading? || m.GateGroups? || (m.GateSession? && !m.groupsEmpty) || m.Leaving? || m.Gone?
  }

  /** The record stands, and no hook has got past it. */
  predicate Blocked(s: State, r: Record) {
    s.record == r && forall g :: g in s.hooks ==> HeldBack(s.hooks[g].main)
  }

  lemma WrittenBlocks(s: State, t: State, h: HookId)
    requires Inv(s) && Records(s, t, h)
    ensures Blocked(t, ToWrite(Top(s.hooks[h])))
  {
    HolderFacts(s, h);
    forall g | g in t.hooks && g != h ensures HeldBack(t.hooks[g].main) {
      assert !Holds(s.hooks[g]);
    }
  }

  /** A hook held back has no handler that could touch the record. */
  lemma HeldBackIsHarmless(s: State, h: HookId)
    requires Inv(s) && InHandler(s, h) && HeldBack(s.hooks[h].main)
    ensures Top(s.hooks[h]).Entered? || Top(s.hooks[h]).NothingToStop?
  {
    HolderFacts(s, h);
    assert FrameOk(s, s.hooks[h], Top(s.hooks[h]));
  }

  lemma StaysBlocked(s: State, t: State, r: Record, unaccounted: map<Pid, Pid>)
    requires Inv(s) && Next(s, t) && Blocked(s, r) && Covers(r, unaccounted) && InSight(s, unaccounted)
    ensures Blocked(t, r)
  {
    var step := StepBetween(s, t);
    if !IsProcessStep(step) {
      if step.h in s.hooks {
        MemberFound(s, step.h, r, unaccounted);
        if InHandler(s, step.h) { HeldBackIsHarmless(s, step.h); }
        if Holds(s.hooks[step.h]) { HolderFacts(s, step.h); }
      }
      BlockedStep(s, step, r);
      forall g | g in t.hooks ensures HeldBack(t.hooks[g].main) {
        if g != step.h { OthersStay(s, step, g); }
      }
    }
  }

  lemma MemberFound(s: State, g: HookId, r: Record, unaccounted: map<Pid, Pid>)
    requires g in s.hooks && Covers(r, unaccounted) && InSight(s, unaccounted)
    ensures GroupMembers(s.procs, r, s.hooks[g].mine) != {}
  {
    assert SomeLeftover(s, unaccounted, s.hooks[g].mine);
    var p :| IsLeftover(s, unaccounted, p) && p !in s.hooks[g].mine;
    assert p in GroupMembers(s.procs, r, s.hooks[g].mine);
  }

  lemma BlockedStep(s: State, step: Step, r: Record)
    requires !IsProcessStep(step) && MainEnabled(s, step) && s.record == r && r.Valid?
    requires step.h in s.hooks ==>
               && HeldBack(s.hooks[step.h].main)
               && GroupMembers(s.procs, r, s.hooks[step.h].mine) != {}
               && (InHandler(s, step.h) ==> Top(s.hooks[step.h]).Entered? || Top(s.hooks[step.h]).NothingToStop?)
               && (s.hooks[step.h].main.GateGroups? ==> s.hooks[step.h].main.found == r)
    ensures DoMain(s, step).record == r && HeldBack(DoMain(s, step).hooks[step.h].main)
  {}

  lemma {:induction false} RecordHoldsBack(run: seq<State>, j: nat, n: nat, r: Record, unaccounted: map<Pid, Pid>)
    requires IsRun(run) && j < n < |run| && Blocked(run[j + 1], r) && Covers(r, unaccounted)
    requires forall k :: j < k < n ==> InSight(run[k], unaccounted)
    ensures Blocked(run[n], r)
    decreases n
  {
    if j + 1 < n {
      RecordHoldsBack(run, j, n - 1, r, unaccounted);
      InvariantHolds(run, n - 1);
      assert StepAt(run, n - 1);
      StaysBlocked(run[n - 1], run[n], r, unaccounted);
    }
  }

  /** Once a handler has recorded what its stop could not account for, then in every run, for
      as long as every hook has something of that left to find, the record stands, every
      answered enumeration of its groups finds each left-over process, and no hook builds -
      whoever died, failed or went unanswered. */
  lemma LeftoversHoldBackBuilds(run: seq<State>, i: nat, j: nat, n: nat, h: HookId, unaccounted: map<Pid, Pid>)
    requires IsRun(run) && j < n < |run| && LeavesAndRecords(run, i, j, h, unaccounted)
    requires forall k :: j < k < n ==> InSight(run[k], unaccounted)
    ensures run[n].record == run[j + 1].record && run[n].record.Valid?
    ensures forall p, mine :: IsLeftover(run[n], unaccounted, p) && p !in mine ==>
              p in GroupMembers(run[n].procs, run[n].record, mine)
    ensures forall g :: g in run[n].hooks ==> !Building(run[n].hooks[g])
  {
    var d := |run[i].hooks[h].frames| - 1;
    StillToWrite(run, i, j, h, unaccounted);
    InvariantHolds(run, j);
    WrittenBlocks(run[j], run[j + 1], h);
    RecordHoldsBack(run, j, n, ToWrite(run[j].hooks[h].frames[d]), unaccounted);
    RecordHoldsBack(run, j, j + 1, ToWrite(run[j].hooks[h].frames[d]), unaccounted);
  }
}
