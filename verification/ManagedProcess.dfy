/** A supervised command's handle: reaping, removal of its control files, bounded retry. */
module ManagedProcess {
  import opened ExceptionTree
  import opened SupervisedProcess

  /** How removing the control directory goes: not there, removed, or a raise part-way. */
  datatype Removal = NotThere | Removed | Breaks(e: Exc)

  /** A termination request that had been deferred, delivered as a signal mask is restored. */
  type Deferred = Option<Exc>

  datatype Call =
    | CallTerminate
    | CallRetry(attempts: int)
    | CallWait(polled: Option<Exc>, read: Option<Exc>, judged: Option<Exc>)

  /** Which raise leaves `terminate`: a later one replaces an earlier one. */
  function Prevailing(reap: Outcome, discarded: Outcome, deferred: Deferred): Outcome {
    if deferred.Some? then Raised(deferred.value) else if discarded.Raised? then discarded else reap
  }

  class Managed {
    const supervisor: Sentinel?
    /** How each removal attempt goes, and what each restored mask delivers. */
    const removals: nat -> Removal
    const masks: nat -> Deferred
    var removalsTried: nat
    var masksRestored: nat
    var reaped: bool
    var controlsCleaned: bool
    /** Whether anything of the control directory may be gone. */
    var controlsTouched: bool
    /** How each call of `terminate` ended. */
    ghost var outcomes: seq<Outcome>

    constructor (supervisor: Sentinel?, removals: nat -> Removal, masks: nat -> Deferred)
      requires supervisor != null ==> supervisor.groupSignals == []
      ensures this.supervisor == supervisor && this.removals == removals && this.masks == masks
      ensures Valid() && !reaped && !controlsTouched && !Closed() && outcomes == []
    {
      this.supervisor, this.removals, this.masks := supervisor, removals, masks;
      removalsTried, masksRestored, reaped, controlsCleaned, controlsTouched := 0, 0, false, false, false;
      outcomes := [];
    }

    ghost function Footprint(): set<object> { if supervisor == null then {this} else {this, supervisor} }

    /** The supervisor was never spawned, or has been waited for. */
    ghost predicate NothingRuns()
      reads supervisor
    {
      supervisor == null || supervisor.reaped
    }

    /** Controls are touched only once nothing runs, the flags tell the truth, and the group
        was only ever signalled while its number was pinned. */
    ghost predicate Valid()
      reads this`reaped, this`controlsTouched, this`controlsCleaned, supervisor
    {
      && (reaped ==> NothingRuns())
      && (controlsTouched ==> NothingRuns())
      && (controlsCleaned ==> NothingRuns())
      && (supervisor != null ==> supervisor.SignalsArePinned())
    }

    predicate Closed()
      reads this`reaped, this`controlsCleaned
    {
      reaped && controlsCleaned
    }

    /** Flags, once set, stay set. */
    twostate predicate Advances()
      reads this`reaped, this`controlsTouched, this`controlsCleaned, supervisor
    {
      && (old(reaped) ==> reaped)
      && (old(controlsCleaned) ==> controlsCleaned)
      && (old(controlsTouched) ==> controlsTouched)
      && (old(NothingRuns()) ==> NothingRuns())
      && (supervisor != null ==>
            && old(supervisor.groupSignals) <= supervisor.groupSignals
            && old(supervisor.asked) <= supervisor.asked)
    }

    /** A supervisor that could be pinned had its group told to end and then killed. */
    twostate predicate GroupAttacked(graceful: nat)
      reads this`reaped, supervisor
    {
      supervisor != null && old(!reaped && supervisor.Pinnable()) ==>
        supervisor.SignalledWhilePinned(old(supervisor.groupSignals), old(supervisor.now) + 3, graceful)
    }

    /** The same by the first of several attempts. */
    twostate predicate GroupAttackedFirst(graceful: nat)
      reads this`reaped, supervisor
    {
      supervisor != null && old(!reaped && supervisor.Pinnable()) ==>
        supervisor.AttackedSince(old(supervisor.groupSignals), graceful)
    }

    /** The requests that calls on the supervisor raised since then. */
    twostate function AskedSince(): seq<Exc>
      requires supervisor != null ==> old(supervisor.asked) <= supervisor.asked
      reads supervisor
    {
      if supervisor == null then [] else supervisor.asked[|old(supervisor.asked)|..]
    }

    /** `o` is how the cleanup of the supervisor ended, if there was one to clean up. */
    twostate predicate IsReapOutcome(o: Outcome)
      reads this`reaped, supervisor
    {
      if supervisor == null || old(reaped) then o == Returned
      else supervisor.outcomes == old(supervisor.outcomes) + [o]
    }

    /** The requests that cleaning up the supervisor will lose. */
    function Lost(): seq<Exc>
      reads this`reaped, supervisor
    {
      if supervisor == null || reaped then [] else supervisor.Lost()
    }

    /** What was raised after the supervisor's cleanup: by removing the control files, then
        by restoring the mask. */
    twostate function RaisedLate(): seq<Exc>
      reads this`reaped, this`controlsCleaned, this`removalsTried, this`masksRestored
    {
      Late(Discarding(), masks(old(masksRestored)))
    }

    /** How removing the control files went. */
    twostate function Discarding(): Outcome
      reads this`reaped, this`controlsCleaned, this`removalsTried
    {
      if reaped && !old(controlsCleaned) && removals(old(removalsTried)).Breaks?
      then Raised(removals(old(removalsTried)).e) else Returned
    }

    /** The requests that `terminate` loses: whatever was raised late takes the place of
        everything before it, and otherwise only the supervisor's cleanup can lose one. */
    twostate function LostByTerminate(): seq<Exc>
      requires supervisor != null ==> old(supervisor.asked) <= supervisor.asked
      reads this`reaped, this`controlsCleaned, this`removalsTried, this`masksRestored, supervisor
    {
      LostThen(old(Lost()), AskedSince(), RaisedLate())
    }

    /** `_reap` */
    method Reap(graceful: nat) returns (o: Outcome)
      requires Valid()
      modifies this`reaped, supervisor
      ensures Valid() && Advances()
      ensures o.Returned? ==> reaped
      ensures o.Raised? ==> (reaped <==> old(reaped) || NothingRuns())
      ensures supervisor == null ==> reaped && o.Returned?
      ensures GroupAttacked(graceful)
      ensures AskedSince() == old(Lost()) + RequestsIn(o)
      ensures IsReapOutcome(o)
    {
      o := Returned;
      if reaped { return; }
      if supervisor != null {
        o := ReapSupervisor(graceful);
        if o.Raised? { return; }
      }
      reaped := true;
    }

    /** The guarded call: what it raises passes on, whether or not the reap got done. */
    method ReapSupervisor(graceful: nat) returns (o: Outcome)
      requires Valid() && supervisor != null && !reaped
      modifies this`reaped, supervisor
      ensures Valid() && Advances() && GroupAttacked(graceful)
      ensures o.Returned? ==> NothingRuns() && !reaped
      ensures o.Raised? ==> (reaped <==> NothingRuns())
      ensures AskedSince() == old(Lost()) + RequestsIn(o)
      ensures IsReapOutcome(o)
    {
      o := supervisor.Terminate(graceful);
      assert supervisor.asked == old(supervisor.asked) + (old(Lost()) + RequestsIn(o));
      if o.Raised? {
        var done := supervisor.Poll();
        if done { reaped := true; }
      }
    }

    /** `_discard_controls` */
    method DiscardControls() returns (o: Outcome)
      requires Valid() && NothingRuns()
      modifies this`removalsTried, this`controlsCleaned, this`controlsTouched
      ensures Valid() && Advances()
      ensures o.Returned? <==> controlsCleaned
      ensures old(controlsCleaned) ==> unchanged(this)
      ensures o == if !old(controlsCleaned) && removals(old(removalsTried)).Breaks?
                   then Raised(removals(old(removalsTried)).e) else Returned
    {
      if controlsCleaned { return Returned; }
      var removal := removals(removalsTried);
      removalsTried := removalsTried + 1;
      if !removal.NotThere? { controlsTouched := true; }
      if removal.Breaks? { return Raised(removal.e); }
      controlsCleaned := true;
      return Returned;
    }

    /** What comes out of `terminate`: what restoring the mask raises, else what removing the
        control files raises, else how the supervisor's cleanup ended. Every request raised
        meanwhile comes out but for those lost, and none is lost exactly when nothing late
        overtakes one and the supervisor's cleanup loses none. */
    twostate predicate ComesOut(o: Outcome)
      reads this`reaped, this`controlsCleaned, this`removalsTried, this`masksRestored, supervisor
    {
      && (supervisor != null ==> old(supervisor.asked) <= supervisor.asked)
      && (if masks(old(masksRestored)).Some? then o == Raised(masks(old(masksRestored)).value)
          else if Discarding().Raised? then o == Discarding()
          else IsReapOutcome(o))
      && AskedSince() + AllTerminations(RaisedLate()) == LostByTerminate() + RequestsIn(o)
      && (RequestsIn(o) == AskedSince() + AllTerminations(RaisedLate()) <==> LostByTerminate() == [])
    }

    /** `terminate`: the later of two raises replaces the earlier, as leaving a `finally`
        clause or a context does. */
    method Terminate(graceful: nat) returns (o: Outcome)
      requires Valid()
      modifies Footprint()
      ensures Valid() && Advances()
      ensures o.Returned? ==> Closed()
      ensures GroupAttacked(graceful)
      ensures reaped && !removals(old(removalsTried)).Breaks? ==> controlsCleaned
      ensures supervisor == null ==> reaped
      ensures outcomes == old(outcomes) + [o] && masksRestored == old(masksRestored) + 1
      ensures ComesOut(o)
    {
      o := TerminateMasked(graceful);
      if o.Returned? { o := DiscardControls(); }
    }

    /** All of `terminate` but its last line. */
    method TerminateMasked(graceful: nat) returns (o: Outcome)
      requires Valid()
      modifies this`reaped, this`removalsTried, this`controlsCleaned, this`controlsTouched, this`masksRestored, this`outcomes,
        supervisor
      ensures Valid() && Advances()
      ensures o.Returned? ==> Closed()
      ensures GroupAttacked(graceful)
      ensures reaped && !removals(old(removalsTried)).Breaks? ==> controlsCleaned
      ensures supervisor == null ==> reaped
      ensures outcomes == old(outcomes) + [o] && masksRestored == old(masksRestored) + 1
      ensures ComesOut(o)
    {
      var reap, discarded := ReapAndDiscard(graceful);
      var deferred := masks(masksRestored);
      masksRestored := masksRestored + 1;
      o := Prevailing(reap, discarded, deferred);
      outcomes := outcomes + [o];
      PrevailingLoses(old(Lost()), AskedSince(), reap, discarded, deferred);
    }

    /** The part of `terminate` with signals deferred. */
    method ReapAndDiscard(graceful: nat) returns (reap: Outcome, discarded: Outcome)
      requires Valid()
      modifies this`reaped, this`removalsTried, this`controlsCleaned, this`controlsTouched, supervisor
      ensures Valid() && Advances()
      ensures reap.Returned? ==> reaped
      ensures reaped && discarded.Returned? ==> controlsCleaned
      ensures GroupAttacked(graceful)
      ensures reaped && !removals(old(removalsTried)).Breaks? ==> controlsCleaned
      ensures supervisor == null ==> reaped
      ensures discarded == Discarding()
      ensures AskedSince() == old(Lost()) + RequestsIn(reap)
      ensures IsReapOutcome(reap)
    {
      reap, discarded := Returned, Returned;
      if !reaped { reap := Reap(graceful); }
      if reaped { discarded := DiscardControls(); }
    }

    /** The attempts of a bounded retry: made while not closed, and as many as allowed if it
        never closes. */
    twostate predicate Tried(attempts: int, tries: seq<Outcome>)
      reads this`outcomes, this`reaped, this`controlsCleaned
    {
      && outcomes == old(outcomes) + tries
      && |tries| <= attempts
      && (tries == [] <==> old(Closed()))
      && (!Closed() ==> |tries| == attempts)
      && (forall k :: 0 <= k < |tries| - 1 ==> tries[k].Raised?)
    }

    /** `wait`, with the outcomes of its status polling, of reading the captured output and of
        judging the status as parameters: what each raises, if anything. `tries` are the
        cleanups it made after a failed poll, `reap` how its own reap ended otherwise. */
    method Wait(polled: Option<Exc>, read: Option<Exc>, judged: Option<Exc>, graceful: nat)
      returns (o: Outcome, ghost tries: seq<Outcome>, ghost reap: Outcome)
      requires Valid()
      modifies Footprint()
      ensures Valid() && Advances()
      ensures o.Returned? ==> Closed()
      ensures old(reaped) ==> o == Raised(Failure("already closed")) && outcomes == old(outcomes)
      // a supervisor still there after the poll is attacked either way
      ensures supervisor != null && old(!reaped && !supervisor.world(supervisor.now).exited
                && supervisor.PinnableAt(supervisor.now + 1)) ==>
                supervisor.AttackedSince(old(supervisor.groupSignals), graceful)
      // whatever ended the polling comes out first, then what up to two cleanups asked for,
      // then what was deferred meanwhile; with the retained handle when not closed
      ensures !old(reaped) && polled.Some? ==>
                && Tried(2, tries)
                && o.Raised? && Leaves(polled.value) <= Leaves(o.e)
                && RequestsIn(o) == Terminations(polled.value) + AllTerminations(RaisesOf(tries))
                                    + RequestsOf(masks(old(masksRestored) + |tries|))
                && (!Closed() ==> RetainedHandle in Leaves(o.e))
      // otherwise the supervisor is reaped, and a later raise hides an earlier one
      ensures !old(reaped) && polled.None? ==>
                && outcomes == old(outcomes)
                && (reap.Returned? ==> reaped)
                && (reaped && !removals(old(removalsTried)).Breaks? ==> controlsCleaned)
                && AskedSince() == old(LostAfterPoll()) + RequestsIn(reap) && IsReapOutcome(reap)
                && o == if Discarding().Raised? then Discarding()
                        else if reap.Raised? then reap
                        else if read.Some? then Raised(read.value)
                        else if judged.Some? then Raised(judged.value) else Returned
    {
      tries, reap := [], Returned;
      if reaped { return Raised(Failure("already closed")), [], Returned; }
      if supervisor != null { var _ := supervisor.Poll(); }
      if polled.Some? {
        o, tries := WaitFailed(polled.value, graceful);
        return;
      }
      o := Reap(graceful);
      reap := o;
      if o.Returned? && read.Some? { o := Raised(read.value); }
      if reaped {
        var discarded := DiscardControls();
        if discarded.Raised? { o := discarded; }
      }
      if o.Returned? && judged.Some? { o := Raised(judged.value); }
    }

    /** The requests a reap right after one more poll will lose. */
    function LostAfterPoll(): seq<Exc>
      reads supervisor
    {
      if supervisor == null || supervisor.world(supervisor.now).exited then []
      else supervisor.LostAt(supervisor.now + 1)
    }

    /** The handler of a failed poll. */
    method WaitFailed(primary: Exc, graceful: nat) returns (o: Outcome, ghost tries: seq<Outcome>)
      requires Valid() && !reaped
      modifies Footprint()
      ensures Valid() && Advances() && Tried(2, tries) && GroupAttackedFirst(graceful)
      ensures o.Raised? && Leaves(primary) <= Leaves(o.e)
      ensures RequestsIn(o) == Terminations(primary) + AllTerminations(RaisesOf(tries))
                               + RequestsOf(masks(old(masksRestored) + |tries|))
      ensures !Closed() ==> RetainedHandle in Leaves(o.e)
    {
      var cleanup;
      cleanup, tries := TerminateWithRetry(2, graceful);
      ghost var asked, deferred := AllTerminations(RaisesOf(tries)), RequestsOf(masks(masksRestored - 1));
      assert Terminations(primary) + (asked + deferred) == Terminations(primary) + asked + deferred;
      if cleanup.Returned? { return Raised(primary), tries; }
      PairOf(primary, cleanup.e);
      o := Raised(Group([primary, cleanup.e]));
    }

    /** Any sequence of calls, whatever fails. `closed` lists what `closed` said after each. */
    method RunCalls(calls: seq<Call>, graceful: nat) returns (closed: seq<bool>)
      requires Valid()
      modifies Footprint()
      ensures Valid() && Advances()
      ensures |closed| == |calls|
      // once closed, closed for good
      ensures forall i, j :: 0 <= i < j < |closed| && closed[i] ==> closed[j]
    {
      closed := [];
      for k := 0 to |calls|
        invariant Valid() && Advances()
        invariant |closed| == k
        invariant forall i, j :: 0 <= i < j < k && closed[i] ==> closed[j]
        invariant forall i :: 0 <= i < k && closed[i] ==> Closed()
      {
        Make(calls[k], graceful);
        closed := closed + [Closed()];
      }
    }

    method Make(call: Call, graceful: nat)
      requires Valid()
      modifies Footprint()
      ensures Valid() && Advances()
      ensures call.CallTerminate? ==> |outcomes| == |old(outcomes)| + 1
      ensures call.CallRetry? && call.attempts > 0 && !old(Closed()) ==> |outcomes| > |old(outcomes)|
    {
      match call {
        case CallTerminate =>
          var _ := Terminate(graceful);
        case CallRetry(attempts) =>
          var _, _ := TerminateWithRetry(attempts, graceful);
        case CallWait(polled, read, judged) =>
          var _, _, _ := Wait(polled, read, judged, graceful);
      }
    }

    /** `_drain_managed_process_with_retry`; `tries` are the attempts it made. */
    method DrainWithRetry(attempts: int, graceful: nat) returns (o: Outcome, ghost tries: seq<Outcome>)
      requires Valid()
      modifies Footprint()
      ensures Valid() && Advances()
      // a bound that allows no attempt is refused outright
      ensures attempts <= 0 ==> o == Raised(Failure("attempts must be positive")) && outcomes == old(outcomes)
      ensures attempts <= 0 ==> tries == []
      ensures attempts > 0 ==> Tried(attempts, tries) && GroupAttackedFirst(graceful)
      ensures masksRestored == old(masksRestored) + |tries|
      // every termination request the attempts raised comes out
      ensures attempts > 0 ==> RequestsIn(o) == AllTerminations(RaisesOf(tries))
      // closed: nothing else does
      ensures attempts > 0 && Closed() && o.Raised? ==> Leaves(o.e) == Terminations(o.e) != []
      // not closed: everything raised comes out, with the handle to retry with
      ensures attempts > 0 && !Closed() ==>
                o.Raised? && Leaves(o.e) == AllLeaves(RaisesOf(tries)) + [RetainedHandle]
      ensures o.Returned? ==> Closed()
    {
      tries := [];
      if attempts <= 0 { return Raised(Failure("attempts must be positive")), []; }
      var errors;
      errors, tries := TryRepeatedly(attempts, graceful);
      if Closed() {
        RaiseTerminationsIsExact(errors);
        var requests := RaiseTerminations(errors);
        o := if requests.Some? then Raised(requests.value) else Returned;
      } else {
        RetainedWith(errors);
        o := Raised(if errors != [] then Group(errors + [RetainedHandle]) else RetainedHandle);
      }
    }

    /** The loop of attempts, and what they raised. */
    method TryRepeatedly(attempts: nat, graceful: nat) returns (errors: seq<Exc>, ghost tries: seq<Outcome>)
      requires Valid() && attempts > 0
      modifies Footprint()
      ensures Valid() && Advances()
      ensures Tried(attempts, tries) && GroupAttackedFirst(graceful)
      ensures errors == RaisesOf(tries)
      ensures masksRestored == old(masksRestored) + |tries|
    {
      errors, tries := [], [];
      if Closed() { return; }
      for i := 0 to attempts
        invariant Valid() && Advances()
        invariant i == 0 ==> unchanged(this) && (supervisor != null ==> unchanged(supervisor))
        invariant outcomes == old(outcomes) + tries && masksRestored == old(masksRestored) + |tries| && |tries| == i
        invariant errors == RaisesOf(tries)
        invariant forall k :: 0 <= k < i - 1 ==> tries[k].Raised?
        invariant i > 0 ==> GroupAttackedFirst(graceful) && (tries[i - 1].Returned? ==> Closed())
      {
        if Closed() { break; }
        var t := TryOnce(graceful);
        RaisesOfMore(tries, t);
        tries := tries + [t];
        if t.Raised? { errors := errors + [t.e]; }
      }
    }

    /** One attempt, as the loop of attempts sees it. */
    method TryOnce(graceful: nat) returns (o: Outcome)
      requires Valid()
      modifies Footprint()
      ensures Valid() && Advances() && GroupAttackedFirst(graceful)
      ensures o.Returned? ==> Closed()
      ensures outcomes == old(outcomes) + [o] && masksRestored == old(masksRestored) + 1
    {
      o := Terminate(graceful);
    }

    /** `terminate_managed_process_with_retry`: the drain with signals deferred, then
        whatever was deferred. Neither hides the other. */
    method TerminateWithRetry(attempts: int, graceful: nat) returns (o: Outcome, ghost tries: seq<Outcome>)
      requires Valid()
      modifies Footprint()
      ensures Valid() && Advances()
      ensures attempts > 0 ==> Tried(attempts, tries) && GroupAttackedFirst(graceful)
      ensures masksRestored == old(masksRestored) + |tries| + 1
      ensures o.Returned? ==> Closed() && masks(masksRestored - 1).None?
      ensures attempts > 0 ==>
                RequestsIn(o) == AllTerminations(RaisesOf(tries)) + RequestsOf(masks(masksRestored - 1))
      ensures attempts > 0 && !Closed() ==> o.Raised? && RetainedHandle in Leaves(o.e)
    {
      o, tries := DrainWithRetry(attempts, graceful);
      var deferred := masks(masksRestored);
      masksRestored := masksRestored + 1;
      if deferred.Some? {
        var d := deferred.value;
        if o.Raised? {
          PairOf(o.e, d);
          o := Raised(Group([o.e, d]));
        } else {
          o := Raised(d);
        }
      }
    }
  }

  /** What the attempts raised, in order. */
  function RaisesOf(tries: seq<Outcome>): seq<Exc> {
    if tries == [] then []
    else RaisesOf(tries[..|tries| - 1]) + if tries[|tries| - 1].Raised? then [tries[|tries| - 1].e] else []
  }

  lemma RaisesOfMore(tries: seq<Outcome>, t: Outcome)
    ensures RaisesOf(tries + [t]) == RaisesOf(tries) + if t.Raised? then [t.e] else []
  {
    assert (tries + [t])[..|tries|] == tries;
  }

  /** The requests in what a restored mask delivers. */
  function RequestsOf(deferred: Deferred): seq<Exc> {
    if deferred.Some? then Terminations(deferred.value) else []
  }

  function Late(discarded: Outcome, deferred: Deferred): seq<Exc> {
    (if discarded.Raised? then [discarded.e] else []) + (if deferred.Some? then [deferred.value] else [])
  }

  /** What is lost of `asked` and `late` when the last late raise hides all before it, and
      `lost` was lost of `asked` already. */
  function LostThen(lost: seq<Exc>, asked: seq<Exc>, late: seq<Exc>): seq<Exc> {
    if late == [] then lost else asked + AllTerminations(late[..|late| - 1])
  }

  lemma PrevailingLoses(lost: seq<Exc>, asked: seq<Exc>, reap: Outcome, discarded: Outcome, deferred: Deferred)
    requires asked == lost + RequestsIn(reap)
    ensures var late, o := Late(discarded, deferred), Prevailing(reap, discarded, deferred);
            && (late == [] ==> o == reap)
            && (late != [] ==> o == Raised(late[|late| - 1]))
            && asked + AllTerminations(late) == LostThen(lost, asked, late) + RequestsIn(o)
            && (RequestsIn(o) == asked + AllTerminations(late) <==> LostThen(lost, asked, late) == [])
  {
    var late, o := Late(discarded, deferred), Prevailing(reap, discarded, deferred);
    if late == [] {
      AddsNothing(asked, []);
    } else {
      var init, last := late[..|late| - 1], late[|late| - 1];
      assert late == init + [last];
      AllTerminationsAppend(init, [last]);
      AllTerminationsOne(last);
      Regrouped(asked, AllTerminations(init), Terminations(last));
    }
    assert |LostThen(lost, asked, late) + RequestsIn(o)| == |LostThen(lost, asked, late)| + |RequestsIn(o)|;
  }

  lemma PairOf(a: Exc, b: Exc)
    ensures Leaves(Group([a, b])) == Leaves(a) + Leaves(b)
    ensures Terminations(Group([a, b])) == Terminations(a) + Terminations(b)
  {
    assert [a, b][1..] == [b] && [b][1..] == [];
    assert AllLeaves([b]) == Leaves(b);
    assert AllTerminations([b]) == Terminations(b);
  }

  lemma RetainedWith(errors: seq<Exc>)
    ensures AllLeaves(errors + [RetainedHandle]) == AllLeaves(errors) + [RetainedHandle]
    ensures AllTerminations(errors + [RetainedHandle]) == AllTerminations(errors)
  {
    assert [RetainedHandle][1..] == [];
    assert AllLeaves([RetainedHandle]) == [RetainedHandle];
    AllLeavesAppend(errors, [RetainedHandle]);
    AllTerminationsAppend(errors, [RetainedHandle]);
    AllTerminationsOne(RetainedHandle);
  }
}
