/** Killing and reaping a process group whose number a stopped, unreaped sentinel pins. */
module SupervisedProcess {
  import opened ExceptionTree

  type Pid = int

  datatype Result = Fine | NoSuchProcess | Raises(e: Exc)

  /** What the system answers at one instant: how a call ends, whether the sentinel has
      exited by then, the group it is in, and whether it is alone in that group. */
  datatype Answer = Answer(result: Result, exited: bool, group: Pid, alone: bool)

  datatype Signal = SigTerm | SigKill

  /** A group signal, as issued, and when. */
  datatype GroupSignal = GroupSignal(signal: Signal, group: Pid, at: nat, sentinelReaped: bool, accepted: bool)

  datatype Outcome = Returned | Raised(e: Exc)

  /** The termination requests a caller gets to see. */
  function RequestsIn(o: Outcome): seq<Exc> {
    match o case Returned => [] case Raised(e) => Terminations(e)
  }

  /** The termination requests in what a call raised. */
  function Asked(result: Result): seq<Exc> {
    if result.Raises? then Terminations(result.e) else []
  }

  /** An ordinary failure is among the leaves. */
  ghost predicate HoldsFailure(e: Exc) { exists f :: f in Leaves(e) && f.Failure? }

  /** The sentinel as `subprocess.Popen` sees it. `reaped` says its pid was waited for, after
      which the number pins nothing. `asked` lists the termination requests the calls below raised. */
  class Sentinel {
    const pid: Pid
    const world: nat -> Answer
    var now: nat
    var reaped: bool
    var groupSignals: seq<GroupSignal>
    ghost var asked: seq<Exc>
    /** How each call of `terminate_supervised_process` ended. */
    ghost var outcomes: seq<Outcome>

    constructor (pid: Pid, world: nat -> Answer)
      ensures this.pid == pid && this.world == world
      ensures now == 0 && !reaped && groupSignals == [] && asked == [] && outcomes == []
    {
      this.pid, this.world := pid, world;
      now, reaped, groupSignals, asked, outcomes := 0, false, [], [], [];
    }

    /** `process.poll()` */
    method Poll() returns (done: bool)
      modifies this`now, this`reaped
      ensures now == old(now) + 1
      ensures done == reaped == (old(reaped) || world(old(now)).exited)
    {
      reaped := reaped || world(now).exited;
      now := now + 1;
      done := reaped;
    }

    /** `process.communicate(timeout=5)`: an orderly end means the sentinel was waited for;
        a raise may come before or after that. */
    method Communicate() returns (error: Option<Exc>)
      modifies this`now, this`reaped, this`asked
      ensures now == old(now) + 1
      ensures old(reaped) ==> reaped
      ensures error.None? ==> reaped
      ensures asked == if error.Some? then old(asked) + Terminations(error.value) else old(asked)
      ensures error == if world(old(now)).result.Raises? then Some(world(old(now)).result.e) else None
    {
      var a := world(now);
      now := now + 1;
      match a.result
      case Raises(e) =>
        reaped := reaped || a.exited;
        error := Some(e);
        asked := asked + Terminations(e);
      case _ =>
        reaped := true;
        error := None;
    }

    /** `process.kill()`, which polls first. */
    method Kill() returns (result: Result)
      modifies this`now, this`reaped, this`asked
      ensures now == old(now) + 1 && result == world(old(now)).result
      ensures old(reaped) ==> reaped
      ensures asked == if result.Raises? then old(asked) + Terminations(result.e) else old(asked)
    {
      reaped := reaped || world(now).exited;
      result := world(now).result;
      now := now + 1;
      if result.Raises? { asked := asked + Terminations(result.e); }
    }

    /** Calls that neither reap nor signal the group: `getpgid`, `kill(pid, SIGSTOP)` and
        the enumeration of group members. */
    method Ask() returns (a: Answer)
      modifies this`now, this`asked
      ensures now == old(now) + 1 && a == world(old(now))
      ensures asked == if a.result.Raises? then old(asked) + Terminations(a.result.e) else old(asked)
    {
      a := world(now);
      now := now + 1;
      if a.result.Raises? { asked := asked + Terminations(a.result.e); }
    }

    /** `os.killpg(group, signal)` */
    method KillGroup(group: Pid, signal: Signal) returns (result: Result)
      modifies this`now, this`groupSignals, this`asked
      ensures now == old(now) + 1 && result == world(old(now)).result
      ensures groupSignals == old(groupSignals) + [GroupSignal(signal, group, old(now), reaped, result.Fine?)]
      ensures asked == if result.Raises? then old(asked) + Terminations(result.e) else old(asked)
    {
      result := world(now).result;
      groupSignals := groupSignals + [GroupSignal(signal, group, now, reaped, result.Fine?)];
      now := now + 1;
      if result.Raises? { asked := asked + Terminations(result.e); }
    }

    /** The sentinel can be pinned by a call at `t`: it runs, leads its group and takes the
        SIGSTOP. */
    ghost predicate PinnableAt(t: nat)
      reads this`reaped
    {
      && !reaped && !world(t).exited
      && world(t + 1).result.Fine? && world(t + 1).group == pid
      && world(t + 2).result.Fine?
    }

    ghost predicate Pinnable()
      reads this`reaped, this`now
    {
      PinnableAt(now)
    }

    /** What the direct kill at `t` asked for, overtaken by what collecting then raises. */
    function Overtaken(t: nat): seq<Exc> {
      if world(t + 1).result.Raises? then Asked(world(t).result) else []
    }

    /** The requests that a call at `t` will lose, told by what the world answers: those the SIGSTOP
        raises, and those a direct kill of a sentinel that could not be pinned raises when
        collecting it raises as well. */
    function LostAt(t: nat): seq<Exc>
      reads this`reaped
    {
      if reaped || world(t).exited || !world(t + 1).result.Fine? then []
      else if world(t + 1).group != pid then Overtaken(t + 2)
      else if world(t + 2).result.Raises? then Asked(world(t + 2).result) + Overtaken(t + 3)
      else []
    }

    function Lost(): seq<Exc>
      reads this`reaped, this`now
    {
      LostAt(now)
    }

    /** The sentinel had gone when a call at `t` asked for it, and could be collected. */
    ghost predicate FoundGoneAt(t: nat)
      reads this`reaped
    {
      if reaped || world(t).exited then !world(t + 1).result.Raises?
      else if world(t + 1).result.NoSuchProcess? then !world(t + 2).result.Raises?
      else world(t + 1).result.Fine? && world(t + 1).group == pid
           && world(t + 2).result.NoSuchProcess? && !world(t + 3).result.Raises?
    }

    ghost predicate FoundGone()
      reads this`reaped, this`now
    {
      FoundGoneAt(now)
    }

    /** The sentinel runs but does not lead its group, or cannot be stopped, and is then killed
        and collected directly. */
    ghost predicate UnpinnedAt(t: nat)
      reads this`reaped
    {
      && !reaped && !world(t).exited && world(t + 1).result.Fine?
      && if world(t + 1).group != pid then
           world(t + 2).result.Fine? && !world(t + 3).result.Raises?
         else
           world(t + 2).result.Raises? && world(t + 3).result.Fine? && !world(t + 4).result.Raises?
    }

    ghost predicate Unpinned()
      reads this`reaped, this`now
    {
      UnpinnedAt(now)
    }

    /** The last group signal was accepted, and one of the two attempts to collect that may
        follow it did not raise. */
    ghost predicate KilledAndCollected()
      reads this`groupSignals
      requires groupSignals != []
    {
      var kill := groupSignals[|groupSignals| - 1];
      kill.accepted && !(world(kill.at + 1).result.Raises? && world(kill.at + 3).result.Raises?)
    }

    /** The enumeration at `t` ends the graceful wait: it raises or finds the sentinel alone. */
    predicate EndsWait(t: nat) { world(t).result.Raises? || world(t).alone }

    /** SIGKILL comes right after a SIGTERM that raised, and otherwise after the first
        enumeration that ends the wait, or after `graceful` of them. */
    ghost predicate WaitedFor(term: GroupSignal, kill: GroupSignal, graceful: nat) {
      && term.at < kill.at
      && if world(term.at).result.Raises? then kill.at == term.at + 1
         else
           && kill.at <= term.at + 1 + graceful
           && (forall t :: term.at < t < kill.at - 1 ==> !EndsWait(t))
           && (kill.at < term.at + 1 + graceful ==> kill.at > term.at + 1 && EndsWait(kill.at - 1))
    }

    /** `terminate_supervised_process`, allowed `graceful` polls before its deadline. */
    method Terminate(graceful: nat) returns (o: Outcome)
      modifies this
      ensures outcomes == old(outcomes) + [o]
      // the group is signalled only once pinned, first to end, then to die, and then always
      ensures groupSignals == old(groupSignals) || SignalledWhilePinned(old(groupSignals), old(now) + 3, graceful)
      ensures groupSignals != old(groupSignals) <==> old(Pinnable())
      ensures old(SignalsArePinned()) ==> SignalsArePinned()
      // an orderly return means the sentinel was reaped: found gone and collected, or killed
      // with its group and collected, with no request to pass on; there is no other
      ensures o.Returned? ==> reaped
      ensures old(!Pinnable()) ==> (o.Returned? <==> old(FoundGone()))
      ensures old(Pinnable()) ==> (o.Returned? <==> KilledAndCollected() && asked == old(asked))
      // a sentinel that could not be pinned is reported as a failure
      ensures old(Unpinned()) ==> o.Raised? && o.e.Failure?
      ensures old(reaped) ==> reaped
      // a refused group kill leaves the sentinel unreaped, to be retried
      ensures old(Pinnable()) && !groupSignals[|groupSignals| - 1].accepted ==> o.Raised? && !reaped
      // whatever asked for termination meanwhile is in what is raised, and nothing else asks,
      // but for what is lost before the sentinel is pinned
      ensures asked == old(asked) + old(Lost()) + RequestsIn(o)
      ensures old(Pinnable()) ==> old(Lost()) == []
    {
      var done := Poll();
      if done {
        o := CommunicateAndReturn();
      } else {
        o := TerminateRunning(graceful, old(now));
      }
      AddsNothing(old(asked), []);
      outcomes := outcomes + [o];
    }

    /** From the question for its group on, for a sentinel that had not exited at `t`. */
    method TerminateRunning(graceful: nat, ghost t: nat) returns (o: Outcome)
      requires !reaped && now == t + 1 && !world(t).exited
      modifies this`now, this`reaped, this`groupSignals, this`asked
      ensures groupSignals == old(groupSignals) || SignalledWhilePinned(old(groupSignals), t + 3, graceful)
      ensures groupSignals != old(groupSignals) <==> old(PinnableAt(t))
      ensures old(SignalsArePinned()) ==> SignalsArePinned()
      ensures o.Returned? ==> reaped
      ensures old(!PinnableAt(t)) ==> (o.Returned? <==> old(FoundGoneAt(t)))
      ensures old(PinnableAt(t)) ==> (o.Returned? <==> KilledAndCollected() && asked == old(asked))
      ensures old(UnpinnedAt(t)) ==> o.Raised? && o.e.Failure?
      ensures old(PinnableAt(t)) && !groupSignals[|groupSignals| - 1].accepted ==> o.Raised? && !reaped
      ensures asked == old(asked) + old(LostAt(t)) + RequestsIn(o)
    {
      var a := Ask();
      AddsNothing(old(asked), []);
      if a.result.Raises? {
        o := Raised(a.result.e);
      } else if a.result.NoSuchProcess? {
        o := CommunicateAndReturn();
      } else if a.group != pid {
        o := KillAndRaise(Failure("the supervisor is not its process-group leader"));
      } else {
        Regrouped(asked, Asked(world(now).result), Overtaken(now + 1));
        o := PinAndTerminate(graceful);
      }
    }

    /** From the SIGSTOP on, for a sentinel that leads its group. */
    method PinAndTerminate(graceful: nat) returns (o: Outcome)
      requires !reaped
      modifies this`now, this`reaped, this`groupSignals, this`asked
      ensures groupSignals == old(groupSignals) || SignalledWhilePinned(old(groupSignals), old(now) + 1, graceful)
      ensures groupSignals != old(groupSignals) <==> world(old(now)).result.Fine?
      ensures old(SignalsArePinned()) ==> SignalsArePinned()
      ensures o.Returned? ==> reaped
      ensures world(old(now)).result.Fine? ==> groupSignals != []
      ensures world(old(now)).result.Fine? ==> (o.Returned? <==> KilledAndCollected() && asked == old(asked))
      ensures world(old(now)).result.Fine? && !groupSignals[|groupSignals| - 1].accepted ==> o.Raised? && !reaped
      ensures world(old(now)).result.NoSuchProcess? ==> (o.Returned? <==> !world(old(now) + 1).result.Raises?)
      ensures world(old(now)).result.Raises? ==> o.Raised?
      ensures world(old(now)).result.Raises? && world(old(now) + 1).result.Fine? && !world(old(now) + 2).result.Raises? ==>
                o.e.Failure?
      ensures !world(old(now)).result.Raises? ==> asked == old(asked) + RequestsIn(o)
      ensures world(old(now)).result.Raises? ==>
                asked == old(asked) + Asked(world(old(now)).result) + Overtaken(old(now) + 1) + RequestsIn(o)
    {
      var stopped := Ask();
      if stopped.result.NoSuchProcess? {
        o := CommunicateAndReturn();
      } else if stopped.result.Raises? {
        o := KillAndRaise(Failure("could not pin the supervised process group"));
      } else {
        o := TerminatePinned(graceful);
      }
    }

    /** Every group signal ever sent went to the sentinel's own group while it was unreaped. */
    ghost predicate SignalsArePinned()
      reads this`groupSignals
    {
      forall k :: 0 <= k < |groupSignals| ==> groupSignals[k].group == pid && !groupSignals[k].sentinelReaped
    }

    /** The group was told to end and, given time, killed, first of all. */
    ghost predicate AttackedSince(before: seq<GroupSignal>, graceful: nat)
      reads this`groupSignals
    {
      && before <= groupSignals && |groupSignals| >= |before| + 2
      && groupSignals[|before|].signal.SigTerm? && groupSignals[|before| + 1].signal.SigKill?
      && WaitedFor(groupSignals[|before|], groupSignals[|before| + 1], graceful)
    }

    /** Two group signals were added, the first at `from` and the second after the graceful
        wait, both to the sentinel's own group and with it unreaped. */
    ghost predicate SignalledWhilePinned(before: seq<GroupSignal>, from: nat, graceful: nat)
      reads this`groupSignals
    {
      && |groupSignals| == |before| + 2 && before <= groupSignals
      && var term, kill := groupSignals[|before|], groupSignals[|before| + 1];
      && term.signal.SigTerm? && term.group == pid && !term.sentinelReaped && term.at == from
      && kill.signal.SigKill? && kill.group == pid && !kill.sentinelReaped && WaitedFor(term, kill, graceful)
    }

    method CommunicateAndReturn() returns (o: Outcome)
      modifies this`now, this`reaped, this`asked
      ensures old(reaped) ==> reaped
      ensures o.Returned? ==> reaped
      ensures o.Returned? <==> !world(old(now)).result.Raises?
      ensures asked == old(asked) + RequestsIn(o)
    {
      var error := Communicate();
      o := if error.Some? then Raised(error.value) else Returned;
      AddsNothing(old(asked), []);
    }

    /** `try: kill() finally: communicate()`, then raise: what collecting raises comes out,
        else what the kill raises, else the failure. */
    method KillAndRaise(failure: Exc) returns (o: Outcome)
      requires failure.Failure?
      modifies this`now, this`reaped, this`asked
      ensures old(reaped) ==> reaped
      ensures o.Raised?
      ensures asked == old(asked) + Overtaken(old(now)) + RequestsIn(o)
      ensures world(old(now) + 1).result.Raises? ==> o == Raised(world(old(now) + 1).result.e)
      ensures !world(old(now) + 1).result.Raises? && world(old(now)).result.Raises? ==>
                o == Raised(world(old(now)).result.e)
      ensures !world(old(now) + 1).result.Raises? && world(old(now)).result.Fine? ==> o == Raised(failure)
    {
      var kill := Kill();
      var error := Communicate();
      o := Raised(
        if error.Some? then error.value
        else if kill.Raises? then kill.e
        else if kill.NoSuchProcess? then Failure("no such process")
        else failure);
      AddsNothing(old(asked), []);
      AddsNothing(asked, []);
    }

    /** The graceful wait: its error, if any. */
    method AwaitDrain(graceful: nat) returns (error: Option<Exc>)
      modifies this`now, this`asked
      ensures old(now) <= now <= old(now) + graceful
      ensures forall t :: old(now) <= t < now - 1 ==> !EndsWait(t)
      ensures now < old(now) + graceful ==> now > old(now) && EndsWait(now - 1)
      ensures error.Some? <==> now > old(now) && world(now - 1).result.Raises?
      ensures error.Some? ==> error.value == world(now - 1).result.e
      ensures asked == if error.Some? then old(asked) + Terminations(error.value) else old(asked)
    {
      for i := 0 to graceful
        invariant asked == old(asked) && now == old(now) + i
        invariant forall t :: old(now) <= t < now ==> !EndsWait(t)
      {
        var a := Ask();
        if a.result.Raises? { return Some(a.result.e); }
        if a.alone { return None; }
        assert !EndsWait(now - 1);
      }
      error := None;
      assert now > old(now) ==> !EndsWait(now - 1);
    }

    /** From the pinned sentinel on. */
    method TerminatePinned(graceful: nat) returns (o: Outcome)
      requires !reaped
      modifies this`now, this`reaped, this`groupSignals, this`asked
      ensures SignalledWhilePinned(old(groupSignals), old(now), graceful)
      ensures old(SignalsArePinned()) ==> SignalsArePinned()
      ensures o.Returned? ==> reaped
      ensures !groupSignals[|groupSignals| - 1].accepted ==> o.Raised? && !reaped
      // whatever asked for termination meanwhile comes out, and nothing else asks
      ensures asked == old(asked) + RequestsIn(o)
      ensures o.Returned? <==> KilledAndCollected() && asked == old(asked)
      // cleanup that could not be confirmed is reported as a failure
      ensures (o.Raised? && HoldsFailure(o.e)) <==> !KilledAndCollected()
    {
      var recoverable, kill := SignalGroup(graceful);
      if kill.Fine? {
        o := ReapKilled(recoverable, old(asked));
      } else {
        o := KillRefused(recoverable, kill);
        Regrouped(old(asked), AllTerminations(recoverable), Asked(kill));
      }
      AddsNothing(old(asked), RequestsIn(o));
    }

    /** SIGTERM, the graceful wait, and then in any case SIGKILL. */
    method SignalGroup(graceful: nat) returns (recoverable: seq<Exc>, kill: Result)
      requires !reaped
      modifies this`now, this`groupSignals, this`asked
      ensures SignalledWhilePinned(old(groupSignals), old(now), graceful)
      ensures old(SignalsArePinned()) ==> SignalsArePinned()
      ensures now > 0 && kill == world(now - 1).result
      ensures var g := groupSignals[|groupSignals| - 1]; g.at == now - 1 && (g.accepted <==> kill.Fine?)
      ensures asked == old(asked) + AllTerminations(recoverable) + Asked(kill)
    {
      recoverable := AskToEnd(graceful);
      AddsNothing(asked, []);
      kill := KillGroup(pid, SigKill);
    }

    /** SIGTERM to the group, then the graceful wait; the errors of either. */
    method AskToEnd(graceful: nat) returns (recoverable: seq<Exc>)
      modifies this`now, this`groupSignals, this`asked
      ensures asked == old(asked) + AllTerminations(recoverable)
      ensures |groupSignals| == |old(groupSignals)| + 1 && old(groupSignals) <= groupSignals
      ensures var g := groupSignals[|old(groupSignals)|];
              && g.signal.SigTerm? && g.group == pid && g.sentinelReaped == reaped && g.at == old(now)
              && WaitedFor(g, GroupSignal(SigKill, pid, now, reaped, false), graceful)
    {
      recoverable := [];
      var term := KillGroup(pid, SigTerm);
      if term.Raises? {
        recoverable := [term.e];
        AllTerminationsOne(term.e);
      } else {
        ghost var from := now;
        var drainError := AwaitDrain(graceful);
        assert from == old(now) + 1 && now <= from + graceful;
        if drainError.Some? {
          recoverable := [drainError.value];
          AllTerminationsOne(drainError.value);
        }
      }
    }

    /** The final group kill was refused: the stopped sentinel is kept for a retry. */
    method KillRefused(recoverable: seq<Exc>, kill: Result) returns (o: Outcome)
      requires !kill.Fine?
      ensures o.Raised? && Terminations(o.e) == AllTerminations(recoverable) + Asked(kill)
      ensures HoldsFailure(o.e)
    {
      var last := if kill.Raises? then kill.e else Failure("no such process group");
      var failure := Failure("could not confirm cleanup; stopped sentinel retained for retry");
      AllTerminationsAppend(recoverable, [last]);
      AllTerminationsOne(last);
      WithTerminationsIsExact(recoverable + [last], failure);
      o := Raised(WithTerminations(recoverable + [last], failure));
      assert failure in Leaves(o.e);
    }

    /** Collect the sentinel, at the second attempt after killing it directly. */
    method Collect() returns (collected: bool, errors: seq<Exc>)
      modifies this`now, this`reaped, this`asked
      ensures collected ==> reaped
      ensures asked == old(asked) + AllTerminations(errors)
      ensures !collected <==> world(old(now)).result.Raises? && world(old(now) + 2).result.Raises?
    {
      var error := Communicate();
      AddsNothing(old(asked), []);
      if error.None? { return true, []; }
      var more;
      AllTerminationsOne(error.value);
      collected, more := CollectKilled();
      AllTerminationsAppend([error.value], more);
      Regrouped(old(asked), Terminations(error.value), AllTerminations(more));
      errors := [error.value] + more;
    }

    /** The second attempt, after killing it directly. */
    method CollectKilled() returns (collected: bool, errors: seq<Exc>)
      modifies this`now, this`reaped, this`asked
      ensures collected ==> reaped
      ensures asked == old(asked) + AllTerminations(errors)
      ensures collected <==> !world(old(now) + 1).result.Raises?
    {
      errors := [];
      var kill := Kill();
      AddsNothing(old(asked), []);
      if kill.Raises? { errors := AddError(errors, kill.e); }
      ghost var before := errors;
      var error := Communicate();
      if error.Some? {
        errors := AddError(errors, error.value);
        Regrouped(old(asked), AllTerminations(before), Terminations(error.value));
      }
      collected := error.None?;
    }

    /** After an accepted group kill: collect the sentinel, killing it directly if the first
        attempt fails. */
    method ReapKilled(recoverable: seq<Exc>, ghost before: seq<Exc>) returns (o: Outcome)
      requires asked == before + AllTerminations(recoverable) + []
      modifies this`now, this`reaped, this`asked
      ensures o.Returned? ==> reaped
      ensures asked == before + RequestsIn(o)
      // cleanup is called unconfirmed just when both attempts to collect have failed
      ensures (o.Raised? && HoldsFailure(o.e)) <==>
                world(old(now)).result.Raises? && world(old(now) + 2).result.Raises?
      ensures o.Returned? <==>
                && !(world(old(now)).result.Raises? && world(old(now) + 2).result.Raises?)
                && RequestsIn(o) == []
    {
      var collected, final := Collect();
      var errors := recoverable + final;
      AllTerminationsAppend(recoverable, final);
      AddsNothing(before + AllTerminations(recoverable), []);
      Regrouped(before, AllTerminations(recoverable), AllTerminations(final));
      var confirmed := collected;
      if collected { confirmed := Poll(); }
      if !confirmed {
        var failure := Failure("could not confirm cleanup of supervised process group");
        WithTerminationsIsExact(errors, failure);
        assert failure in Leaves(WithTerminations(errors, failure));
        return Raised(WithTerminations(errors, failure));
      }
      RaiseTerminationsIsExact(errors);
      AllTerminationsAreBare(errors);
      var requests := RaiseTerminations(errors);
      o := if requests.Some? then Raised(requests.value) else Returned;
    }
  }

  lemma Regrouped(a: seq<Exc>, b: seq<Exc>, c: seq<Exc>)
    ensures a + b + c == a + (b + c)
  {}

  lemma AddsNothing(a: seq<Exc>, b: seq<Exc>)
    ensures a + b == a <==> b == []
  {
    assert |a + b| == |a| + |b|;
  }

  method AddError(errors: seq<Exc>, e: Exc) returns (more: seq<Exc>)
    ensures more == errors + [e] && AllTerminations(more) == AllTerminations(errors) + Terminations(e)
  {
    more := errors + [e];
    AllTerminationsAppend(errors, [e]);
    AllTerminationsOne(e);
  }

  /** One such loss: the SIGSTOP of a running leader raises a request, which is not among
      those that come out. */
  method RequestLost() returns (o: Outcome, ghost asked: seq<Exc>)
    ensures asked == [Termination(2)] + RequestsIn(o)
  {
    var interrupted := Answer(Raises(Termination(2)), false, 7, false);
    var answers := (t: nat) => if t == 2 then interrupted else Answer(Fine, false, 7, false);
    var sentinel := new Sentinel(7, answers);
    assert Asked(answers(2).result) == [Termination(2)];
    o := sentinel.Terminate(0);
    asked := sentinel.asked;
  }
}
