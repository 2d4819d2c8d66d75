/** Stopping a running check: discover its groups, signal those that provably are still its
    own, and wait for an answered, empty enumeration. */
module StopActiveCheck {
  import opened ProcessTable

  datatype Signal = SigTerm | SigKill

  /** The system at one instant: what `ps` lists (unless it fails), whether the check's
      root has exited, and what `getpgid`/`getsid` say of a pid they can answer for. */
  datatype Instant = Instant(listing: Option<seq<Row>>, rootExited: bool, places: map<Pid, Place>)

  /** The group before and after the session question, and the session. */
  datatype Place = Place(pgid: Pid, sid: Pid, pgidAfter: Pid)

  /** A group signal sent. `at` is the instant of the enumeration before it, `sessions` the
      session then recorded for each group, `rootUnreaped` what the last poll answered. */
  datatype Sent = Sent(pgid: Pid, signal: Signal, at: nat, sessions: map<Pid, Pid>, rootUnreaped: bool)

  /** A live member of `pgid`, in the session recorded for it, was listed. */
  predicate LiveMemberListed(world: nat -> Instant, at: nat, mine: set<Pid>, pgid: Pid, sessions: map<Pid, Pid>) {
    && world(at).listing.Some?
    && pgid in sessions
    && exists r :: r in world(at).listing.value && !r.zombie && r.pid !in mine
                   && r.pgid == pgid && r.session == Sid(sessions[pgid])
  }

  /** Never a stranger's group: a live member was just seen in the recorded session, or it
      is the group of a root not yet reaped, whose number cannot have been reissued. */
  predicate Justified(world: nat -> Instant, mine: set<Pid>, root: Pid, s: Sent) {
    || LiveMemberListed(world, s.at, mine, s.pgid, s.sessions)
    || (s.pgid == root && s.rootUnreaped)
  }

  /** At instant `at` an enumeration of `groups` was answered and found nothing. */
  predicate SeenEmpty(world: nat -> Instant, at: nat, mine: set<Pid>, groups: set<Pid>, sessions: map<Pid, Pid>) {
    && world(at).listing.Some?
    && forall r :: r in world(at).listing.value ==>
         && !Counts(r, groups, PerGroup(sessions), mine)
         && !Unanswerable(r, groups, PerGroup(sessions), mine)
  }

  /** The enumeration a pass begun at `from` went by, and what was known of the check then,
      from which readings of its tree. `fallback`: it went unanswered, and a poll found the
      root still unreaped. */
  datatype Look = Look(
    from: nat, at: nat, readings: set<nat>, groups: set<Pid>, sessions: map<Pid, Pid>, fallback: bool)

  predicate SeenAlive(world: nat -> Instant, mine: set<Pid>, look: Look, g: Pid) {
    && g in look.groups
    && LiveMemberListed(world, look.at, mine, g, look.sessions)
    && Answered(world, look.at, mine, look.groups, look.sessions)
  }

  /** Every question the enumeration of `groups` at instant `at` depends on was answered. */
  predicate Answered(world: nat -> Instant, at: nat, mine: set<Pid>, groups: set<Pid>, sessions: map<Pid, Pid>) {
    && world(at).listing.Some?
    && forall r :: r in world(at).listing.value ==> !Unanswerable(r, groups, PerGroup(sessions), mine)
  }

  /** The polls between two instants saw the root exit. */
  predicate RootGone(world: nat -> Instant, from: nat, to: nat) {
    exists t :: from <= t < to && world(t).rootExited
  }

  /** What the pass that went by `look` sent: `signal`, to exactly the groups it saw alive,
      or to the unreaped root's own group when it could not see, once each and in order; each
      signal carries that look's instant and sessions. */
  ghost predicate SentBy(world: nat -> Instant, mine: set<Pid>, root: Pid, look: Look, signal: Signal, sent: seq<Sent>) {
    && (forall k :: 0 <= k < |sent| && sent[k].signal == signal ==>
          sent[k].at == look.at && sent[k].sessions == look.sessions)
    && (forall a, b :: 0 <= a < b < |sent| && sent[a].signal == signal && sent[b].signal == signal ==>
          sent[a].pgid < sent[b].pgid)
    && (forall g :: WasSent(signal, g, sent) <==>
          SeenAlive(world, mine, look, g) || (g == root && look.fallback))
  }

  /** When the pass that went by `look` begins to wait. */
  ghost function WaitsFrom(world: nat -> Instant, mine: set<Pid>, look: Look): nat {
    look.at + if Answered(world, look.at, mine, look.groups, look.sessions) then 1 else 2
  }

  /** None of the first `rounds` enumerations, each after a poll, was answered and empty. */
  ghost predicate WaitedOut(world: nat -> Instant, mine: set<Pid>, from: nat, rounds: nat, groups: set<Pid>,
      sessions: map<Pid, Pid>) {
    forall k :: 0 <= k < rounds ==> !RoundIsEmpty(world, mine, from, k, groups, sessions)
  }

  ghost predicate RoundIsEmpty(world: nat -> Instant, mine: set<Pid>, from: nat, k: nat, groups: set<Pid>,
      sessions: map<Pid, Pid>) {
    SeenEmpty(world, from + 2 * k + 1, mine, groups, sessions)
  }

  /** The pass that went by `look` saw something to signal, waited its time out in vain, and
      was over at `to`. */
  ghost predicate InVain(world: nat -> Instant, mine: set<Pid>, look: Look, patience: nat, to: nat) {
    && !SeenEmpty(world, look.at, mine, look.groups, look.sessions)
    && to == WaitsFrom(world, mine, look) + 2 * patience
    && WaitedOut(world, mine, WaitsFrom(world, mine, look), patience, look.groups, look.sessions)
  }

  ghost predicate WasSent(signal: Signal, g: Pid, sent: seq<Sent>) {
    exists k :: 0 <= k < |sent| && sent[k].signal == signal && sent[k].pgid == g
  }

  ghost predicate NoneSent(signal: Signal, sent: seq<Sent>) {
    forall k :: 0 <= k < |sent| ==> sent[k].signal != signal
  }

  /** The tree was read at each of `readings`, and `groups` is what was found then: the
      root's own group and exactly the groups of the listed trees. */
  ghost predicate Discovered(world: nat -> Instant, root: Pid, mine: set<Pid>, ownGroup: Pid, readings: set<nat>,
      groups: set<Pid>) {
    forall g :: g in groups <==> g == root || exists t :: t in readings && ListedGroup(world(t), root, mine, ownGroup, g)
  }

  ghost predicate ListedGroup(instant: Instant, root: Pid, mine: set<Pid>, ownGroup: Pid, g: Pid) {
    instant.listing.Some? && TreeGroup(instant.listing.value, root, mine, ownGroup, g)
  }

  /** The reading placed process `p` of the tree in group `g` before and after asking for
      its session. */
  ghost predicate Placed(instant: Instant, root: Pid, mine: set<Pid>, ownGroup: Pid, p: Pid, g: Pid) {
    && ListedGroup(instant, root, mine, ownGroup, g)
    && TreePid(instant.listing.value, root, mine, ownGroup, p)
    && p in instant.places && instant.places[p].pgid == instant.places[p].pgidAfter == g
  }

  /** The recorded sessions are the root's own and exactly those the readings could place. */
  ghost predicate SessionsRead(world: nat -> Instant, root: Pid, mine: set<Pid>, ownGroup: Pid, readings: set<nat>,
      sessions: map<Pid, Pid>) {
    && root in sessions && sessions[root] == root
    && (forall g :: g in sessions && g != root ==>
          exists t, p :: t in readings && Placed(world(t), root, mine, ownGroup, p, g)
                         && world(t).places[p].sid == sessions[g])
    && (forall t, p, g :: t in readings && Placed(world(t), root, mine, ownGroup, p, g) ==> g in sessions)
  }

  /** `observe_group_sessions`: a group keeps its first answer, and a new one comes from a
      pid of the tree that was in that group both before and after the question. */
  method ObserveGroupSessions(tree: Tree, sessions: map<Pid, Pid>, places: map<Pid, Place>)
    returns (more: map<Pid, Pid>)
    ensures sessions.Keys <= more.Keys <= sessions.Keys + tree.groups
    ensures forall g :: g in sessions ==> more[g] == sessions[g]
    ensures forall g :: g in more && g !in sessions ==>
              exists p :: IsFirstSteady(tree, places, p, g) && places[p].sid == more[g]
    ensures forall p :: p in tree.pids && Steady(places, p, tree.groups) ==> places[p].pgid in more
  {
    more := sessions;
    var pids := SortedPids(tree.pids);
    for k := 0 to |pids|
      invariant sessions.Keys <= more.Keys <= sessions.Keys + tree.groups
      invariant forall g :: g in sessions ==> more[g] == sessions[g]
      invariant forall g :: g in more && g !in sessions ==>
        exists p :: IsFirstSteady(tree, places, p, g) && places[p].sid == more[g]
      invariant forall i :: 0 <= i < k && Steady(places, pids[i], tree.groups) ==> places[pids[i]].pgid in more
    {
      var pid := pids[k];
      assert pid in pids;
      if pid !in places { continue; }
      var pgid := places[pid].pgid;
      if pgid !in tree.groups || pgid in more { continue; }
      if places[pid].pgidAfter == pgid {
        assert IsFirstSteady(tree, places, pid, pgid) by {
          forall q | q in tree.pids && Steady(places, q, {pgid}) ensures pid <= q {
            var j :| 0 <= j < |pids| && pids[j] == q;
          }
        }
        more := more[pgid := places[pid].sid];
      }
    }
  }

  /** `p` is the first process of the tree that can be placed in group `g`. */
  ghost predicate IsFirstSteady(tree: Tree, places: map<Pid, Place>, p: Pid, g: Pid) {
    && p in tree.pids && Steady(places, p, {g})
    && forall q :: q in tree.pids && Steady(places, q, {g}) ==> p <= q
  }

  /** The pid can be placed in one of `groups`, before and after. */
  predicate Steady(places: map<Pid, Place>, p: Pid, groups: set<Pid>) {
    p in places && places[p].pgid in groups && places[p].pgidAfter == places[p].pgid
  }

  lemma NothingListed(rows: seq<Row>, groups: set<Pid>, scope: Scope, mine: set<Pid>, answer: map<Pid, set<Pid>>)
    requires ListsLive(rows, groups, scope, mine, answer)
    ensures answer == map[] <==> forall r :: r in rows ==> !Counts(r, groups, scope, mine)
    ensures forall g :: g in answer ==> g in groups
  {
    if forall r :: r in rows ==> !Counts(r, groups, scope, mine) {
      assert forall g :: g !in answer;
    }
  }

  /** One run of `stop_active_check` over a changing world. Each question takes one instant. */
  class Stop {
    const root: Pid
    const mine: set<Pid>
    const ownGroup: Pid
    const world: nat -> Instant
    var now: nat
    var reaped: bool
    var groups: set<Pid>
    var sessions: map<Pid, Pid>
    var sent: seq<Sent>
    /** The instants at which the check's tree was read. */
    ghost var readings: set<nat>

    constructor (root: Pid, mine: set<Pid>, ownGroup: Pid, world: nat -> Instant, reaped: bool)
      ensures this.root == root && this.mine == mine && this.ownGroup == ownGroup && this.world == world
      ensures this.reaped == reaped && groups == {root} && sessions == map[root := root] && sent == []
      ensures now == 0 && readings == {}
    {
      this.root, this.mine, this.ownGroup, this.world := root, mine, ownGroup, world;
      this.reaped := reaped;
      now, groups, sessions, sent, readings := 0, {root}, map[root := root], [], {};
    }

    ghost predicate Valid()
      reads this`readings, this`groups, this`sessions, this`now
    {
      && Discovered(world, root, mine, ownGroup, readings, groups)
      && (forall t :: t in readings ==> t < now)
      && SessionsRead(world, root, mine, ownGroup, readings, sessions)
    }

    /** Groups only grow, a group keeps its first session, and the root stays reaped. */
    twostate predicate Advances()
      reads this`readings, this`groups, this`sessions, this`now, this`reaped
    {
      && old(now) <= now
      && old(groups) <= groups
      && old(readings) <= readings
      && (forall t :: t in readings && t !in old(readings) ==> t >= old(now))
      && (forall g :: g in old(sessions) ==> g in sessions && sessions[g] == old(sessions)[g])
      && (old(reaped) ==> reaped)
      && (reaped && !old(reaped) ==> RootGone(world, old(now), now))
    }

    /** `process.poll()`, or a bounded `process.wait`. */
    method Poll() returns (done: bool)
      modifies this`now, this`reaped
      ensures now == old(now) + 1
      ensures done == reaped == (old(reaped) || world(old(now)).rootExited)
    {
      reaped := reaped || world(now).rootExited;
      now := now + 1;
      done := reaped;
    }

    /** Re-derive the groups while the root lives. An unread table adds nothing. */
    method Discover()
      requires Valid()
      modifies this`now, this`groups, this`sessions, this`readings
      ensures Valid() && Advances()
      ensures now == old(now) + 1 && readings == old(readings) + {old(now)}
      ensures forall g :: g in groups <==> g in old(groups) || ListedGroup(world(old(now)), root, mine, ownGroup, g)
    {
      var instant := world(now);
      readings := readings + {now};
      now := now + 1;
      if instant.listing.Some? {
        var tree := CheckProcessTree(instant.listing.value, root, mine, ownGroup);
        groups := groups + tree.groups;
        sessions := ObserveGroupSessions(tree, sessions, instant.places);
      }
    }

    method Enumerate() returns (alive: Option<map<Pid, set<Pid>>>)
      requires Valid()
      modifies this`now
      ensures now == old(now) + 1
      ensures alive.Some? <==> Answered(world, old(now), mine, groups, sessions)
      ensures alive.Some? ==> forall g :: g in alive.value <==>
                g in groups && LiveMemberListed(world, old(now), mine, g, sessions)
      ensures alive == Some(map[]) <==> SeenEmpty(world, old(now), mine, groups, sessions)
    {
      alive := LiveGroups(world(now).listing, groups, PerGroup(sessions), mine);
      assert root in groups;
      if alive.Some? {
        NothingListed(world(now).listing.value, groups, PerGroup(sessions), mine, alive.value);
      }
      now := now + 1;
    }

    /** Signal every target. */
    method SignalAll(targets: set<Pid>, signal: Signal, at: nat)
      modifies this`sent
      ensures |sent| >= |old(sent)| && sent[..|old(sent)|] == old(sent)
      ensures forall k :: |old(sent)| <= k < |sent| ==>
                && sent[k] == Sent(sent[k].pgid, signal, at, sessions, !reaped)
                && sent[k].pgid in targets
      ensures forall j, k :: |old(sent)| <= j < k < |sent| ==> sent[j].pgid < sent[k].pgid
      ensures forall g :: g in targets ==> exists k :: |old(sent)| <= k < |sent| && sent[k].pgid == g
    {
      var ordered := SortedPids(targets);
      ghost var n := |sent|;
      for i := 0 to |ordered|
        invariant |sent| == n + i && sent[..n] == old(sent)
        invariant forall k :: n <= k < n + i ==> sent[k] == Sent(ordered[k - n], signal, at, sessions, !reaped)
      {
        sent := sent + [Sent(ordered[i], signal, at, sessions, !reaped)];
      }
      forall k | n <= k < |sent| ensures sent[k].pgid in targets {
        assert ordered[k - n] in ordered;
      }
      forall g | g in targets ensures exists k :: n <= k < |sent| && sent[k].pgid == g {
        var i :| 0 <= i < |ordered| && ordered[i] == g;
        assert sent[n + i].pgid == g;
      }
    }

    /** A pass went by an enumeration in its course of everything the readings up to then
        had told, the last of them just before it unless a poll had seen the root exit. */
    ghost predicate LooksWell(look: Look, wasReaped: bool) {
      && look.from < look.at
      && (forall t :: t in look.readings ==> t < look.at)
      && Discovered(world, root, mine, ownGroup, look.readings, look.groups)
      && SessionsRead(world, root, mine, ownGroup, look.readings, look.sessions)
      && (look.at - 1 in look.readings || wasReaped || world(look.at - 1).rootExited)
      && (look.fallback ==> !world(look.at + 1).rootExited)
      && (look.fallback ==> !Answered(world, look.at, mine, look.groups, look.sessions))
      && (!look.fallback ==>
            || Answered(world, look.at, mine, look.groups, look.sessions)
            || wasReaped || RootGone(world, look.from, look.at + 2))
    }

    /** The look lies in the past, and what it knew is still known. */
    ghost predicate Recalls(look: Look)
      reads this`readings, this`groups, this`sessions, this`now
    {
      && look.at < now
      && look.readings == (set t | t in readings && t < look.at)
      && look.groups <= groups
      && (forall g :: g in look.sessions ==> g in sessions && sessions[g] == look.sessions[g])
    }

    /** Never sent to a stranger, nor to this push. */
    ghost predicate Harmless(s: Sent) {
      Justified(world, mine, root, s) && (s.pgid != root ==> s.pgid !in {0, 1, ownGroup} + mine)
    }

    /** Every signal is harmless, and SIGTERM comes before SIGKILL. */
    ghost predicate Safe(signals: seq<Sent>) {
      && (forall k :: 0 <= k < |signals| ==> Harmless(signals[k]))
      && (forall a, b :: 0 <= a < b < |signals| && signals[a].signal.SigKill? ==> signals[b].signal.SigKill?)
    }

    ghost predicate SentSafely()
      reads this`sent
    {
      Safe(sent)
    }

    /** One pass: re-derive, signal what is alive, wait up to `patience` polls. */
    method Pass(signal: Signal, patience: nat) returns (drained: bool, ghost look: Look)
      requires Valid() && NoneSent(signal, sent) && SentSafely() && (signal.SigTerm? ==> sent == [])
      modifies this
      ensures Valid() && Advances() && SentSafely()
      ensures |sent| >= |old(sent)| && sent[..|old(sent)|] == old(sent)
      ensures forall k :: |old(sent)| <= k < |sent| ==> sent[k].signal == signal
      ensures look.from == old(now) && LooksWell(look, old(reaped)) && Recalls(look)
      ensures SentBy(world, mine, root, look, signal, sent)
      ensures drained ==> SeenEmpty(world, now - 1, mine, groups, sessions) && now - 1 >= look.at
      ensures !drained ==> InVain(world, mine, look, patience, now)
    {
      var targets, at, empty;
      targets, at, empty, look := Aim();
      if empty {
        assert forall g :: !SeenAlive(world, mine, look, g);
        return true, look;
      }
      SignalTargets(targets, signal, at, look);
      drained := Drain(patience);
    }

    /** The signals of a pass that goes by `look`. */
    method SignalTargets(targets: set<Pid>, signal: Signal, at: nat, ghost look: Look)
      requires Valid() && NoneSent(signal, sent) && SentSafely() && (signal.SigTerm? ==> sent == [])
      requires at == look.at && look.sessions == sessions && look.groups == groups && (look.fallback ==> !reaped)
      requires forall g :: g in targets <==> SeenAlive(world, mine, look, g) || (g == root && look.fallback)
      modifies this`sent
      ensures SentSafely()
      ensures |sent| >= |old(sent)| && sent[..|old(sent)|] == old(sent)
      ensures forall k :: |old(sent)| <= k < |sent| ==> sent[k].signal == signal
      ensures SentBy(world, mine, root, look, signal, sent)
    {
      SignalAll(targets, signal, at);
      SentExactly(targets, look, signal, old(sent));
      KnownAreUnprotected();
      StaysSafe(old(sent));
    }

    lemma StaysSafe(before: seq<Sent>)
      requires Safe(before) && |sent| >= |before| && sent[..|before|] == before
      requires forall k :: |before| <= k < |sent| ==> Harmless(sent[k])
      requires before == [] || forall k :: |before| <= k < |sent| ==> sent[k].signal.SigKill?
      requires forall j, k :: |before| <= j < k < |sent| ==> sent[j].signal == sent[k].signal
      ensures SentSafely()
    {
      assert forall k :: 0 <= k < |before| ==> sent[k] == sent[..|before|][k];
    }

    lemma SentExactly(targets: set<Pid>, look: Look, signal: Signal, before: seq<Sent>)
      requires NoneSent(signal, before) && |sent| >= |before| && sent[..|before|] == before
      requires forall k :: |before| <= k < |sent| ==>
                 && sent[k].signal == signal && sent[k].at == look.at && sent[k].sessions == look.sessions
                 && sent[k].pgid in targets
      requires forall j, k :: |before| <= j < k < |sent| ==> sent[j].pgid < sent[k].pgid
      requires forall g :: g in targets ==> exists k :: |before| <= k < |sent| && sent[k].pgid == g
      requires forall g :: g in targets <==> SeenAlive(world, mine, look, g) || (g == root && look.fallback)
      ensures SentBy(world, mine, root, look, signal, sent)
    {
      assert forall k :: 0 <= k < |before| ==> sent[k] == sent[..|before|][k];
      forall g ensures WasSent(signal, g, sent) <==> g in targets {
        if g in targets {
          var k :| |before| <= k < |sent| && sent[k].pgid == g;
          assert sent[k].signal == signal;
        }
      }
    }

    /** Read the tree once more while the root lives. */
    method Rediscover()
      requires Valid()
      modifies this`now, this`reaped, this`groups, this`sessions, this`readings
      ensures Valid() && Advances() && old(now) < now
      ensures now - 1 in readings || old(reaped) || world(now - 1).rootExited
    {
      var done := Poll();
      if !done { Discover(); }
    }

    /** The groups a pass may signal, and whether there is nothing left to signal. */
    method Aim() returns (targets: set<Pid>, at: nat, empty: bool, ghost look: Look)
      requires Valid()
      modifies this`now, this`reaped, this`groups, this`sessions, this`readings
      ensures Valid() && Advances()
      ensures look.from == old(now) && LooksWell(look, old(reaped)) && Recalls(look)
      ensures look.groups == groups && look.sessions == sessions
      ensures empty <==> SeenEmpty(world, look.at, mine, groups, sessions)
      ensures at == look.at && now == WaitsFrom(world, mine, look)
      ensures look.fallback ==> !reaped
      ensures forall g :: g in targets <==> SeenAlive(world, mine, look, g) || (g == root && look.fallback)
    {
      Rediscover();
      ghost var fallback := false;
      at := now;
      var alive := Enumerate();
      empty, targets := alive == Some(map[]), {};
      if alive.Some? {
        targets := alive.value.Keys;
      } else {
        var done := Poll();
        if !done { targets, fallback := {root}, true; }
      }
      look := Look(old(now), at, readings, groups, sessions, fallback);
    }

    /** Wait for an answered, empty enumeration: up to `patience` times poll and enumerate. */
    method Drain(patience: nat) returns (drained: bool)
      requires Valid()
      modifies this`now, this`reaped
      ensures Valid() && Advances()
      ensures drained ==> now > old(now) && SeenEmpty(world, now - 1, mine, groups, sessions)
      ensures !drained ==>
                now == old(now) + 2 * patience && WaitedOut(world, mine, old(now), patience, groups, sessions)
    {
      for i := 0 to patience
        invariant Valid() && Advances()
        invariant now == old(now) + 2 * i && WaitedOut(world, mine, old(now), i, groups, sessions)
      {
        var _ := Poll();
        var left := Enumerate();
        if left == Some(map[]) { return true; }
      }
      drained := false;
    }

    lemma LaterSent(look: Look, signal: Signal, before: seq<Sent>)
      requires SentBy(world, mine, root, look, signal, before)
      requires |sent| >= |before| && sent[..|before|] == before
      requires forall k :: |before| <= k < |sent| ==> sent[k].signal != signal
      ensures SentBy(world, mine, root, look, signal, sent)
    {
      assert forall k :: 0 <= k < |before| ==> sent[k] == sent[..|before|][k];
      forall g ensures WasSent(signal, g, sent) <==> WasSent(signal, g, before) {
        if k :| 0 <= k < |before| && before[k].signal == signal && before[k].pgid == g {
          assert sent[k] == before[k];
        }
      }
    }

    /** The SIGKILL pass leaves what the SIGTERM pass saw and sent as it was. */
    method KillPass(patience: nat, ghost termLook: Look) returns (ghost look: Look)
      requires Valid() && NoneSent(SigKill, sent)
      requires Recalls(termLook) && SentBy(world, mine, root, termLook, SigTerm, sent) && SentSafely()
      modifies this
      ensures Valid() && Advances()
      ensures look.from == old(now) && LooksWell(look, old(reaped)) && Recalls(look)
      ensures Recalls(termLook) && SentBy(world, mine, root, termLook, SigTerm, sent)
      ensures SentBy(world, mine, root, look, SigKill, sent) && SentSafely()
    {
      var drained;
      drained, look := Pass(SigKill, patience);
      LaterSent(termLook, SigTerm, old(sent));
    }

    lemma KnownAreUnprotected()
      requires Valid()
      ensures forall g :: g in groups && g != root ==> g !in {0, 1, ownGroup} + mine
    {}

    /** A check whose root was found running just before instant `start` has been stopped. */
    ghost predicate Stopped(start: nat, patience: nat, termLook: Look, killLook: Option<Look>)
      reads this`readings, this`groups, this`sessions, this`now, this`sent
    {
      // every group known is the root's or was read off a tree, and so is its session; the
      // tree is read first of all, and again right before each look while the root lives
      && start in readings
      && Discovered(world, root, mine, ownGroup, readings, groups)
      && SessionsRead(world, root, mine, ownGroup, readings, sessions)
      && termLook.from == start + 1 && LooksWell(termLook, false) && Recalls(termLook)
      // SIGTERM went to exactly the groups the first look saw alive, SIGKILL to exactly those
      // the second did; there is a second look only after waiting the first pass out in vain,
      // and none only when everything known had drained
      && SentBy(world, mine, root, termLook, SigTerm, sent)
      && (killLook.Some? ==>
            && InVain(world, mine, termLook, patience, killLook.value.from)
            && LooksWell(killLook.value, RootGone(world, start, killLook.value.from)) && Recalls(killLook.value)
            && SentBy(world, mine, root, killLook.value, SigKill, sent))
      && (killLook.None? ==>
            && NoneSent(SigKill, sent)
            && exists at :: termLook.at <= at < now && SeenEmpty(world, at, mine, groups, sessions))
    }

    /** Discovery, then the SIGTERM pass and, unless that drains everything known, the
        SIGKILL pass. */
    method SignalPasses(patience: nat) returns (ghost termLook: Look, ghost killLook: Option<Look>)
      requires Valid() && sent == [] && !reaped
      modifies this
      ensures Valid() && now > old(now)
      ensures Stopped(old(now), patience, termLook, killLook) && SentSafely()
    {
      var drained;
      drained, termLook := TermPass(patience);
      killLook := None;
      if drained {
        TermSufficed(old(now), patience, termLook);
      } else {
        ghost var gone := reaped;
        ghost var look := KillPass(patience, termLook);
        killLook := Some(look);
        KillFollowed(old(now), patience, termLook, look, gone);
      }
    }

    /** Discovery and the SIGTERM pass. */
    method TermPass(patience: nat) returns (drained: bool, ghost look: Look)
      requires Valid() && sent == [] && !reaped
      modifies this
      ensures Valid() && now > old(now) && old(now) in readings && SentSafely()
      ensures reaped ==> RootGone(world, old(now), now)
      ensures look.from == old(now) + 1 && LooksWell(look, false) && Recalls(look)
      ensures SentBy(world, mine, root, look, SigTerm, sent) && NoneSent(SigKill, sent)
      ensures if drained then SeenEmpty(world, now - 1, mine, groups, sessions) && now - 1 >= look.at
              else InVain(world, mine, look, patience, now)
    {
      Discover();
      drained, look := Pass(SigTerm, patience);
    }

    lemma TermSufficed(start: nat, patience: nat, termLook: Look)
      requires Valid() && start in readings && termLook.from == start + 1
      requires LooksWell(termLook, false) && Recalls(termLook)
      requires SentBy(world, mine, root, termLook, SigTerm, sent) && NoneSent(SigKill, sent)
      requires termLook.at < now && SeenEmpty(world, now - 1, mine, groups, sessions)
      ensures Stopped(start, patience, termLook, None)
    {}

    lemma KillFollowed(start: nat, patience: nat, termLook: Look, look: Look, gone: bool)
      requires Valid() && start in readings && termLook.from == start + 1
      requires LooksWell(termLook, false) && Recalls(termLook) && Recalls(look)
      requires SentBy(world, mine, root, termLook, SigTerm, sent) && SentBy(world, mine, root, look, SigKill, sent)
      requires LooksWell(look, gone) && (gone ==> RootGone(world, start, look.from))
      requires InVain(world, mine, termLook, patience, look.from)
      ensures Stopped(start, patience, termLook, Some(look))
    {}

    /** `stop_active_check`. Returns the groups it could not prove are gone, each with the
        session it was observed in. */
    method StopCheck(patience: nat)
      returns (unaccounted: map<Pid, Pid>, ghost termLook: Option<Look>, ghost killLook: Option<Look>)
      requires sent == [] && groups == {root} && sessions == map[root := root] && readings == {}
      modifies this
      ensures now > old(now)
      // a root already gone is left alone
      ensures termLook.None? <==> old(reaped) || world(old(now)).rootExited
      ensures termLook.None? ==> sent == [] && unaccounted == map[]
      ensures termLook.Some? ==> Stopped(old(now) + 1, patience, termLook.value, killLook)
      ensures SentSafely()
      ensures termLook.Some? ==> Accounts(unaccounted)
    {
      var done := Poll();
      termLook, killLook := None, None;
      if done { return map[], None, None; }
      ghost var look;
      unaccounted, look, killLook := StopRunning(patience);
      termLook := Some(look);
    }

    /** Everything after the first poll found the root running. */
    method StopRunning(patience: nat)
      returns (unaccounted: map<Pid, Pid>, ghost termLook: Look, ghost killLook: Option<Look>)
      requires Valid() && sent == [] && !reaped
      modifies this
      ensures now > old(now)
      ensures Stopped(old(now), patience, termLook, killLook) && SentSafely()
      ensures Accounts(unaccounted)
    {
      termLook, killLook := SignalPasses(patience);
      unaccounted := Leftover();
    }

    /** What is left over is every known group a last enumeration still saw alive, or all of
        them when it went unanswered, each under its recorded session; nothing is left over
        exactly when that enumeration was answered and empty. */
    ghost predicate Accounts(unaccounted: map<Pid, Pid>)
      reads this`groups, this`sessions, this`now
    {
      && now > 0
      && (forall g :: g in unaccounted <==>
            g in groups && (Answered(world, now - 1, mine, groups, sessions) ==>
                              LiveMemberListed(world, now - 1, mine, g, sessions)))
      && (forall g :: g in unaccounted ==>
            unaccounted[g] == if g in sessions then sessions[g] else root)
      && (unaccounted == map[] <==> SeenEmpty(world, now - 1, mine, groups, sessions))
    }

    /** The last poll and enumeration. */
    method Leftover() returns (unaccounted: map<Pid, Pid>)
      requires Valid()
      modifies this`now, this`reaped
      ensures now == old(now) + 2
      ensures Accounts(unaccounted)
    {
      var _ := Poll();
      var remaining := Enumerate();
      if remaining == Some(map[]) { return map[]; }
      var left := if remaining.None? then groups else remaining.value.Keys;
      unaccounted := map g | g in left :: if g in sessions then sessions[g] else root;
      assert root in groups;
    }
  }
}
