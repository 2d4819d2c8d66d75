/** Whole runs of the range tracker: what every sequence of calls keeps. */
module TrackerRuns {
  import opened Machine
  import opened Ranges
  import opened RangeTracker

  datatype Call =
    | Reset
    | Arrived(start: UInt64, count: UInt64)
    | Dropped(start: UInt64, count: UInt64)
    | Ask(query: Query)

  /** One call of a run: the pending list it found, the requests it returned, the pending
      list it left. */
  datatype Moment = Moment(
    before: seq<PendingWindow>, call: Call, requests: seq<Request>, after: seq<PendingWindow>)

  ghost predicate ValidMoment(m: Moment) {
    match m.call
    case Reset => m.after == [] && m.requests == []
    case Arrived(start, count) => m.after == Clear(m.before, start, count) && m.requests == []
    case Dropped(start, count) => m.after == Clear(m.before, start, count) && m.requests == []
    case Ask(q) => (m.after, m.requests) == Respond(m.before, q)
  }

  /** A run of a new tracker, whatever the calls. */
  ghost predicate ValidRun(run: seq<Moment>) {
    && (forall k :: 0 <= k < |run| ==> ValidMoment(run[k]))
    && (run != [] ==> run[0].before == [])
    && (forall k :: 0 < k < |run| ==> run[k].before == run[k - 1].after)
  }

  /** The call was an `Ask` at time `at` that returned a request holding `i`. */
  predicate Emits(m: Moment, i: int, at: UInt64) {
    && m.call.Ask?
    && m.call.query.now == at
    && exists r :: r in m.requests && InRequest(i, r)
  }

  /** `x` is in an arrived or dropped range, if that range is one. */
  predicate InArrival(x: int, start: UInt64, count: UInt64) {
    ExclusiveRange(start, count).Some? && In(x, ExclusiveRange(start, count).value)
  }

  /** A call after which index `i`, requested at `at`, is no longer waited for. */
  predicate Forgets(call: Call, i: int, at: UInt64) {
    match call
    case Reset => true
    case Arrived(start, count) => InArrival(i, start, count)
    case Dropped(start, count) => InArrival(i, start, count)
    case Ask(q) => q.Window().None? || WrappingSub(q.now, at) >= 2_000_000_000
  }

  /** `i` was requested at `at` by call `k`, and no later call forgets it. */
  ghost predicate Outstanding(run: seq<Moment>, k: int, i: int, at: UInt64) {
    && 0 <= k < |run|
    && Emits(run[k], i, at)
    && forall j :: k < j < |run| ==> !Forgets(run[j].call, i, at)
  }

  // ---- Exactly what is in flight ----

  /** The call removes `x` from what is waited for, whenever it was requested. */
  predicate Clears(call: Call, x: int) {
    match call
    case Reset => true
    case Arrived(start, count) => InArrival(x, start, count)
    case Dropped(start, count) => InArrival(x, start, count)
    case Ask(_) => false
  }

  /** `x` was requested by call `k` and not cleared by any call after it and before `n`. */
  ghost predicate Intact(run: seq<Moment>, k: int, n: int, x: int, at: UInt64) {
    && 0 <= k < n <= |run|
    && Emits(run[k], x, at)
    && forall j :: k < j < n ==> !Clears(run[j].call, x)
  }

  /** Every index from `i` to `x` is intact. */
  ghost predicate Linked(run: seq<Moment>, k: int, n: int, i: int, x: int, at: UInt64) {
    forall y :: Between(i, y, x) ==> Intact(run, k, n, y, at)
  }

  /** If call `j` is an `Ask`, its window reaches `i` through indices still intact. */
  ghost predicate Reached(run: seq<Moment>, k: int, j: int, i: int, at: UInt64)
    requires 0 <= j < |run|
  {
    run[j].call.Ask? ==>
      && run[j].call.query.Window().Some?
      && exists x :: In(x, run[j].call.query.Window().value) && Linked(run, k, j, i, x, at)
  }

  /** `i` was requested by call `k` at `at`, and each call since and before `n` kept it. */
  ghost predicate Stands(run: seq<Moment>, k: int, n: int, i: int, at: UInt64) {
    && 0 <= k < n <= |run|
    && Emits(run[k], i, at)
    && forall j :: k < j < n ==> !Forgets(run[j].call, i, at) && Reached(run, k, j, i, at)
  }

  /** A call keeps the window around `i` if it does not forget `i` and, being an `Ask`, its
      window overlaps it. */
  lemma MomentKeeps(m: Moment, w: PendingWindow, i: int) returns (kept: PendingWindow)
    requires ValidMoment(m) && w in m.before && In(i, w.range) && !Forgets(m.call, i, w.issuedAt)
    requires m.call.Ask? ==> Overlaps(w.range, m.call.query.Window().value)
    ensures kept in m.after && kept.issuedAt == w.issuedAt && In(i, kept.range)
    ensures forall x :: (forall y :: Between(i, y, x) ==> In(y, w.range) && !Clears(m.call, y)) ==> In(x, kept.range)
  {
    kept := w;
    match m.call
    case Arrived(start, count) => kept := ClearKeeps(m.before, start, count, w, i);
    case Dropped(start, count) => kept := ClearKeeps(m.before, start, count, w, i);
    case Ask(q) => assert w in StillPending(m.before, q);
  }

  lemma ClearKeeps(pending: seq<PendingWindow>, start: UInt64, count: UInt64, w: PendingWindow, i: int)
      returns (kept: PendingWindow)
    requires w in pending && In(i, w.range)
    requires !InArrival(i, start, count)
    ensures kept in Clear(pending, start, count) && kept.issuedAt == w.issuedAt && In(i, kept.range)
    ensures forall x :: (forall y :: Between(i, y, x) ==> In(y, w.range) && !InArrival(y, start, count)) ==>
              In(x, kept.range)
  {
    kept := w;
    var r := ExclusiveRange(start, count);
    if r.Some? {
      kept := PieceAround(pending, r.value, w, i);
      assert forall y :: InArrival(y, start, count) <==> In(y, r.value);
    } else {
      forall x | forall y :: Between(i, y, x) ==> In(y, w.range) ensures In(x, w.range) {
        assert Between(i, x, x);
      }
    }
  }

  /** A window left by a call was left by the one before and is clear of this call, or was
      requested by it. */
  lemma WindowComesFrom(m: Moment, w: PendingWindow) returns (parent: PendingWindow)
    requires ValidMoment(m) && w in m.after
    ensures parent.issuedAt == w.issuedAt
    ensures || (forall x :: In(x, w.range) ==> Emits(m, x, w.issuedAt))
            || (&& parent in m.before
                && (forall x :: In(x, w.range) ==> In(x, parent.range) && !Forgets(m.call, x, w.issuedAt))
                && (m.call.Ask? ==> m.call.query.Window().Some? && parent == w
                                    && Overlaps(w.range, m.call.query.Window().value)))
  {
    parent := w;
    match m.call
    case Reset =>
    case Arrived(start, count) => parent := ClearedFrom(m.before, start, count, w);
    case Dropped(start, count) => parent := ClearedFrom(m.before, start, count, w);
    case Ask(q) =>
      if w in StillPending(m.before, q) {
        assert w in m.before && !Stale(w, q.now);
      } else {
        assert forall x :: In(x, w.range) ==> InRequest(x, m.requests[0]);
      }
  }

  lemma ClearedFrom(pending: seq<PendingWindow>, start: UInt64, count: UInt64, w: PendingWindow)
      returns (parent: PendingWindow)
    requires w in Clear(pending, start, count)
    ensures parent in pending && parent.issuedAt == w.issuedAt
    ensures forall x :: In(x, w.range) ==> In(x, parent.range) && !InArrival(x, start, count)
  {
    parent := w;
    var r := ExclusiveRange(start, count);
    if r.Some? { parent := PieceHasParent(pending, r.value, w); }
  }

  /** Everything in a pending window stands. */
  lemma {:induction false} WindowStands(run: seq<Moment>, n: nat, w: PendingWindow) returns (k: int)
    requires ValidRun(run) && n < |run| && w in run[n].after
    ensures forall i :: In(i, w.range) ==> Stands(run, k, n + 1, i, w.issuedAt)
    decreases n
  {
    var at := w.issuedAt;
    var parent := WindowComesFrom(run[n], w);
    if forall x :: In(x, w.range) ==> Emits(run[n], x, at) {
      k := n;
    } else {
      k := WindowStands(run, n - 1, parent);
      forall i | In(i, w.range) ensures Stands(run, k, n + 1, i, at) {
        StandsOn(run, k, n, i, parent);
      }
    }
  }

  lemma StandsOn(run: seq<Moment>, k: int, n: nat, i: int, w: PendingWindow)
    requires n < |run| && In(i, w.range) && !Forgets(run[n].call, i, w.issuedAt)
    requires forall x :: In(x, w.range) ==> Stands(run, k, n, x, w.issuedAt)
    requires run[n].call.Ask? ==>
               run[n].call.query.Window().Some? && Overlaps(w.range, run[n].call.query.Window().value)
    ensures Stands(run, k, n + 1, i, w.issuedAt)
  {
    assert Stands(run, k, n, i, w.issuedAt);
    ReachedInside(run, k, n, i, w);
  }

  lemma ReachedInside(run: seq<Moment>, k: int, n: nat, i: int, w: PendingWindow)
    requires n < |run| && In(i, w.range)
    requires forall x :: In(x, w.range) ==> Stands(run, k, n, x, w.issuedAt)
    requires run[n].call.Ask? ==>
               run[n].call.query.Window().Some? && Overlaps(w.range, run[n].call.query.Window().value)
    ensures Reached(run, k, n, i, w.issuedAt)
  {
    if run[n].call.Ask? {
      var window := run[n].call.query.Window().value;
      var x := Max(w.range.lo, window.lo);
      assert In(x, window);
      forall y | Between(i, y, x) ensures Intact(run, k, n, y, w.issuedAt) {
        StandingIsIntact(run, k, n, y, w.issuedAt);
      }
    }
  }

  lemma StandingIsIntact(run: seq<Moment>, k: int, n: int, x: int, at: UInt64)
    requires Stands(run, k, n, x, at)
    ensures Intact(run, k, n, x, at)
  {
    forall j | k < j < n ensures !Clears(run[j].call, x) {
      assert !Forgets(run[j].call, x, at);
    }
  }

  lemma LinkedBefore(run: seq<Moment>, k: int, n: nat, i: int, x: int, at: UInt64)
    requires k < n && Linked(run, k, n + 1, i, x, at)
    ensures forall y :: Between(i, y, x) ==> Linked(run, k, n, i, y, at) && !Clears(run[n].call, y)
  {
    assert Between(i, x, x) && Intact(run, k, n + 1, x, at);
    forall y | Between(i, y, x) ensures Linked(run, k, n, i, y, at) && !Clears(run[n].call, y) {
      assert Intact(run, k, n + 1, y, at);
      forall z | Between(i, z, y) ensures Intact(run, k, n, z, at) {
        assert Between(i, z, x) && Intact(run, k, n + 1, z, at);
      }
    }
  }

  /** What stands is in a pending window, together with everything linked to it. */
  lemma {:induction false} StandingIsInFlight(run: seq<Moment>, k: int, n: nat, i: int, at: UInt64)
      returns (w: PendingWindow)
    requires ValidRun(run) && Stands(run, k, n + 1, i, at)
    ensures w in run[n].after && In(i, w.range) && w.issuedAt == at
    ensures forall x :: Linked(run, k, n + 1, i, x, at) ==> In(x, w.range)
    decreases n
  {
    if n == k {
      w := EmittedIsInFlight(run[n], i, at);
      forall x | Linked(run, k, n + 1, i, x, at) ensures In(x, w.range) {
        assert Between(i, x, x) && Intact(run, k, n + 1, x, at);
      }
    } else {
      assert Stands(run, k, n, i, at);
      var before := StandingIsInFlight(run, k, n - 1, i, at);
      assert !Forgets(run[n].call, i, at) && Reached(run, k, n, i, at);
      if run[n].call.Ask? {
        var x :| In(x, run[n].call.query.Window().value) && Linked(run, k, n, i, x, at);
        assert In(x, before.range);
      }
      w := MomentKeeps(run[n], before, i);
      forall x | Linked(run, k, n + 1, i, x, at) ensures In(x, w.range) {
        LinkedBefore(run, k, n, i, x, at);
      }
    }
  }

  lemma EmittedIsInFlight(m: Moment, i: int, at: UInt64) returns (w: PendingWindow)
    requires ValidMoment(m) && Emits(m, i, at)
    ensures w in m.after && In(i, w.range) && w.issuedAt == at
    ensures forall x :: Emits(m, x, at) ==> In(x, w.range)
  {
    w := m.after[|m.after| - 1];
  }

  /** In every run, an index is in flight with issue time `at` exactly when some call emitted
      it at that time and every call since has kept it: it has not arrived, been dropped,
      been reset or outlived the TTL, and the window of each later `requests` call reached
      it through indices of the same request that were still awaited. */
  lemma InFlightExactly(run: seq<Moment>, i: int, at: UInt64)
    requires ValidRun(run) && run != []
    ensures InFlightSince(i, at, run[|run| - 1].after) <==> exists k :: Stands(run, k, |run|, i, at)
  {
    var n := |run| - 1;
    if InFlightSince(i, at, run[n].after) {
      var w :| w in run[n].after && In(i, w.range) && w.issuedAt == at;
      var k := WindowStands(run, n, w);
    }
    if k :| Stands(run, k, |run|, i, at) {
      var w := StandingIsInFlight(run, k, n, i, at);
    }
  }

  /** In every run, an index in flight belongs to a request emitted at exactly the issue
      time its window carries, and has not since arrived, been dropped, been reset or
      outlived the TTL at a later call. */
  lemma InFlightIsOutstanding(run: seq<Moment>, i: int, at: UInt64) returns (k: int)
    requires ValidRun(run) && run != []
    requires InFlightSince(i, at, run[|run| - 1].after)
    ensures Outstanding(run, k, i, at)
  {
    InFlightExactly(run, i, at);
    k :| Stands(run, k, |run|, i, at);
  }

  /** Issue times read off a monotonic clock. */
  ghost predicate MonotoneClock(run: seq<Moment>) {
    forall a, b :: 0 <= a < b < |run| && run[a].call.Ask? && run[b].call.Ask? ==>
      run[a].call.query.now <= run[b].call.query.now
  }

  /** No index starves: right after any `requests` call of any run on a monotonic clock,
      each index of the window is cached or held by a request emitted less than one TTL
      before, which has not since arrived, been dropped or been reset. */
  lemma NoIndexStarves(run: seq<Moment>, i: int) returns (k: int)
    requires ValidRun(run) && MonotoneClock(run)
    requires run != [] && run[|run| - 1].call.Ask?
    requires var q := run[|run| - 1].call.query;
             q.Window().Some? && In(i, q.Window().value) && !Cached(i, q)
    ensures 0 <= k < |run| && run[k].call.Ask?
    ensures Outstanding(run, k, i, run[k].call.query.now)
    ensures 0 <= run[|run| - 1].call.query.now - run[k].call.query.now < 2_000_000_000
  {
    var n := |run| - 1;
    var w := FreshCover(run[n], i);
    k := InFlightIsOutstanding(run, i, w.issuedAt);
    StaleExactly(w, run[n].call.query.now);
  }

  lemma FreshCover(m: Moment, i: int) returns (w: PendingWindow)
    requires ValidMoment(m) && m.call.Ask?
    requires m.call.query.Window().Some? && In(i, m.call.query.Window().value) && !Cached(i, m.call.query)
    ensures w in m.after && In(i, w.range) && !Stale(w, m.call.query.now)
    ensures InFlightSince(i, w.issuedAt, m.after)
  {
    var q := m.call.query;
    RespondIsLeastHull(m.before, q);
    NothingStaleAfterRespond(m.before, q);
    w :| w in m.after && In(i, w.range);
  }

  /** On a monotonic clock the wrapping subtraction never wraps; a window stamped later
      than `now` would count as expired at once. */
  lemma StaleExactly(w: PendingWindow, now: UInt64)
    ensures w.issuedAt <= now ==> (Stale(w, now) <==> now - w.issuedAt >= 2_000_000_000)
    ensures now < w.issuedAt <= now + (TWO_TO_THE_64 - 2_000_000_000) ==> Stale(w, now)
  {
    assert now < w.issuedAt ==> WrappingSub(now, w.issuedAt) == now - w.issuedAt + TWO_TO_THE_64;
    assert now >= w.issuedAt ==> WrappingSub(now, w.issuedAt) == now - w.issuedAt;
  }
}
