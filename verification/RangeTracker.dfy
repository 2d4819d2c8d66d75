/** Tracks in-flight cache-miss requests for one sparse collection. */
module RangeTracker {
  import opened Machine
  import opened Ranges

  const PAGE_SIZE: UInt64 := 128
  const PREFETCH_MARGIN: UInt64 := 32
  const PENDING_TTL: UInt64 := 2_000_000_000

  datatype Option<+T> = None | Some(value: T)

  // ---- UInt64 arithmetic as the source uses it ----

  function SaturatingAdd(a: UInt64, b: UInt64): UInt64 {
    if a + b > UINT64_MAX then UINT64_MAX else a + b
  }

  function WrappingSub(a: UInt64, b: UInt64): UInt64 {
    (a - b) % TWO_TO_THE_64
  }

  function AlignDown(value: UInt64, page: UInt64): UInt64 {
    if page == 0 then value
    else
      assert value / page * page <= value by { DivisionFloor(value, page); }
      value / page * page
  }

  function AlignUp(value: UInt64, page: UInt64): UInt64 {
    if page == 0 then value
    else if value % page == 0 then value
    else SaturatingAdd(value, page - value % page)
  }

  lemma DivisionFloor(value: nat, page: nat)
    requires page > 0
    ensures 0 <= value / page * page <= value
  {
    assert value == value / page * page + value % page;
  }

  function ExclusiveRange(start: UInt64, count: UInt64): Option<Range> {
    if count == 0 || start + count > UINT64_MAX then None
    else Some(Span(start, start + count))
  }

  // ---- The aligned window ----

  function AlignedWindow(visibleStart: UInt64, visibleCount: UInt64, itemCount: UInt64): Option<Range> {
    if itemCount == 0 || visibleCount == 0 then None
    else
      var visibleEnd := Min(itemCount, SaturatingAdd(visibleStart, visibleCount));
      var prefetchStart := if visibleStart > PREFETCH_MARGIN then visibleStart - PREFETCH_MARGIN else 0;
      var prefetchEnd := Min(itemCount, SaturatingAdd(visibleEnd, PREFETCH_MARGIN));
      var start := AlignDown(prefetchStart, PAGE_SIZE);
      var end := Min(AlignUp(prefetchEnd, PAGE_SIZE), itemCount);
      if start >= end then None else Some(Span(start, end))
  }

  predicate Visible(i: int, visibleStart: UInt64, visibleCount: UInt64) {
    visibleStart <= i < visibleStart + visibleCount
  }

  /** For all inputs, saturating ones included: a window lies among the items, holds every
      visible item and every item within the margin of one, starts on the last page boundary
      not past the first of those, ends on the first page boundary not before the last or at
      the last item, and is at most 318 wider than the viewport. There is none exactly when
      there is nothing to show or the first page to prefetch begins past the items. */
  lemma AlignedWindowIsSound(visibleStart: UInt64, visibleCount: UInt64, itemCount: UInt64)
    ensures match AlignedWindow(visibleStart, visibleCount, itemCount)
            case Some(w) =>
              && 0 <= w.lo < w.hi <= itemCount
              && (forall i :: Visible(i, visibleStart, visibleCount) && i < itemCount ==> In(i, w))
              && (forall i :: NearVisible(i, visibleStart, visibleCount) && 0 <= i < itemCount ==> In(i, w))
              && w.lo % 128 == 0
              && w.lo + 128 > Max(visibleStart - 32, 0)
              && (w.hi % 128 == 0 || w.hi == itemCount)
              && w.hi - 128 < visibleStart + visibleCount + 32
              && w.hi - w.lo <= visibleCount + 318
            case None =>
              forall i :: Visible(i, visibleStart, visibleCount) ==> i >= itemCount
    ensures AlignedWindow(visibleStart, visibleCount, itemCount).None? <==>
              || itemCount == 0 || visibleCount == 0
              || (visibleStart > 32
                  && (visibleStart - 32) / 128 * 128 >= itemCount)
  {}

  predicate NearVisible(i: int, visibleStart: UInt64, visibleCount: UInt64) {
    visibleStart - 32 <= i < visibleStart + visibleCount + 32
  }

  // ---- Pending windows ----

  datatype PendingWindow = PendingWindow(range: Range, issuedAt: UInt64)

  /** A cached stretch of the model, as `cachedRanges` lists it. */
  datatype Stretch = Stretch(start: UInt64, length: UInt64)

  datatype Request = Request(startIndex: UInt64, count: UInt64)

  datatype Query = Query(
    visibleStart: UInt64, visibleCount: UInt64, itemCount: UInt64, cached: seq<Stretch>, now: UInt64)
  {
    function Window(): Option<Range> { AlignedWindow(visibleStart, visibleCount, itemCount) }
  }

  predicate Stale(w: PendingWindow, now: UInt64) {
    WrappingSub(now, w.issuedAt) >= PENDING_TTL
  }

  function Filter<T(!new)>(s: seq<T>, keep: T -> bool): (r: seq<T>)
    ensures forall x :: x in r <==> x in s && keep(x)
    ensures (forall x :: x in s ==> keep(x)) ==> r == s
  {
    if s == [] then []
    else
      var rest := Filter(s[..|s| - 1], keep);
      var last := s[|s| - 1];
      assert s == s[..|s| - 1] + [last];
      if keep(last) then rest + [last] else rest
  }

  function RangesOf(pending: seq<PendingWindow>): seq<Range> {
    seq(|pending|, k requires 0 <= k < |pending| => pending[k].range)
  }

  function CachedRanges(cached: seq<Stretch>): seq<Range> {
    if cached == [] then []
    else
      var init := CachedRanges(cached[..|cached| - 1]);
      match ExclusiveRange(cached[|cached| - 1].start, cached[|cached| - 1].length)
      case None => init
      case Some(r) => init + [r]
  }

  predicate Cached(i: int, q: Query) { Covered(i, CachedRanges(q.cached)) }

  /** `i` is in flight. */
  predicate InFlight(i: int, pending: seq<PendingWindow>) {
    exists w :: w in pending && In(i, w.range)
  }

  // ---- The tracker as functions of its pending list ----

  function Expire(pending: seq<PendingWindow>, now: UInt64): seq<PendingWindow> {
    Filter(pending, (w: PendingWindow) => !Stale(w, now))
  }

  function Retain(pending: seq<PendingWindow>, window: Range): seq<PendingWindow> {
    Filter(pending, (w: PendingWindow) => Overlaps(w.range, window))
  }

  function Stamp(rs: seq<Range>, at: UInt64): seq<PendingWindow> {
    seq(|rs|, k requires 0 <= k < |rs| => PendingWindow(rs[k], at))
  }

  function Without(pending: seq<PendingWindow>, cover: Range): seq<PendingWindow> {
    if pending == [] then []
    else
      var last := pending[|pending| - 1];
      Without(pending[..|pending| - 1], cover) + Stamp(Difference([cover], [last.range]), last.issuedAt)
  }

  lemma WithoutStep(pending: seq<PendingWindow>, k: nat, cover: Range)
    requires k < |pending|
    ensures Without(pending[..k + 1], cover) ==
              Without(pending[..k], cover) + Stamp(Difference([cover], [pending[k].range]), pending[k].issuedAt)
  {
    assert pending[..k + 1][..k] == pending[..k];
  }

  function Clear(pending: seq<PendingWindow>, start: UInt64, count: UInt64): seq<PendingWindow> {
    match ExclusiveRange(start, count)
    case None => pending
    case Some(r) => Without(pending, r)
  }

  /** What `requests` still counts as in flight when it looks for holes. */
  function StillPending(pending: seq<PendingWindow>, q: Query): seq<PendingWindow>
    requires q.Window().Some?
  {
    Retain(Expire(pending, q.now), q.Window().value)
  }

  /** The stretches of `window` that are neither cached nor in `still`. */
  function Holes(still: seq<PendingWindow>, cached: seq<Stretch>, window: Range): seq<Range> {
    Difference(RangesOf(still) + CachedRanges(cached), [window])
  }

  lemma HolesAreExact(still: seq<PendingWindow>, cached: seq<Stretch>, window: Range)
    ensures forall i :: Covered(i, Holes(still, cached, window)) <==>
              In(i, window) && !Covered(i, CachedRanges(cached)) && !InFlight(i, still)
    ensures NonEmpty(Holes(still, cached, window))
    ensures window.lo < window.hi ==> Ordered(Holes(still, cached, window))
  {
    DifferenceIsExact(RangesOf(still) + CachedRanges(cached), [window]);
    forall i
      ensures Covered(i, Holes(still, cached, window)) <==>
              In(i, window) && !Covered(i, CachedRanges(cached)) && !InFlight(i, still)
    {
      CoveredAppend(i, RangesOf(still), CachedRanges(cached));
      InFlightIsCovered(i, still);
      assert Covered(i, [window]) <==> In(i, window) by { assert In(i, [window][0]) <==> In(i, window); }
    }
  }

  /** The hull of ordered pieces starts and ends inside them and holds them all. */
  lemma HullOfOrdered(pieces: seq<Range>)
    requires pieces != [] && Ordered(pieces) && NonEmpty(pieces)
    ensures pieces[0].lo < pieces[|pieces| - 1].hi
    ensures Covered(pieces[0].lo, pieces) && Covered(pieces[|pieces| - 1].hi - 1, pieces)
    ensures forall i :: Covered(i, pieces) ==> pieces[0].lo <= i < pieces[|pieces| - 1].hi
  {
    assert In(pieces[0].lo, pieces[0]);
    assert In(pieces[|pieces| - 1].hi - 1, pieces[|pieces| - 1]);
  }

  lemma InFlightIsCovered(i: int, pending: seq<PendingWindow>)
    ensures Covered(i, RangesOf(pending)) <==> InFlight(i, pending)
  {
    if InFlight(i, pending) {
      var w :| w in pending && In(i, w.range);
      var k :| 0 <= k < |pending| && pending[k] == w;
      assert In(i, RangesOf(pending)[k]);
    }
    if Covered(i, RangesOf(pending)) {
      var k :| 0 <= k < |pending| && In(i, RangesOf(pending)[k]);
      assert pending[k] in pending;
    }
  }

  /** The hull of all holes becomes the one new request and pending window. */
  function Fill(still: seq<PendingWindow>, cached: seq<Stretch>, window: Range, now: UInt64):
      (seq<PendingWindow>, seq<Request>)
    requires window.lo < window.hi
  {
    var holes := Holes(still, cached, window);
    if holes == [] then (still, [])
    else
      HolesAreExact(still, cached, window);
      HullOfOrdered(holes);
      var merged: Range := Span(holes[0].lo, holes[|holes| - 1].hi);
      (still + [PendingWindow(merged, now)], [Request(merged.lo, merged.hi - merged.lo)])
  }

  /** The new pending list and the requests that one `requests` call produces. */
  function Respond(pending: seq<PendingWindow>, q: Query): (seq<PendingWindow>, seq<Request>) {
    if q.Window().None? then ([], [])
    else Fill(StillPending(pending, q), q.cached, q.Window().value, q.now)
  }

  // ---- The tracker ----

  /** The inner loop of `subtractPending`. */
  method AppendStamped(windows: seq<PendingWindow>, leftovers: seq<Range>, at: UInt64)
    returns (next: seq<PendingWindow>)
    ensures next == windows + Stamp(leftovers, at)
  {
    next := windows;
    for l := 0 to |leftovers|
      invariant next == windows + Stamp(leftovers[..l], at)
    {
      next := next + [PendingWindow(leftovers[l], at)];
    }
    assert leftovers[..|leftovers|] == leftovers;
  }

  /** The loop of `requests` over the model's cached ranges. */
  method AppendCached(ranges: seq<Range>, cached: seq<Stretch>) returns (covered: seq<Range>)
    ensures covered == ranges + CachedRanges(cached)
  {
    covered := ranges;
    for c := 0 to |cached|
      invariant covered == ranges + CachedRanges(cached[..c])
    {
      assert cached[..c + 1][..c] == cached[..c];
      var range := ExclusiveRange(cached[c].start, cached[c].length);
      if range.Some? {
        covered := covered + [range.value];
      }
    }
    assert cached[..|cached|] == cached;
  }

  /** The part of `requests` after the pending list has been pruned. */
  method RequestHoles(still: seq<PendingWindow>, cached: seq<Stretch>, window: Range, now: UInt64)
    returns (after: seq<PendingWindow>, requests: seq<Request>)
    requires window.lo < window.hi
    ensures (after, requests) == Fill(still, cached, window, now)
  {
    var covered := AppendCached(RangesOf(still), cached);
    var holes := Subtract(covered, [window]);
    if holes == [] {
      return still, [];
    }
    HolesAreExact(still, cached, window);
    HullOfOrdered(holes);
    var merged: Range := Span(holes[0].lo, holes[|holes| - 1].hi);
    after := still + [PendingWindow(merged, now)];
    var count := merged.hi - merged.lo;
    if count == 0 {
      return after, [];
    }
    return after, [Request(merged.lo, count)];
  }

  /** `CollectionRangeTracker` */
  class CollectionRangeTracker {
    var pending: seq<PendingWindow>

    constructor ()
      ensures pending == []
    {
      pending := [];
    }

    method Reset()
      modifies this
      ensures pending == []
    {
      pending := [];
    }

    method NoteArrived(start: UInt64, count: UInt64)
      modifies this
      ensures pending == Clear(old(pending), start, count)
    {
      var arrived := ExclusiveRange(start, count);
      if arrived.None? { return; }
      SubtractPending(arrived.value);
    }

    method NoteDropped(start: UInt64, count: UInt64)
      modifies this
      ensures pending == Clear(old(pending), start, count)
    {
      var dropped := ExclusiveRange(start, count);
      if dropped.None? { return; }
      SubtractPending(dropped.value);
    }

    method SubtractPending(cover: Range)
      modifies this
      ensures pending == Without(old(pending), cover)
    {
      var next: seq<PendingWindow> := [];
      for k := 0 to |pending|
        invariant pending == old(pending)
        invariant next == Without(pending[..k], cover)
      {
        var window := pending[k];
        var leftovers := Subtract([cover], [window.range]);
        next := AppendStamped(next, leftovers, window.issuedAt);
        WithoutStep(pending, k, cover);
      }
      assert pending[..|pending|] == pending;
      pending := next;
    }

    method ExpireStalePending(now: UInt64)
      modifies this
      ensures pending == Expire(old(pending), now)
    {
      pending := Filter(pending, (w: PendingWindow) => !Stale(w, now));
    }

    /** `requests` */
    method Requests(q: Query) returns (requests: seq<Request>)
      modifies this
      ensures (pending, requests) == Respond(old(pending), q)
    {
      ExpireStalePending(q.now);
      if q.itemCount == 0 || q.visibleCount == 0 {
        pending := [];
        return [];
      }
      var aligned := AlignedWindow(q.visibleStart, q.visibleCount, q.itemCount);
      if aligned.None? {
        pending := [];
        return [];
      }
      var window := aligned.value;
      pending := Filter(pending, (w: PendingWindow) => Overlaps(w.range, window));
      pending, requests := RequestHoles(pending, q.cached, window, q.now);
    }
  }

  // ---- One call ----

  /** Wanted but neither cached nor in flight when `requests` looks. */
  predicate Missing(i: int, pending: seq<PendingWindow>, q: Query)
    requires q.Window().Some?
  {
    In(i, q.Window().value) && !Cached(i, q) && !InFlight(i, StillPending(pending, q))
  }

  predicate InRequest(i: int, r: Request) { r.startIndex <= i < r.startIndex + r.count }

  /** The answer of one call: at most one request, the least interval holding everything
      missing; after it every index of the window is cached or in flight. */
  lemma RespondIsLeastHull(pending: seq<PendingWindow>, q: Query)
    requires q.Window().Some?
    ensures var (after, requests) := Respond(pending, q);
            var window := q.Window().value;
            && (forall i :: In(i, window) ==> Cached(i, q) || InFlight(i, after))
            && (requests == [] <==> forall i :: !Missing(i, pending, q))
            && (requests != [] ==>
                  && |requests| == 1
                  && var r := requests[0];
                  && r.count > 0
                  && window.lo <= r.startIndex && r.startIndex + r.count <= window.hi
                  && (forall i :: Missing(i, pending, q) ==> InRequest(i, r))
                  && Missing(r.startIndex, pending, q)
                  && Missing(r.startIndex + r.count - 1, pending, q))
  {
    var (after, requests) := Respond(pending, q);
    var still, window := StillPending(pending, q), q.Window().value;
    var holes := Holes(still, q.cached, window);
    HolesAreExact(still, q.cached, window);
    assert forall i :: Missing(i, pending, q) <==> Covered(i, holes);
    if holes != [] {
      HullOfOrdered(holes);
      assert Missing(holes[0].lo, pending, q);
      assert Missing(holes[|holes| - 1].hi - 1, pending, q);
      assert after[|after| - 1] in after;
    }
    forall i | In(i, window) ensures Cached(i, q) || InFlight(i, after) {
      if !Cached(i, q) && !Covered(i, holes) {
        var w :| w in still && In(i, w.range);
        assert w in after;
      }
    }
  }

  lemma {:induction false} CachedAreNonEmpty(cached: seq<Stretch>)
    ensures NonEmpty(CachedRanges(cached))
    decreases |cached|
  {
    if cached != [] { CachedAreNonEmpty(cached[..|cached| - 1]); }
  }

  /** An index is cached exactly when a stretch whose end is representable holds it. */
  lemma {:induction false} CachedExactly(i: int, cached: seq<Stretch>)
    ensures Covered(i, CachedRanges(cached)) <==>
              exists s :: s in cached && s.start <= i < s.start + s.length <= UINT64_MAX
    decreases |cached|
  {
    if cached != [] {
      var init, last := cached[..|cached| - 1], cached[|cached| - 1];
      CachedExactly(i, init);
      assert cached == init + [last];
      var range := ExclusiveRange(last.start, last.length);
      if range.Some? {
        CoveredAppend(i, CachedRanges(init), [range.value]);
        assert Covered(i, [range.value]) <==> In(i, range.value)
          by { assert In(i, [range.value][0]) <==> In(i, range.value); }
      }
    }
  }

  lemma HolesAreSeparated(pending: seq<PendingWindow>, q: Query)
    requires q.Window().Some?
    ensures Separated(Holes(StillPending(pending, q), q.cached, q.Window().value))
  {
    var still := StillPending(pending, q);
    forall k | 0 <= k < |still| ensures RangesOf(still)[k].lo < RangesOf(still)[k].hi {
      assert still[k] in still;
    }
    CachedAreNonEmpty(q.cached);
    AlignedWindowIsSound(q.visibleStart, q.visibleCount, q.itemCount);
    DifferenceSeparated(RangesOf(still) + CachedRanges(q.cached), q.Window().value);
  }

  /** A request asks for nothing but missing indices exactly when there is one hole: the
      hull of several also asks again for what lies between them. */
  lemma RequestsOnlyMissingExactly(pending: seq<PendingWindow>, q: Query)
    requires q.Window().Some? && Respond(pending, q).1 != []
    ensures (forall i :: InRequest(i, Respond(pending, q).1[0]) ==> Missing(i, pending, q)) <==>
              |Holes(StillPending(pending, q), q.cached, q.Window().value)| == 1
  {
    var still, window := StillPending(pending, q), q.Window().value;
    var holes, request := Holes(still, q.cached, window), Respond(pending, q).1[0];
    HolesAreExact(still, q.cached, window);
    HolesAreSeparated(pending, q);
    if |holes| == 1 {
      forall i | InRequest(i, request) ensures Missing(i, pending, q) {
        assert In(i, holes[0]);
      }
    } else {
      var gap := holes[0].hi;
      assert !Covered(gap, holes) by {
        assert holes[0].hi < holes[1].lo;
      }
      assert InRequest(gap, request) && !Missing(gap, pending, q);
    }
  }

  /** A query for the first page with items 50 to 59 cached. */
  lemma TwoHoles() returns (q: Query)
    ensures q.Window() == Some(Span(0, 128))
    ensures forall i :: Cached(i, q) <==> 50 <= i < 60
  {
    q := Query(0, 10, 1000, [Stretch(50, 10)], 0);
    assert q.cached[..0] == [];
    assert CachedRanges(q.cached) == [Span(50, 60)];
    forall i ensures Cached(i, q) <==> 50 <= i < 60 {
      assert In(i, CachedRanges(q.cached)[0]) <==> 50 <= i < 60;
    }
  }

  /** At that query the cached items are asked for again. */
  lemma HullAsksForCached() returns (q: Query)
    ensures Respond([], q).1 == [Request(0, 128)] && Cached(55, q)
  {
    q := TwoHoles();
    RespondIsLeastHull([], q);
    assert Missing(0, [], q) && Missing(127, [], q);
  }

  /** Asking again, with the same cache and window and before anything expires, changes
      nothing and requests nothing. */
  lemma RespondIsIdempotent(pending: seq<PendingWindow>, q: Query, again: Query)
    requires again.Window() == q.Window() && again.cached == q.cached
    requires forall w :: w in Respond(pending, q).0 ==> !Stale(w, again.now)
    ensures Respond(Respond(pending, q).0, again) == (Respond(pending, q).0, [])
  {
    if q.Window().Some? {
      var after := Respond(pending, q).0;
      var window := q.Window().value;
      RespondIsLeastHull(pending, q);
      AfterOverlaps(pending, q);
      assert Expire(after, again.now) == after;
      assert StillPending(after, again) == after;
      var holes := Holes(after, again.cached, window);
      HolesAreExact(after, again.cached, window);
      if holes != [] {
        HullOfOrdered(holes);
        assert false;
      }
    }
  }

  lemma AfterOverlaps(pending: seq<PendingWindow>, q: Query)
    requires q.Window().Some?
    ensures forall w :: w in Respond(pending, q).0 ==> Overlaps(w.range, q.Window().value)
  {
    RespondIsLeastHull(pending, q);
    AlignedWindowIsSound(q.visibleStart, q.visibleCount, q.itemCount);
  }

  /** No window left pending by a call is as old as the TTL. */
  lemma NothingStaleAfterRespond(pending: seq<PendingWindow>, q: Query)
    ensures forall w :: w in Respond(pending, q).0 ==> !Stale(w, q.now)
  {}

  /** An uncached index of the window whose covers have all expired is requested again. */
  lemma ExpiredIsRequestedAgain(pending: seq<PendingWindow>, q: Query, i: int)
    requires q.Window().Some? && In(i, q.Window().value) && !Cached(i, q)
    requires forall w :: w in pending && In(i, w.range) ==> Stale(w, q.now)
    ensures |Respond(pending, q).1| == 1 && InRequest(i, Respond(pending, q).1[0])
  {
    RespondIsLeastHull(pending, q);
    assert Missing(i, pending, q);
  }

  // ---- Clearing ----

  lemma {:induction false} WithoutIsExact(pending: seq<PendingWindow>, cover: Range, i: int, at: UInt64)
    ensures (exists w :: w in Without(pending, cover) && In(i, w.range) && w.issuedAt == at) <==>
              !In(i, cover) && exists w :: w in pending && In(i, w.range) && w.issuedAt == at
    decreases |pending|
  {
    if pending != [] {
      var init, last := pending[..|pending| - 1], pending[|pending| - 1];
      var pieces := Difference([cover], [last.range]);
      WithoutIsExact(init, cover, i, at);
      DifferenceIsExact([cover], [last.range]);
      assert Covered(i, [cover]) <==> In(i, cover) by { assert In(i, [cover][0]) <==> In(i, cover); }
      assert Covered(i, [last.range]) <==> In(i, last.range)
        by { assert In(i, [last.range][0]) <==> In(i, last.range); }
      assert pending == init + [last];
      var stamped := Stamp(pieces, last.issuedAt);
      if Covered(i, pieces) {
        var k :| 0 <= k < |pieces| && In(i, pieces[k]);
        assert stamped[k] in stamped && In(i, stamped[k].range);
      }
      if w :| w in stamped && In(i, w.range) {
        var k :| 0 <= k < |stamped| && stamped[k] == w;
        assert In(i, pieces[k]);
      }
    }
  }

  predicate InFlightSince(i: int, at: UInt64, pending: seq<PendingWindow>) {
    exists w :: w in pending && In(i, w.range) && w.issuedAt == at
  }

  /** After an arrival or a drop, nothing of `[start, start + count)` is in flight exactly
      when the end of the range is representable or nothing of it was in flight anyway:
      a range ending past the last `UInt64` is ignored. */
  lemma ClearIsExact(pending: seq<PendingWindow>, start: UInt64, count: UInt64)
    ensures (forall i :: start <= i < start + count ==> !InFlight(i, Clear(pending, start, count))) <==>
              || start + count <= UINT64_MAX
              || forall i :: start <= i < start + count ==> !InFlight(i, pending)
  {
    if start + count <= UINT64_MAX && count > 0 {
      var r: Range := Span(start, start + count);
      forall i | start <= i < start + count ensures !InFlight(i, Clear(pending, start, count)) {
        if InFlight(i, Clear(pending, start, count)) {
          var w :| w in Without(pending, r) && In(i, w.range);
          WithoutIsExact(pending, r, i, w.issuedAt);
          assert false;
        }
      }
    } else {
      assert Clear(pending, start, count) == pending;
    }
  }

  /** One such range: an arrival that ends past the last `UInt64` clears nothing. */
  lemma OverflowingArrivalIsIgnored(pending: seq<PendingWindow>)
    ensures Clear(pending, UINT64_MAX, 1) == pending
    ensures InFlight(UINT64_MAX - 1, Clear([PendingWindow(Span(0, UINT64_MAX), 0)], UINT64_MAX - 1, 2))
  {
    var window := PendingWindow(Span(0, UINT64_MAX), 0);
    assert window in [window] && In(UINT64_MAX - 1, window.range);
  }

  // ---- Pieces of a cleared window ----

  predicate Between(i: int, y: int, x: int) { Min(i, x) <= y <= Max(i, x) }

  lemma EdgesAreUncovered(pieces: seq<Range>, a: nat)
    requires Separated(pieces) && a < |pieces| && pieces[a].lo < pieces[a].hi
    ensures !Covered(pieces[a].hi, pieces) && !Covered(pieces[a].lo - 1, pieces)
  {}

  lemma OnePiece(pieces: seq<Range>, a: nat, i: int, x: int)
    requires Separated(pieces) && a < |pieces| && In(i, pieces[a])
    requires forall y :: Between(i, y, x) ==> Covered(y, pieces)
    ensures In(x, pieces[a])
  {
    EdgesAreUncovered(pieces, a);
    var before, after := pieces[a].lo - 1, pieces[a].hi;
    assert x >= after ==> Between(i, after, x);
    assert x <= before ==> Between(i, before, x);
  }

  lemma LeftoverExact(window: Range, cover: Range, i: int)
    ensures Covered(i, Difference([cover], [window])) <==> In(i, window) && !In(i, cover)
  {
    DifferenceIsExact([cover], [window]);
    assert Covered(i, [cover]) <==> In(i, cover) by { assert In(i, [cover][0]) <==> In(i, cover); }
    assert Covered(i, [window]) <==> In(i, window) by { assert In(i, [window][0]) <==> In(i, window); }
  }

  /** Every piece comes from one window, of which it holds nothing cleared. */
  lemma {:induction false} PieceHasParent(pending: seq<PendingWindow>, cover: Range, piece: PendingWindow)
      returns (w: PendingWindow)
    requires piece in Without(pending, cover)
    ensures w in pending && w.issuedAt == piece.issuedAt
    ensures forall x :: In(x, piece.range) ==> In(x, w.range) && !In(x, cover)
    decreases |pending|
  {
    var init, last := pending[..|pending| - 1], pending[|pending| - 1];
    if piece in Without(init, cover) {
      w := PieceHasParent(init, cover, piece);
    } else {
      var pieces := Difference([cover], [last.range]);
      var k :| 0 <= k < |pieces| && Stamp(pieces, last.issuedAt)[k] == piece;
      w := last;
      forall x | In(x, piece.range) ensures In(x, w.range) && !In(x, cover) {
        assert In(x, pieces[k]);
        LeftoverExact(last.range, cover, x);
      }
    }
  }

  /** The piece around `i` holds everything linked to `i` by uncleared indices. */
  lemma {:induction false} PieceAround(pending: seq<PendingWindow>, cover: Range, w: PendingWindow, i: int)
      returns (piece: PendingWindow)
    requires w in pending && In(i, w.range) && !In(i, cover) && cover.lo < cover.hi
    ensures piece in Without(pending, cover) && piece.issuedAt == w.issuedAt && In(i, piece.range)
    ensures forall x :: (forall y :: Between(i, y, x) ==> In(y, w.range) && !In(y, cover)) ==> In(x, piece.range)
    decreases |pending|
  {
    var init, last := pending[..|pending| - 1], pending[|pending| - 1];
    if w in init {
      piece := PieceAround(init, cover, w, i);
    } else {
      var pieces := Difference([cover], [w.range]);
      LeftoverExact(w.range, cover, i);
      var a :| 0 <= a < |pieces| && In(i, pieces[a]);
      piece := Stamp(pieces, w.issuedAt)[a];
      assert w == last;
      DifferenceSeparated([cover], w.range);
      forall x | forall y :: Between(i, y, x) ==> In(y, w.range) && !In(y, cover) ensures In(x, piece.range) {
        forall y | Between(i, y, x) ensures Covered(y, pieces) { LeftoverExact(w.range, cover, y); }
        OnePiece(pieces, a, i, x);
      }
    }
  }
}
