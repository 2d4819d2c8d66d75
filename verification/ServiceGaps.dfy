/** The circular service gaps of a scheduling cycle: how long a class may wait when the
    cycle repeats for ever. */
module ServiceGaps {

  type Class = string

  datatype Result<+T> = Ok(value: T) | Err(reason: string)

  /** Who is served in slot `i` of the endless repetition of `cycle`. */
  function Slot(cycle: seq<Class>, i: nat): Class
    requires cycle != []
  {
    cycle[i % |cycle|]
  }

  /** Slots `from .. from + length` serve `name` at least once. */
  ghost predicate Served(cycle: seq<Class>, name: Class, from: nat, length: nat)
    requires cycle != []
  {
    exists i: nat :: from <= i < from + length && Slot(cycle, i) == name
  }

  /** `g` is the longest wait: every `g` consecutive slots of the repeated cycle serve `name`,
      and some `g - 1` consecutive slots do not. */
  ghost predicate IsExactGap(cycle: seq<Class>, name: Class, g: nat)
    requires cycle != []
  {
    && g >= 1
    && (forall from: nat :: Served(cycle, name, from, g))
    && (exists from: nat :: Waits(cycle, name, from, g))
  }

  /** A wait that long does occur: the `g - 1` slots from `from` on pass without `name`. */
  ghost predicate Waits(cycle: seq<Class>, name: Class, from: nat, g: nat)
    requires cycle != [] && g >= 1
  {
    !Served(cycle, name, from, g - 1)
  }

  /** There is only one such bound, so any two ways of deriving it agree. */
  lemma ExactGapIsUnique(cycle: seq<Class>, name: Class, g: nat, h: nat)
    requires cycle != [] && IsExactGap(cycle, name, g) && IsExactGap(cycle, name, h)
    ensures g == h
  {
    LongerWindowServes(cycle, name, g, h);
    LongerWindowServes(cycle, name, h, g);
  }

  lemma LongerWindowServes(cycle: seq<Class>, name: Class, g: nat, h: nat)
    requires cycle != [] && IsExactGap(cycle, name, g) && IsExactGap(cycle, name, h)
    ensures h <= g
  {
    if g < h {
      forall from: nat ensures !Waits(cycle, name, from, h) {
        assert Served(cycle, name, from, g);
        Widen(cycle, name, from, g, h - 1);
      }
      assert false;
    }
  }

  lemma Widen(cycle: seq<Class>, name: Class, from: nat, g: nat, h: nat)
    requires cycle != [] && Served(cycle, name, from, g) && g <= h
    ensures Served(cycle, name, from, h)
  {
    var i: nat :| from <= i < from + g && Slot(cycle, i) == name;
  }

  // ---- Positions and gaps ----

  /** The slots of one cycle that serve `name`, in order. */
  function Positions(cycle: seq<Class>, name: Class): seq<nat> {
    if cycle == [] then []
    else
      var n := |cycle| - 1;
      if cycle[n] == name then Positions(cycle[..n], name) + [n] else Positions(cycle[..n], name)
  }

  /** `p` lists exactly the slots that serve `name`, each once and in order. */
  ghost predicate Lists(p: seq<nat>, cycle: seq<Class>, name: Class) {
    && (forall i, j :: 0 <= i < j < |p| ==> p[i] < p[j])
    && (forall k :: 0 <= k < |p| ==> p[k] < |cycle| && cycle[p[k]] == name)
    && (forall i: nat :: i < |cycle| && cycle[i] == name ==> i in p)
  }

  lemma {:induction false} PositionsAreListed(cycle: seq<Class>, name: Class)
    ensures Lists(Positions(cycle, name), cycle, name)
    ensures name in cycle ==> Positions(cycle, name) != []
    decreases |cycle|
  {
    if cycle != [] {
      var n := |cycle| - 1;
      PositionsAreListed(cycle[..n], name);
      assert forall i: nat :: i < n ==> cycle[..n][i] == cycle[i];
      assert cycle == cycle[..n] + [cycle[n]];
    }
  }

  /** The next position after the `k`-th, on the endless cycle. */
  function NextPosition(p: seq<nat>, n: nat, k: nat): nat
    requires k < |p|
  {
    if k + 1 < |p| then p[k + 1] else p[0] + n
  }

  function GapAt(p: seq<nat>, n: nat, k: nat): int
    requires k < |p|
  {
    NextPosition(p, n, k) - p[k]
  }

  /** The gaps from the `k`-th position on. */
  function GapSum(p: seq<nat>, n: nat, k: nat): int
    requires p != [] && k <= |p|
    decreases |p| - k
  {
    if k == |p| then 0 else GapAt(p, n, k) + GapSum(p, n, k + 1)
  }

  lemma {:induction false} GapsTelescope(p: seq<nat>, n: nat, k: nat)
    requires k < |p|
    ensures GapSum(p, n, k) == p[0] + n - p[k]
    decreases |p| - k
  {
    if k + 1 < |p| {
      GapsTelescope(p, n, k + 1);
    } else {
      assert GapSum(p, n, k + 1) == 0;
    }
  }

  /** The consecutive gaps of a class add up to one turn of the cycle. */
  lemma GapsSumToCycle(cycle: seq<Class>, name: Class)
    requires name in cycle
    ensures Positions(cycle, name) != []
    ensures GapSum(Positions(cycle, name), |cycle|, 0) == |cycle|
  {
    PositionsAreListed(cycle, name);
    GapsTelescope(Positions(cycle, name), |cycle|, 0);
  }

  // ---- The derivation ----

  /** The positions of a class, as the comprehension lists them. */
  method FindPositions(cycle: seq<Class>, name: Class) returns (positions: seq<nat>)
    ensures positions == Positions(cycle, name)
  {
    positions := [];
    for i := 0 to |cycle|
      invariant positions == Positions(cycle[..i], name)
    {
      assert cycle[..i + 1][..i] == cycle[..i];
      if cycle[i] == name { positions := positions + [i]; }
    }
    assert cycle[..|cycle|] == cycle;
  }

  ghost predicate IsWidestGap(p: seq<nat>, n: nat, k: nat, gap: int) {
    && k < |p| && gap == GapAt(p, n, k)
    && forall j :: 0 <= j < |p| ==> GapAt(p, n, j) <= gap
  }

  /** The maximum over consecutive positions, the last one wrapping round. */
  method WidestGap(p: seq<nat>, n: nat) returns (gap: int, ghost best: nat)
    requires p != []
    ensures IsWidestGap(p, n, best, gap)
  {
    best, gap := 0, GapAt(p, n, 0);
    for k := 1 to |p|
      invariant best < |p| && gap == GapAt(p, n, best)
      invariant forall j :: 0 <= j < k ==> GapAt(p, n, j) <= gap
    {
      var next := GapAt(p, n, k);
      if next > gap { best, gap := k, next; }
    }
  }

  /** One entry of `max_service_gaps`. */
  method MaxServiceGap(cycle: seq<Class>, name: Class) returns (gap: nat)
    requires name in cycle
    ensures IsExactGap(cycle, name, gap)
  {
    var p := FindPositions(cycle, name);
    PositionsAreListed(cycle, name);
    ghost var best;
    var widest;
    widest, best := WidestGap(p, |cycle|);
    WidestGapIsExact(cycle, name, p, best, widest);
    gap := widest;
  }

  lemma WidestGapIsExact(cycle: seq<Class>, name: Class, p: seq<nat>, k: nat, gap: int)
    requires cycle != [] && Lists(p, cycle, name) && IsWidestGap(p, |cycle|, k, gap)
    ensures gap >= 1 && IsExactGap(cycle, name, gap)
  {
    GapIsUnserved(cycle, name, p, k);
    forall from: nat ensures Served(cycle, name, from, gap) {
      EveryWindowServed(cycle, name, p, gap, from);
    }
  }

  // ---- The endless cycle ----

  lemma DivisionIsUnique(x: nat, n: nat, q: nat, r: nat)
    requires r < n && x == q * n + r
    ensures x / n == q && x % n == r
  {
    var d := q - x / n;
    assert x == x / n * n + x % n;
    assert d * n == x % n - r;
    assert d >= 1 ==> d * n >= n;
    assert d <= -1 ==> d * n + n <= 0;
  }

  /** The slot `wait` after slot `from` is slot `from % n + wait` of this turn or the next. */
  lemma SlotAhead(cycle: seq<Class>, from: nat, wait: nat)
    requires cycle != [] && from % |cycle| + wait < 2 * |cycle|
    ensures var ahead := from % |cycle| + wait;
            Slot(cycle, from + wait) == cycle[if ahead < |cycle| then ahead else ahead - |cycle|]
  {
    var n := |cycle|;
    var turns, ahead := from / n, from % n + wait;
    assert from == turns * n + from % n;
    if ahead < n {
      DivisionIsUnique(from + wait, n, turns, ahead);
    } else {
      assert (turns + 1) * n == turns * n + n;
      DivisionIsUnique(from + wait, n, turns + 1, ahead - n);
    }
  }

  /** First position at or after slot `r` of the cycle, if any: `|p|` when there is none. */
  function FirstAtOrAfter(p: seq<nat>, r: nat, k: nat): (j: nat)
    requires k <= |p|
    ensures k <= j <= |p|
    ensures forall i :: k <= i < j ==> p[i] < r
    ensures j < |p| ==> p[j] >= r
    decreases |p| - k
  {
    if k == |p| || p[k] >= r then k else FirstAtOrAfter(p, r, k + 1)
  }

  /** The next position at or after slot `r`, in this turn or the next, is less than the
      widest gap away. */
  lemma WaitIsShort(p: seq<nat>, n: nat, r: nat, gap: int) returns (wait: nat, j: nat)
    requires p != [] && r < n && forall k :: 0 <= k < |p| ==> p[k] < n
    requires forall k :: 0 <= k < |p| ==> GapAt(p, n, k) <= gap
    ensures wait < gap && r + wait < 2 * n
    ensures j < |p| && p[j] == if r + wait < n then r + wait else r + wait - n
  {
    var last := |p| - 1;
    j := FirstAtOrAfter(p, r, 0);
    if j < |p| {
      wait := p[j] - r;
      if j > 0 {
        assert GapAt(p, n, j - 1) == p[j] - p[j - 1];
      } else {
        assert GapAt(p, n, last) == p[0] + n - p[last];
      }
    } else {
      j, wait := 0, p[0] + n - r;
      assert GapAt(p, n, last) == p[0] + n - p[last];
    }
  }

  lemma EveryWindowServed(cycle: seq<Class>, name: Class, p: seq<nat>, gap: nat, from: nat)
    requires cycle != [] && p != [] && Lists(p, cycle, name)
    requires forall k :: 0 <= k < |p| ==> GapAt(p, |cycle|, k) <= gap
    ensures Served(cycle, name, from, gap)
  {
    var wait, j := WaitIsShort(p, |cycle|, from % |cycle|, gap);
    SlotAhead(cycle, from, wait);
    var i: nat := from + wait;
    assert Slot(cycle, i) == name;
  }

  lemma GapIsUnserved(cycle: seq<Class>, name: Class, p: seq<nat>, k: nat)
    requires cycle != [] && Lists(p, cycle, name) && k < |p|
    ensures var g := GapAt(p, |cycle|, k);
            g >= 1 && exists from: nat :: Waits(cycle, name, from, g)
  {
    var g := GapAt(p, |cycle|, k);
    var from: nat := p[k] + 1;
    forall i: nat | from <= i < from + g - 1 ensures Slot(cycle, i) != name {
      BetweenPositions(cycle, name, p, k, i);
    }
    assert Waits(cycle, name, from, g);
  }

  lemma BetweenPositions(cycle: seq<Class>, name: Class, p: seq<nat>, k: nat, i: nat)
    requires cycle != [] && Lists(p, cycle, name) && k < |p|
    requires p[k] < i < NextPosition(p, |cycle|, k)
    ensures Slot(cycle, i) != name
  {
    var n := |cycle|;
    var r := if i < n then i else i - n;
    DivisionIsUnique(i, n, if i < n then 0 else 1, r);
    assert r !in p;
  }

  /** The part of `load_policy` that checks the two lists against each other and derives the
      gaps. The cycle length is a parameter; the shipped policy fixes it at 24. */
  method LoadPolicy(classes: seq<Class>, cycle: seq<Class>, expectedLength: nat) returns (r: Result<map<Class, nat>>)
    ensures r.Ok? <==>
              && classes != [] && (forall i, j :: 0 <= i < j < |classes| ==> classes[i] != classes[j])
              && cycle != [] && |cycle| == expectedLength
              && (forall c :: c in cycle <==> c in classes)
    ensures r.Ok? ==>
              && (forall c :: c in r.value <==> c in classes)
              && forall c :: c in r.value ==> IsExactGap(cycle, c, r.value[c])
  {
    if classes == [] { return Err("classes must be a non-empty list"); }
    if exists i, j :: 0 <= i < j < |classes| && classes[i] == classes[j] {
      return Err("classes must not contain duplicates");
    }
    if cycle == [] { return Err("service_cycle must be a non-empty list"); }
    if |cycle| != expectedLength { return Err("service_cycle has the wrong number of slots"); }
    if exists c :: c in cycle && c !in classes { return Err("service_cycle contains unknown classes"); }
    if exists c :: c in classes && c !in cycle { return Err("service_cycle omits classes"); }
    var gaps: map<Class, nat> := map[];
    for k := 0 to |classes|
      invariant forall c :: c in gaps <==> c in classes[..k]
      invariant forall c :: c in gaps ==> IsExactGap(cycle, c, gaps[c])
    {
      assert classes[k] in classes;
      var gap := MaxServiceGap(cycle, classes[k]);
      gaps := gaps[classes[k] := gap];
    }
    assert classes[..|classes|] == classes;
    return Ok(gaps);
  }
}
