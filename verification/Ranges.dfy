/** Half-open ranges of item indices and their subtraction. */
module Ranges {
  import opened Machine

  datatype Span = Span(lo: UInt64, hi: UInt64)
  /** Swift's `Range<UInt64>`, whose bounds are always in order. */
  type Range = s: Span | s.lo <= s.hi witness Span(0, 0)

  predicate In(i: int, r: Range) { r.lo <= i < r.hi }

  /** `i` lies in one of `rs`. */
  predicate Covered(i: int, rs: seq<Range>) {
    exists k :: 0 <= k < |rs| && In(i, rs[k])
  }

  /** Swift's `overlaps`: some index is common to both. */
  predicate Overlaps(a: Range, b: Range) {
    !(b.hi <= a.lo || a.hi <= b.lo || a.lo == a.hi || b.lo == b.hi)
  }

  predicate Ordered(rs: seq<Range>) {
    forall a, b :: 0 <= a < b < |rs| ==> rs[a].hi <= rs[b].lo
  }

  predicate NonEmpty(rs: seq<Range>) {
    forall k :: 0 <= k < |rs| ==> rs[k].lo < rs[k].hi
  }

  // ---- Subtraction as a function ----

  /** What is left of one hole under one cover. */
  function Pieces(cover: Range, hole: Range): seq<Range> {
    if cover.hi <= hole.lo || cover.lo >= hole.hi then [hole]
    else
      (if hole.lo < cover.lo then [Span(hole.lo, cover.lo)] else []) +
      (if cover.hi < hole.hi then [Span(cover.hi, hole.hi)] else [])
  }

  /** Every hole cut by one cover. */
  function Cut(cover: Range, holes: seq<Range>): seq<Range> {
    if holes == [] then []
    else Cut(cover, holes[..|holes| - 1]) + Pieces(cover, holes[|holes| - 1])
  }

  function CutAll(covers: seq<Range>, holes: seq<Range>): seq<Range> {
    if covers == [] then holes
    else Cut(covers[|covers| - 1], CutAll(covers[..|covers| - 1], holes))
  }

  function InsertByLower(r: Range, sorted: seq<Range>): seq<Range> {
    if sorted == [] || r.lo < sorted[0].lo then [r] + sorted
    else [sorted[0]] + InsertByLower(r, sorted[1..])
  }

  /** The library sort by lower bound, stable. */
  function SortByLower(rs: seq<Range>): seq<Range> {
    if rs == [] then [] else InsertByLower(rs[|rs| - 1], SortByLower(rs[..|rs| - 1]))
  }

  function KeepNonEmpty(rs: seq<Range>): seq<Range> {
    if rs == [] then []
    else
      var rest := KeepNonEmpty(rs[..|rs| - 1]);
      if rs[|rs| - 1].lo < rs[|rs| - 1].hi then rest + [rs[|rs| - 1]] else rest
  }

  /** The specification of `subtract(covers:from:)`. */
  function Difference(covers: seq<Range>, holes: seq<Range>): seq<Range> {
    KeepNonEmpty(CutAll(SortByLower(covers), holes))
  }

  // ---- Subtraction as the source computes it ----

  /** `subtract(covers:from:)` */
  method Subtract(covers: seq<Range>, holes: seq<Range>) returns (rest: seq<Range>)
    ensures rest == Difference(covers, holes)
  {
    var sorted := SortByLower(covers);
    var remaining := holes;
    for c := 0 to |sorted|
      invariant remaining == CutAll(sorted[..c], holes)
    {
      remaining := SubtractCover(sorted[c], remaining);
      assert sorted[..c + 1][..c] == sorted[..c];
    }
    assert sorted[..|sorted|] == sorted;
    rest := KeepNonEmpty(remaining);
  }

  /** The inner loop of `subtract(covers:from:)`. */
  method SubtractCover(cover: Range, remaining: seq<Range>) returns (next: seq<Range>)
    ensures next == Cut(cover, remaining)
  {
    next := [];
    for h := 0 to |remaining|
      invariant next == Cut(cover, remaining[..h])
    {
      var hole := remaining[h];
      CutStep(cover, remaining, h);
      if cover.hi <= hole.lo || cover.lo >= hole.hi {
        next := next + [hole];
        continue;
      }
      var pieces: seq<Range> := [];
      if hole.lo < cover.lo {
        pieces := [Span(hole.lo, cover.lo)];
      }
      if cover.hi < hole.hi {
        pieces := pieces + [Span(cover.hi, hole.hi)];
      }
      next := next + pieces;
    }
    assert remaining[..|remaining|] == remaining;
  }

  lemma CutStep(cover: Range, holes: seq<Range>, h: nat)
    requires h < |holes|
    ensures Cut(cover, holes[..h + 1]) == Cut(cover, holes[..h]) + Pieces(cover, holes[h])
  {
    assert holes[..h + 1][..h] == holes[..h];
  }

  // ---- Exactness ----

  lemma CoveredAppend(i: int, a: seq<Range>, b: seq<Range>)
    ensures Covered(i, a + b) <==> Covered(i, a) || Covered(i, b)
  {
    if Covered(i, a) {
      var k :| 0 <= k < |a| && In(i, a[k]);
      assert In(i, (a + b)[k]);
    }
    if Covered(i, b) {
      var k :| 0 <= k < |b| && In(i, b[k]);
      assert In(i, (a + b)[|a| + k]);
    }
  }

  lemma PiecesExact(cover: Range, hole: Range)
    ensures forall i :: Covered(i, Pieces(cover, hole)) <==> In(i, hole) && !In(i, cover)
    ensures forall k :: 0 <= k < |Pieces(cover, hole)| ==>
              hole.lo <= Pieces(cover, hole)[k].lo && Pieces(cover, hole)[k].hi <= hole.hi
    ensures Ordered(Pieces(cover, hole))
    ensures hole.lo < hole.hi ==> NonEmpty(Pieces(cover, hole))
  {
    var rest := Pieces(cover, hole);
    forall i | In(i, hole) && !In(i, cover) ensures Covered(i, rest) {
      if i < cover.lo {
        assert In(i, rest[0]);
      } else {
        assert In(i, rest[|rest| - 1]);
      }
    }
  }

  lemma {:induction false} CutExact(cover: Range, holes: seq<Range>, i: int)
    ensures Covered(i, Cut(cover, holes)) <==> Covered(i, holes) && !In(i, cover)
    decreases |holes|
  {
    if holes != [] {
      var init, last := holes[..|holes| - 1], holes[|holes| - 1];
      CutExact(cover, init, i);
      PiecesExact(cover, last);
      CoveredAppend(i, Cut(cover, init), Pieces(cover, last));
      CoveredAppend(i, init, [last]);
      assert holes == init + [last];
      assert Covered(i, [last]) <==> In(i, last) by { assert In(i, [last][0]) <==> In(i, last); }
    }
  }

  lemma {:induction false} CutAllExact(covers: seq<Range>, holes: seq<Range>, i: int)
    ensures Covered(i, CutAll(covers, holes)) <==> Covered(i, holes) && !Covered(i, covers)
    decreases |covers|
  {
    if covers != [] {
      var init, last := covers[..|covers| - 1], covers[|covers| - 1];
      CutAllExact(init, holes, i);
      CutExact(last, CutAll(init, holes), i);
      CoveredAppend(i, init, [last]);
      assert covers == init + [last];
      assert Covered(i, [last]) <==> In(i, last) by { assert In(i, [last][0]) <==> In(i, last); }
    }
  }

  lemma {:induction false} InsertCovers(r: Range, sorted: seq<Range>, i: int)
    ensures Covered(i, InsertByLower(r, sorted)) <==> In(i, r) || Covered(i, sorted)
    decreases |sorted|
  {
    CoveredAppend(i, [r], sorted);
    assert Covered(i, [r]) <==> In(i, r) by { assert In(i, [r][0]) <==> In(i, r); }
    if sorted != [] && r.lo >= sorted[0].lo {
      var head := sorted[0];
      InsertCovers(r, sorted[1..], i);
      CoveredAppend(i, [head], InsertByLower(r, sorted[1..]));
      CoveredAppend(i, [head], sorted[1..]);
      assert sorted == [head] + sorted[1..];
    }
  }

  lemma {:induction false} SortCovers(rs: seq<Range>, i: int)
    ensures Covered(i, SortByLower(rs)) <==> Covered(i, rs)
    decreases |rs|
  {
    if rs != [] {
      var init, last := rs[..|rs| - 1], rs[|rs| - 1];
      SortCovers(init, i);
      InsertCovers(last, SortByLower(init), i);
      CoveredAppend(i, init, [last]);
      assert rs == init + [last];
      assert Covered(i, [last]) <==> In(i, last) by { assert In(i, [last][0]) <==> In(i, last); }
    }
  }

  lemma {:induction false} KeepNonEmptyKeeps(rs: seq<Range>)
    ensures NonEmpty(KeepNonEmpty(rs))
    ensures forall i :: Covered(i, KeepNonEmpty(rs)) <==> Covered(i, rs)
    ensures NonEmpty(rs) ==> KeepNonEmpty(rs) == rs
    decreases |rs|
  {
    if rs != [] {
      var init, last := rs[..|rs| - 1], rs[|rs| - 1];
      KeepNonEmptyKeeps(init);
      assert rs == init + [last];
      forall i ensures Covered(i, KeepNonEmpty(rs)) <==> Covered(i, rs) {
        CoveredAppend(i, init, [last]);
        CoveredAppend(i, KeepNonEmpty(init), [last]);
        assert Covered(i, [last]) <==> In(i, last) by { assert In(i, [last][0]) <==> In(i, last); }
      }
    }
  }

  lemma {:induction false} CutOrdered(cover: Range, holes: seq<Range>)
    requires Ordered(holes) && NonEmpty(holes)
    ensures Ordered(Cut(cover, holes)) && NonEmpty(Cut(cover, holes))
    ensures holes != [] ==> forall k :: 0 <= k < |Cut(cover, holes)| ==>
              Cut(cover, holes)[k].hi <= holes[|holes| - 1].hi
    ensures holes == [] ==> Cut(cover, holes) == []
    decreases |holes|
  {
    if holes != [] {
      CutOrdered(cover, holes[..|holes| - 1]);
      PiecesExact(cover, holes[|holes| - 1]);
    }
  }

  lemma {:induction false} CutAllOrdered(covers: seq<Range>, holes: seq<Range>)
    requires Ordered(holes) && NonEmpty(holes)
    ensures Ordered(CutAll(covers, holes)) && NonEmpty(CutAll(covers, holes))
    decreases |covers|
  {
    if covers != [] {
      CutAllOrdered(covers[..|covers| - 1], holes);
      CutOrdered(covers[|covers| - 1], CutAll(covers[..|covers| - 1], holes));
    }
  }

  /** Subtraction is exact for every list of covers, overlapping or not, and never returns
      an empty piece; ordered, disjoint, non-empty holes leave ordered, disjoint pieces. */
  lemma DifferenceIsExact(covers: seq<Range>, holes: seq<Range>)
    ensures forall i :: Covered(i, Difference(covers, holes)) <==> Covered(i, holes) && !Covered(i, covers)
    ensures NonEmpty(Difference(covers, holes))
    ensures Ordered(holes) && NonEmpty(holes) ==> Ordered(Difference(covers, holes))
  {
    var cut := CutAll(SortByLower(covers), holes);
    KeepNonEmptyKeeps(cut);
    forall i ensures Covered(i, cut) <==> Covered(i, holes) && !Covered(i, covers) {
      CutAllExact(SortByLower(covers), holes, i);
      SortCovers(covers, i);
    }
    if Ordered(holes) && NonEmpty(holes) {
      CutAllOrdered(SortByLower(covers), holes);
    }
  }

  // ---- Pieces that do not touch ----

  predicate Separated(rs: seq<Range>) {
    forall a, b :: 0 <= a < b < |rs| ==> rs[a].hi < rs[b].lo
  }

  lemma {:induction false} CutSeparated(cover: Range, holes: seq<Range>)
    requires Separated(holes) && NonEmpty(holes) && cover.lo < cover.hi
    ensures Separated(Cut(cover, holes))
    decreases |holes|
  {
    if holes != [] {
      CutSeparated(cover, holes[..|holes| - 1]);
      CutOrdered(cover, holes[..|holes| - 1]);
      PiecesExact(cover, holes[|holes| - 1]);
    }
  }

  lemma {:induction false} CutAllSeparated(covers: seq<Range>, holes: seq<Range>)
    requires Separated(holes) && NonEmpty(holes) && NonEmpty(covers)
    ensures Separated(CutAll(covers, holes)) && NonEmpty(CutAll(covers, holes))
    decreases |covers|
  {
    if covers != [] {
      CutAllSeparated(covers[..|covers| - 1], holes);
      CutSeparated(covers[|covers| - 1], CutAll(covers[..|covers| - 1], holes));
      CutOrdered(covers[|covers| - 1], CutAll(covers[..|covers| - 1], holes));
    }
  }

  lemma {:induction false} InsertNonEmpty(r: Range, sorted: seq<Range>)
    requires NonEmpty(sorted) && r.lo < r.hi
    ensures NonEmpty(InsertByLower(r, sorted))
    decreases |sorted|
  {
    if sorted != [] && r.lo >= sorted[0].lo { InsertNonEmpty(r, sorted[1..]); }
  }

  lemma {:induction false} SortNonEmpty(rs: seq<Range>)
    requires NonEmpty(rs)
    ensures NonEmpty(SortByLower(rs))
    decreases |rs|
  {
    if rs != [] {
      SortNonEmpty(rs[..|rs| - 1]);
      InsertNonEmpty(rs[|rs| - 1], SortByLower(rs[..|rs| - 1]));
    }
  }

  /** Between two pieces left over by non-empty covers something is missing. */
  lemma DifferenceSeparated(covers: seq<Range>, hole: Range)
    requires NonEmpty(covers) && hole.lo < hole.hi
    ensures Separated(Difference(covers, [hole]))
  {
    SortNonEmpty(covers);
    CutAllSeparated(SortByLower(covers), [hole]);
    KeepNonEmptyKeeps(CutAll(SortByLower(covers), [hole]));
  }
}
