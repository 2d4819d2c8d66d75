/** Pixel differences of two RGBA buffers outside a marker mask. */
module PixelDelta {
  import opened Machine

  /** `BenchmarkCompositedContentNormalization` */
  datatype Normalization = Normalization(
    width: Int64, height: Int64, minX: Int64, maxX: Int64, minY: Int64, maxY: Int64)

  datatype Evidence = Evidence(compared: nat, material: nat, maxDelta: nat, tolerance: nat)

  /** No evidence, evidence, or a trap: Swift stops on a range whose bounds are reversed. */
  datatype Outcome = Nothing | Found(evidence: Evidence) | Trap

  predicate Fits(i: int) { INT_MIN <= i <= INT_MAX }

  predicate Masked(n: Normalization, x: int, y: int) {
    n.minX <= x < n.maxX && n.minY <= y < n.maxY
  }

  function Delta(lhs: seq<Byte>, rhs: seq<Byte>, i: nat): nat
    requires i < |lhs| && i < |rhs|
  {
    if lhs[i] >= rhs[i] then lhs[i] - rhs[i] else rhs[i] - lhs[i]
  }

  /** The two buffers hold exactly the pixels of the normalization. */
  predicate Sized(n: Normalization, lhs: seq<Byte>, rhs: seq<Byte>) {
    n.width >= 0 && n.height >= 0 && |lhs| == |rhs| == n.width * 4 * n.height
  }

  lemma RowFits(row: nat, y: nat, height: nat)
    requires y < height
    ensures 0 <= y * row && y * row + row <= row * height
  {
    var below := height - y - 1;
    assert row * height == row * y + row + row * below;
    assert row * below >= 0;
  }

  lemma InBounds(n: Normalization, x: nat, y: nat)
    requires n.height >= 0 && x < n.width && y < n.height
    ensures 0 <= y * (n.width * 4) + x * 4
    ensures y * (n.width * 4) + x * 4 + 4 <= n.width * 4 * n.height
  {
    RowFits(n.width * 4, y, n.height);
  }

  function Offset(n: Normalization, x: nat, y: nat): (o: nat)
    requires n.height >= 0 && x < n.width && y < n.height
    ensures o == 4 * (y * n.width + x)
    ensures o + 4 <= n.width * 4 * n.height
  {
    InBounds(n, x, y);
    assert y * (n.width * 4) == 4 * (y * n.width);
    y * (n.width * 4) + x * 4
  }

  /** How far channel `c` of pixel `(x, y)` differs: rows come one after the other, four
      bytes to a pixel. */
  function ChannelDelta(n: Normalization, lhs: seq<Byte>, rhs: seq<Byte>, x: nat, y: nat, c: nat): (d: nat)
    requires Sized(n, lhs, rhs) && x < n.width && y < n.height && c < 4
    ensures var l: int, r: int := lhs[Offset(n, x, y) + c], rhs[Offset(n, x, y) + c];
            d == l - r || d == r - l
  {
    Delta(lhs, rhs, Offset(n, x, y) + c)
  }

  /** Some channel of the pixel differs by more than `tolerance`. */
  predicate Differs(n: Normalization, lhs: seq<Byte>, rhs: seq<Byte>, tolerance: nat, x: int, y: int)
    requires Sized(n, lhs, rhs)
  {
    && 0 <= x < n.width && 0 <= y < n.height && !Masked(n, x, y)
    && exists c :: 0 <= c < 4 && ChannelDelta(n, lhs, rhs, x, y, c) > tolerance
  }

  // ---- Counting pixels ----

  /** How many `x' < x` of row `y` satisfy `p`. */
  function RowCount(p: (int, int) -> bool, y: nat, x: nat): nat {
    if x == 0 then 0 else RowCount(p, y, x - 1) + if p(x - 1, y) then 1 else 0
  }

  /** How many pixels of the rows before `y`, `width` wide, satisfy `p`. */
  function Count(p: (int, int) -> bool, width: nat, y: nat): nat {
    if y == 0 then 0 else Count(p, width, y - 1) + RowCount(p, y - 1, width)
  }

  lemma {:induction false} RowCountMonotone(p: (int, int) -> bool, q: (int, int) -> bool, y: nat, x: nat)
    requires forall x', y' :: p(x', y') ==> q(x', y')
    ensures RowCount(p, y, x) <= RowCount(q, y, x)
    decreases x
  {
    if x > 0 { RowCountMonotone(p, q, y, x - 1); }
  }

  lemma {:induction false} CountMonotone(p: (int, int) -> bool, q: (int, int) -> bool, width: nat, y: nat)
    requires forall x', y' :: p(x', y') ==> q(x', y')
    ensures Count(p, width, y) <= Count(q, width, y)
    decreases y
  {
    if y > 0 {
      CountMonotone(p, q, width, y - 1);
      RowCountMonotone(p, q, y - 1, width);
    }
  }

  lemma {:induction false} RowCountZero(p: (int, int) -> bool, y: nat, x: nat)
    ensures RowCount(p, y, x) == 0 <==> forall x' :: 0 <= x' < x ==> !p(x', y)
    decreases x
  {
    if x > 0 { RowCountZero(p, y, x - 1); }
  }

  lemma {:induction false} CountZero(p: (int, int) -> bool, width: nat, y: nat)
    ensures Count(p, width, y) == 0 <==> forall x', y' :: 0 <= x' < width && 0 <= y' < y ==> !p(x', y')
    decreases y
  {
    if y > 0 {
      CountZero(p, width, y - 1);
      RowCountZero(p, y - 1, width);
    }
  }

  // ---- The mask's area ----

  function Unmasked(n: Normalization): (int, int) -> bool { (x, y) => !Masked(n, x, y) }

  /** How many of `0..length` lie in `lo..hi`. */
  function Overlap(lo: int, hi: int, length: nat): nat {
    Max(0, Min(hi, length) - Max(lo, 0))
  }

  lemma {:induction false} RowOfMask(n: Normalization, y: nat, x: nat)
    ensures RowCount(Unmasked(n), y, x) ==
              x - if n.minY <= y < n.maxY then Overlap(n.minX, n.maxX, x) else 0
    decreases x
  {
    if x > 0 { RowOfMask(n, y, x - 1); }
  }

  lemma {:induction false} AreaOfMask(n: Normalization, width: nat, y: nat)
    ensures Count(Unmasked(n), width, y) ==
              width * y - Overlap(n.minX, n.maxX, width) * Overlap(n.minY, n.maxY, y)
    decreases y
  {
    if y > 0 {
      AreaOfMask(n, width, y - 1);
      RowOfMask(n, y - 1, width);
      OneRowMore(width, y, Overlap(n.minX, n.maxX, width), Overlap(n.minY, n.maxY, y - 1),
        n.minY <= y - 1 < n.maxY);
    }
  }

  lemma OneRowMore(width: nat, y: nat, w: nat, rows: nat, masked: bool)
    requires y > 0
    ensures (width * (y - 1) - w * rows) + (width - if masked then w else 0)
         == width * y - w * (rows + if masked then 1 else 0)
  {}

  // ---- The comparison ----

  /** The pixel is compared and materially different. */
  function Material(n: Normalization, lhs: seq<Byte>, rhs: seq<Byte>, tolerance: nat): (int, int) -> bool
    requires Sized(n, lhs, rhs)
  {
    (x, y) => Differs(n, lhs, rhs, tolerance, x, y)
  }

  /** `m` is the largest channel difference among compared pixels before `(x, y)` in scan
      order, or zero when all are equal. */
  ghost predicate IsMaxDelta(n: Normalization, lhs: seq<Byte>, rhs: seq<Byte>, x: int, y: int, m: nat)
    requires Sized(n, lhs, rhs)
  {
    && (forall x', y', c :: Before(n, x', y', x, y) && !Masked(n, x', y') && 0 <= c < 4 ==>
          ChannelDelta(n, lhs, rhs, x', y', c) <= m)
    && (m > 0 ==> exists x', y', c :: Before(n, x', y', x, y) && !Masked(n, x', y') && 0 <= c < 4
                                      && ChannelDelta(n, lhs, rhs, x', y', c) == m)
  }

  predicate Before(n: Normalization, x': int, y': int, x: int, y: int) {
    0 <= x' < n.width && 0 <= y' < n.height && (y' < y || (y' == y && x' < x))
  }

  /** One pixel's four channels. */
  method ComparePixel(n: Normalization, lhs: seq<Byte>, rhs: seq<Byte>, tolerance: nat, x: nat, y: nat, maxSoFar: nat)
    returns (material: bool, maxDelta: nat)
    requires Sized(n, lhs, rhs) && x < n.width && y < n.height && !Masked(n, x, y)
    ensures material == Differs(n, lhs, rhs, tolerance, x, y)
    ensures maxDelta >= maxSoFar
    ensures forall c :: 0 <= c < 4 ==> ChannelDelta(n, lhs, rhs, x, y, c) <= maxDelta
    ensures maxDelta == maxSoFar || exists c :: 0 <= c < 4 && ChannelDelta(n, lhs, rhs, x, y, c) == maxDelta
  {
    var offset := Offset(n, x, y);
    material, maxDelta := false, maxSoFar;
    for c := 0 to 4
      invariant maxDelta >= maxSoFar
      invariant forall i :: 0 <= i < c ==> ChannelDelta(n, lhs, rhs, x, y, i) <= maxDelta
      invariant maxDelta == maxSoFar || exists i :: 0 <= i < c && ChannelDelta(n, lhs, rhs, x, y, i) == maxDelta
      invariant material <==> exists i :: 0 <= i < c && ChannelDelta(n, lhs, rhs, x, y, i) > tolerance
    {
      var l, r := lhs[offset + c], rhs[offset + c];
      var delta := if l >= r then l - r else r - l;
      assert delta == ChannelDelta(n, lhs, rhs, x, y, c);
      maxDelta := Max(maxDelta, delta);
      if delta > tolerance { material := true; }
    }
  }

  lemma MaxDeltaSkips(n: Normalization, lhs: seq<Byte>, rhs: seq<Byte>, x: nat, y: nat, m: nat)
    requires Sized(n, lhs, rhs) && IsMaxDelta(n, lhs, rhs, x, y, m) && Masked(n, x, y)
    ensures IsMaxDelta(n, lhs, rhs, x + 1, y, m)
  {
    if m > 0 {
      var x', y', c :| Before(n, x', y', x, y) && !Masked(n, x', y') && 0 <= c < 4
                       && ChannelDelta(n, lhs, rhs, x', y', c) == m;
      assert Before(n, x', y', x + 1, y);
    }
  }

  lemma MaxDeltaGrows(n: Normalization, lhs: seq<Byte>, rhs: seq<Byte>, x: nat, y: nat, m: nat, m': nat)
    requires Sized(n, lhs, rhs) && x < n.width && y < n.height && !Masked(n, x, y)
    requires IsMaxDelta(n, lhs, rhs, x, y, m) && m' >= m
    requires forall c :: 0 <= c < 4 ==> ChannelDelta(n, lhs, rhs, x, y, c) <= m'
    requires m' == m || exists c :: 0 <= c < 4 && ChannelDelta(n, lhs, rhs, x, y, c) == m'
    ensures IsMaxDelta(n, lhs, rhs, x + 1, y, m')
  {
    if m' > 0 {
      if m' == m {
        var x', y', c :| Before(n, x', y', x, y) && !Masked(n, x', y') && 0 <= c < 4
                         && ChannelDelta(n, lhs, rhs, x', y', c) == m;
        assert Before(n, x', y', x + 1, y);
      } else {
        var c :| 0 <= c < 4 && ChannelDelta(n, lhs, rhs, x, y, c) == m';
        assert Before(n, x, y, x + 1, y);
      }
    }
  }

  lemma MaxDeltaNextRow(n: Normalization, lhs: seq<Byte>, rhs: seq<Byte>, y: nat, m: nat)
    requires Sized(n, lhs, rhs) && IsMaxDelta(n, lhs, rhs, n.width, y, m)
    ensures IsMaxDelta(n, lhs, rhs, 0, y + 1, m)
  {
    assert forall x', y' :: Before(n, x', y', n.width, y) <==> Before(n, x', y', 0, y + 1);
  }

  /** The scan over one row. */
  method CompareRow(n: Normalization, lhs: seq<Byte>, rhs: seq<Byte>, tolerance: nat, y: nat, maxSoFar: nat)
    returns (compared: nat, material: nat, maxDelta: nat)
    requires Sized(n, lhs, rhs) && y < n.height && IsMaxDelta(n, lhs, rhs, 0, y, maxSoFar)
    ensures compared == RowCount(Unmasked(n), y, n.width)
    ensures material == RowCount(Material(n, lhs, rhs, tolerance), y, n.width)
    ensures IsMaxDelta(n, lhs, rhs, 0, y + 1, maxDelta)
  {
    compared, material, maxDelta := 0, 0, maxSoFar;
    for x := 0 to n.width
      invariant compared == RowCount(Unmasked(n), y, x)
      invariant material == RowCount(Material(n, lhs, rhs, tolerance), y, x)
      invariant IsMaxDelta(n, lhs, rhs, x, y, maxDelta)
    {
      if x >= n.minX && x < n.maxX && y >= n.minY && y < n.maxY {
        MaxDeltaSkips(n, lhs, rhs, x, y, maxDelta);
        continue;
      }
      compared := compared + 1;
      var differs, grown := ComparePixel(n, lhs, rhs, tolerance, x, y, maxDelta);
      MaxDeltaGrows(n, lhs, rhs, x, y, maxDelta, grown);
      maxDelta := grown;
      if differs { material := material + 1; }
    }
    MaxDeltaNextRow(n, lhs, rhs, y, maxDelta);
  }

  /** What is compared, out of the whole picture: its area less that of the clipped mask. */
  function ComparedArea(n: Normalization): int
    requires n.width >= 0 && n.height >= 0
  {
    n.width * n.height - Overlap(n.minX, n.maxX, n.width) * Overlap(n.minY, n.maxY, n.height)
  }

  /** `o` is what comparing `lhs` with `rhs` says: whether there is evidence, what it counts,
      and whether the program stops instead. */
  ghost predicate Judges(n: Normalization, lhs: seq<Byte>, rhs: seq<Byte>, tolerance: Int64, o: Outcome) {
    && (o.Found? <==>
          && tolerance >= 0 && n.width > 0 && n.height > 0 && Sized(n, lhs, rhs)
          && Fits(n.width * 4) && Fits(n.width * 4 * n.height) && ComparedArea(n) > 0)
    && (o.Found? ==>
          && o.evidence.compared == ComparedArea(n)
          && o.evidence.material == Count(Material(n, lhs, rhs, tolerance), n.width, n.height)
          && IsMaxDelta(n, lhs, rhs, 0, n.height, o.evidence.maxDelta)
          && o.evidence.tolerance == tolerance)
    // two negative sizes multiply to a positive count and then stop the program
    && (o.Trap? <==>
          && tolerance >= 0 && n.width < 0 && n.height < 0
          && Fits(n.width * 4) && Fits(n.width * 4 * n.height)
          && |lhs| == |rhs| == n.width * 4 * n.height)
  }

  /** `benchmarkCompositedDeltaEvidence` on byte arrays. */
  method DeltaEvidence(lhs: seq<Byte>, rhs: seq<Byte>, n: Normalization, tolerance: Int64) returns (o: Outcome)
    ensures Judges(n, lhs, rhs, tolerance, o)
  {
    var bytesPerRow := n.width * 4;
    var byteCount := bytesPerRow * n.height;
    SignOfArea(n.width, n.height);
    if tolerance < 0 || !Fits(bytesPerRow) || !Fits(byteCount) || byteCount <= 0
       || |lhs| != byteCount || |rhs| != byteCount {
      return Nothing;
    }
    if n.height < 0 || n.width < 0 { return Trap; }
    var compared, material, maxDelta := 0, 0, 0;
    for y := 0 to n.height
      invariant compared == Count(Unmasked(n), n.width, y)
      invariant material == Count(Material(n, lhs, rhs, tolerance), n.width, y)
      invariant IsMaxDelta(n, lhs, rhs, 0, y, maxDelta)
    {
      var rowCompared, rowMaterial, grown := CompareRow(n, lhs, rhs, tolerance, y, maxDelta);
      compared, material, maxDelta := compared + rowCompared, material + rowMaterial, grown;
    }
    AreaOfMask(n, n.width, n.height);
    if compared == 0 { return Nothing; }
    return Found(Evidence(compared, material, maxDelta, tolerance));
  }

  lemma SignOfArea(width: int, height: int)
    ensures width * 4 * height > 0 <==> (width > 0 && height > 0) || (width < 0 && height < 0)
  {}

  // ---- Laws of the evidence ----

  lemma DeltaIsSymmetric(n: Normalization, lhs: seq<Byte>, rhs: seq<Byte>, tolerance: nat, x: int, y: int)
    requires Sized(n, lhs, rhs)
    ensures Differs(n, lhs, rhs, tolerance, x, y) ==> Differs(n, rhs, lhs, tolerance, x, y)
  {
    if Differs(n, lhs, rhs, tolerance, x, y) {
      var c :| 0 <= c < 4 && ChannelDelta(n, lhs, rhs, x, y, c) > tolerance;
      assert ChannelDelta(n, rhs, lhs, x, y, c) > tolerance;
    }
  }

  /** Swapping the buffers changes no count, and a wider tolerance never counts more. */
  lemma MaterialCountLaws(n: Normalization, lhs: seq<Byte>, rhs: seq<Byte>, tolerance: nat, wider: nat)
    requires Sized(n, lhs, rhs) && tolerance <= wider
    ensures Count(Material(n, lhs, rhs, tolerance), n.width, n.height)
         == Count(Material(n, rhs, lhs, tolerance), n.width, n.height)
    ensures Count(Material(n, lhs, rhs, wider), n.width, n.height)
         <= Count(Material(n, lhs, rhs, tolerance), n.width, n.height)
  {
    var p, q, r := Material(n, lhs, rhs, tolerance), Material(n, rhs, lhs, tolerance), Material(n, lhs, rhs, wider);
    forall x, y ensures p(x, y) == q(x, y) && (r(x, y) ==> p(x, y)) {
      DeltaIsSymmetric(n, lhs, rhs, tolerance, x, y);
      DeltaIsSymmetric(n, rhs, lhs, tolerance, x, y);
    }
    CountMonotone(p, q, n.width, n.height);
    CountMonotone(q, p, n.width, n.height);
    CountMonotone(r, p, n.width, n.height);
  }

  lemma MaxDeltaIsSymmetric(n: Normalization, lhs: seq<Byte>, rhs: seq<Byte>, m: nat)
    requires Sized(n, lhs, rhs) && IsMaxDelta(n, lhs, rhs, 0, n.height, m)
    ensures IsMaxDelta(n, rhs, lhs, 0, n.height, m)
  {
    forall x, y, c | 0 <= x < n.width && 0 <= y < n.height && 0 <= c < 4
      ensures ChannelDelta(n, lhs, rhs, x, y, c) == ChannelDelta(n, rhs, lhs, x, y, c)
    {}
    if m > 0 {
      var x, y, c :| Before(n, x, y, 0, n.height) && !Masked(n, x, y) && 0 <= c < 4
                     && ChannelDelta(n, lhs, rhs, x, y, c) == m;
      assert ChannelDelta(n, rhs, lhs, x, y, c) == m;
    }
  }

  lemma MaxDeltaIsLeast(n: Normalization, lhs: seq<Byte>, rhs: seq<Byte>, m: nat, other: nat)
    requires Sized(n, lhs, rhs)
    requires IsMaxDelta(n, lhs, rhs, 0, n.height, m) && IsMaxDelta(n, lhs, rhs, 0, n.height, other)
    ensures m <= other
  {}

  /** The outcome is settled by the buffers, and swapping them changes nothing of it. */
  lemma OutcomeIsSymmetric(n: Normalization, lhs: seq<Byte>, rhs: seq<Byte>, tolerance: Int64, o: Outcome, swapped: Outcome)
    requires Judges(n, lhs, rhs, tolerance, o) && Judges(n, rhs, lhs, tolerance, swapped)
    ensures o == swapped
  {
    if o.Found? {
      var m, m' := o.evidence.maxDelta, swapped.evidence.maxDelta;
      MaterialCountLaws(n, lhs, rhs, tolerance, tolerance);
      MaxDeltaIsSymmetric(n, lhs, rhs, m);
      MaxDeltaIsLeast(n, rhs, lhs, m, m');
      MaxDeltaIsLeast(n, rhs, lhs, m', m);
    }
  }

  /** A picture of one pixel with both sizes negated stops the program. */
  method NegativeSizesTrap() returns (o: Outcome)
    ensures o.Trap?
  {
    o := DeltaEvidence([0, 0, 0, 0], [0, 0, 0, 0], Normalization(-1, -1, 0, 0, 0, 0), 0);
  }

  /** No pixel is materially different exactly when the largest channel difference is within
      tolerance. */
  lemma NoMaterialPixelIffWithinTolerance(n: Normalization, lhs: seq<Byte>, rhs: seq<Byte>, tolerance: nat, m: nat)
    requires Sized(n, lhs, rhs) && IsMaxDelta(n, lhs, rhs, 0, n.height, m)
    ensures Count(Material(n, lhs, rhs, tolerance), n.width, n.height) == 0 <==> m <= tolerance
  {
    var p := Material(n, lhs, rhs, tolerance);
    CountZero(p, n.width, n.height);
    if m <= tolerance {
      forall x, y | 0 <= x < n.width && 0 <= y < n.height ensures !p(x, y) {
        assert Before(n, x, y, 0, n.height);
      }
    } else {
      var x, y, c :| Before(n, x, y, 0, n.height) && !Masked(n, x, y) && 0 <= c < 4
                     && ChannelDelta(n, lhs, rhs, x, y, c) == m;
      assert p(x, y);
    }
  }

  // ---- What the maximum says of the bytes ----

  /** The pixel that byte `i` belongs to. */
  function PixelOf(n: Normalization, i: nat): (int, int)
    requires n.width > 0
  {
    (i / 4 % n.width, i / 4 / n.width)
  }

  lemma Area(w: nat, h: nat, i: nat)
    requires i < w * 4 * h
    ensures i / 4 < w * h
  {
    var area := w * h;
    assert w * 4 * h == 4 * area;
  }

  lemma DivisionBound(q: nat, w: nat, h: nat)
    requires w > 0 && q < w * h
    ensures q / w < h && q == q / w * w + q % w
  {
    var y := q / w;
    assert q == y * w + q % w;
    Taller(y, h, w);
  }

  lemma Taller(y: nat, h: nat, w: nat)
    ensures y >= h ==> y * w >= w * h
  {}

  lemma OffsetOfPixel(n: Normalization, x: nat, y: nat, q: nat)
    requires n.height >= 0 && x < n.width && y < n.height && q == y * n.width + x
    ensures Offset(n, x, y) == 4 * q
  {}

  /** Every byte is a channel of its pixel, and of no other. */
  lemma ByteIsChannel(n: Normalization, i: nat) returns (x: nat, y: nat)
    requires n.width > 0 && n.height >= 0 && i < n.width * 4 * n.height
    ensures (x, y) == PixelOf(n, i)
    ensures x < n.width && y < n.height && i == Offset(n, x, y) + i % 4
  {
    Area(n.width, n.height, i);
    x, y := SplitQuotient(i / 4, n.width, n.height);
    OffsetOfPixel(n, x, y, i / 4);
  }

  lemma SplitQuotient(q: nat, w: nat, h: nat) returns (x: nat, y: nat)
    requires w > 0 && q < w * h
    ensures x == q % w < w && y == q / w < h && q == y * w + x
  {
    DivisionBound(q, w, h);
    x, y := q % w, q / w;
  }

  lemma ChannelIsByte(n: Normalization, x: nat, y: nat, c: nat)
    requires n.height >= 0 && x < n.width && y < n.height && c < 4
    ensures PixelOf(n, Offset(n, x, y) + c) == (x, y)
  {
    var q := y * n.width + x;
    OffsetOfPixel(n, x, y, q);
    assert (4 * q + c) / 4 == q;
    Quotient(q, n.width, y, x);
  }

  lemma Quotient(q: nat, w: nat, y: nat, x: nat)
    requires x < w && q == y * w + x
    ensures q / w == y && q % w == x
  {
    var d := y - q / w;
    assert q == q / w * w + q % w;
    assert d * w == q % w - x;
    assert d >= 1 ==> d * w >= w;
    assert d <= -1 ==> d * w + w <= 0;
  }

  /** The two pictures agree to within `bound` in every byte of every pixel outside the mask
      exactly when the largest difference is no more than that. */
  lemma MaxDeltaBoundsBytes(n: Normalization, lhs: seq<Byte>, rhs: seq<Byte>, m: nat, bound: nat)
    requires Sized(n, lhs, rhs) && n.width > 0 && IsMaxDelta(n, lhs, rhs, 0, n.height, m)
    ensures m <= bound <==>
              forall i :: 0 <= i < |lhs| && !Masked(n, PixelOf(n, i).0, PixelOf(n, i).1) ==> Within(lhs[i], rhs[i], bound)
  {
    if m <= bound {
      forall i | 0 <= i < |lhs| && !Masked(n, PixelOf(n, i).0, PixelOf(n, i).1) ensures Within(lhs[i], rhs[i], bound) {
        var x, y := ByteIsChannel(n, i);
        assert Before(n, x, y, 0, n.height);
        assert ChannelDelta(n, lhs, rhs, x, y, i % 4) <= m;
      }
    } else {
      var x, y, c :| Before(n, x, y, 0, n.height) && !Masked(n, x, y) && 0 <= c < 4
                     && ChannelDelta(n, lhs, rhs, x, y, c) == m;
      ChannelIsByte(n, x, y, c);
      assert !Within(lhs[Offset(n, x, y) + c], rhs[Offset(n, x, y) + c], bound);
    }
  }

  predicate Within(l: int, r: int, bound: int) { -bound <= l - r <= bound }
}
