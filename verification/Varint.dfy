/** Base-128 varints as the wire framing uses them for length prefixes. */
module Varint {
  import opened Machine

  const MAX_VARINT_BYTES := 10

  datatype DecodeResult =
    | Incomplete
    | Complete(value: UInt64, nextOffset: nat)
    | Malformed

  predicate Continues(b: Byte) { b >= 0x80 }

  /** The mathematical value of a digit string, least significant digit first. */
  function DigitSum(digits: seq<Byte>): nat {
    if digits == [] then 0 else digits[0] % 0x80 + 0x80 * DigitSum(digits[1..])
  }

  /** The canonical encoding of a value. */
  function VarintBytes(value: nat): (bytes: seq<Byte>)
    ensures |bytes| >= 1
  {
    if value < 0x80 then [value] else [value % 0x80 + 0x80] + VarintBytes(value / 0x80)
  }

  // ---- What a verdict means, without reference to how it is computed ----

  /** `bytes` opens with a varint of exactly `n` bytes: `n - 1` continuing, one final. */
  predicate TerminatesAt(bytes: seq<Byte>, n: nat) {
    && 1 <= n <= |bytes|
    && !Continues(bytes[n - 1])
    && forall i :: 0 <= i < n - 1 ==> Continues(bytes[i])
  }

  ghost predicate IsComplete(bytes: seq<Byte>, value: nat, n: nat) {
    && TerminatesAt(bytes, n)
    && n <= MAX_VARINT_BYTES
    && (n == MAX_VARINT_BYTES ==> bytes[n - 1] <= 1)
    && value == DigitSum(bytes[..n])
  }

  predicate IsIncomplete(bytes: seq<Byte>) {
    |bytes| < MAX_VARINT_BYTES && forall i :: 0 <= i < |bytes| ==> Continues(bytes[i])
  }

  predicate IsMalformed(bytes: seq<Byte>) {
    && |bytes| >= MAX_VARINT_BYTES
    && (forall i :: 0 <= i < MAX_VARINT_BYTES - 1 ==> Continues(bytes[i]))
    && bytes[MAX_VARINT_BYTES - 1] > 1
  }

  ghost predicate Describes(r: DecodeResult, bytes: seq<Byte>) {
    match r
    case Incomplete => IsIncomplete(bytes)
    case Complete(value, n) => IsComplete(bytes, value, n)
    case Malformed => IsMalformed(bytes)
  }

  // ---- The reference decoder: which verdict a byte string gets ----

  /** Position of the first final byte, or `|bytes|` when every byte continues. */
  function FirstFinal(bytes: seq<Byte>): (k: nat)
    ensures k <= |bytes|
    ensures forall i :: 0 <= i < k ==> Continues(bytes[i])
    ensures k < |bytes| ==> !Continues(bytes[k])
  {
    if bytes == [] || !Continues(bytes[0]) then 0 else 1 + FirstFinal(bytes[1..])
  }

  function Decode(bytes: seq<Byte>): (r: DecodeResult)
    ensures Describes(r, bytes)
  {
    var k := FirstFinal(bytes);
    if k < MAX_VARINT_BYTES && k < |bytes| && !(k == 9 && bytes[k] > 1) then
      AcceptedFitsIn64Bits(bytes[..k + 1]);
      Complete(DigitSum(bytes[..k + 1]), k + 1)
    else if |bytes| < MAX_VARINT_BYTES then Incomplete
    else Malformed
  }

  // ---- Operations ----

  /** `encodeVarint`: appends the encoding of `value` to `data`. */
  method EncodeVarint(value: UInt64, data: seq<Byte>) returns (extended: seq<Byte>)
    ensures extended == data + VarintBytes(value)
  {
    extended := data;
    var remaining: UInt64 := value;
    while remaining >= 0x80
      invariant extended + VarintBytes(remaining) == data + VarintBytes(value)
    {
      extended := extended + [remaining % 0x80 + 0x80];
      remaining := remaining / 0x80;
    }
    extended := extended + [remaining];
  }

  /** `decodeVarintIfComplete`: the source's throw is the `Malformed` result, and offsets
      returned are relative to the start of `data`. The throw after the source's loop is
      never reached. */
  method DecodeVarintIfComplete(data: seq<Byte>, offset: nat) returns (r: DecodeResult)
    requires offset <= |data|
    ensures r == match Decode(data[offset..])
                 case Complete(value, n) => Complete(value, offset + n)
                 case verdict => verdict
  {
    var cursor := offset;
    var value: UInt64 := 0;
    ghost var bytes := data[offset..];
    for byteIndex := 0 to MAX_VARINT_BYTES
      invariant cursor == offset + byteIndex <= |data|
      invariant forall i :: 0 <= i < byteIndex ==> Continues(bytes[i])
      invariant value == DigitSum(bytes[..byteIndex])
      invariant byteIndex < MAX_VARINT_BYTES
    {
      if cursor >= |data| {
        VerdictIsUnique(Incomplete, Decode(bytes), bytes);
        return Incomplete;
      }
      var byte := data[cursor];
      cursor := cursor + 1;
      if byteIndex == 9 && byte > 0x01 {
        VerdictIsUnique(Malformed, Decode(bytes), bytes);
        return Malformed;
      }
      DigitStep(bytes, byteIndex, value);
      value := BitOr(value, ShiftLeft64(byte % 0x80, byteIndex * 7));
      if byte < 0x80 {
        VerdictIsUnique(Complete(value, byteIndex + 1), Decode(bytes), bytes);
        return Complete(value, cursor);
      }
    }
    assert false;
    r := Malformed;
  }

  // ---- Arithmetic of digit strings ----

  /** The weight of digit `k`. */
  function Weight(k: nat): (w: nat)
    ensures w > 0
  {
    if k == 0 then 1 else 0x80 * Weight(k - 1)
  }

  lemma {:induction false} WeightIsPowerOfTwo(k: nat)
    ensures Weight(k) == Pow2(7 * k)
  {
    if k > 0 {
      WeightIsPowerOfTwo(k - 1);
      SevenBits(7 * (k - 1));
    }
  }

  lemma SevenBits(n: nat)
    ensures Pow2(n + 7) == 0x80 * Pow2(n)
  {
    assert Pow2(n + 2) == 4 * Pow2(n);
    assert Pow2(n + 4) == 4 * Pow2(n + 2);
    assert Pow2(n + 6) == 4 * Pow2(n + 4);
  }

  lemma WeightOfLastDigit()
    ensures 2 * Weight(9) == TWO_TO_THE_64
  {
    assert Weight(3) == 0x20_0000;
    assert Weight(6) == 0x400_0000_0000;
  }

  lemma {:induction false} WeightMonotone(m: nat, n: nat)
    requires m <= n
    ensures Weight(m) <= Weight(n)
    decreases n
  {
    if m < n { WeightMonotone(m, n - 1); }
  }

  lemma {:induction false} DigitSumBound(digits: seq<Byte>)
    ensures DigitSum(digits) < Weight(|digits|)
    decreases |digits|
  {
    if digits != [] {
      DigitSumBound(digits[1..]);
    }
  }

  lemma {:induction false} DigitSumAppend(digits: seq<Byte>, b: Byte)
    ensures DigitSum(digits + [b]) == DigitSum(digits) + (b % 0x80) * Weight(|digits|)
    decreases |digits|
  {
    if digits == [] {
      assert (digits + [b])[1..] == [];
    } else {
      DigitSumAppend(digits[1..], b);
      assert (digits + [b])[1..] == digits[1..] + [b];
      var w := Weight(|digits| - 1);
      assert 0x80 * ((b % 0x80) * w) == (b % 0x80) * (0x80 * w);
    }
  }

  /** A digit string accepted by the decoder stays below 2^64. */
  lemma AcceptedFitsIn64Bits(digits: seq<Byte>)
    requires 1 <= |digits| <= MAX_VARINT_BYTES
    requires |digits| == MAX_VARINT_BYTES ==> digits[9] <= 1
    ensures DigitSum(digits) < TWO_TO_THE_64
  {
    WeightOfLastDigit();
    if |digits| < MAX_VARINT_BYTES {
      DigitSumBound(digits);
      WeightMonotone(|digits|, 9);
    } else {
      var low, last := digits[..9], digits[9];
      assert digits == low + [last];
      DigitSumAppend(low, last);
      DigitSumBound(low);
      assert last * Weight(9) <= Weight(9);
    }
  }

  /** One iteration of the decoder: or-ing in a shifted digit extends the digit sum. */
  lemma DigitStep(bytes: seq<Byte>, k: nat, value: nat)
    requires k < |bytes| && k < MAX_VARINT_BYTES
    requires k == 9 ==> bytes[k] <= 1
    requires value == DigitSum(bytes[..k])
    ensures BitOr(value, ShiftLeft64(bytes[k] % 0x80, k * 7)) == DigitSum(bytes[..k + 1]) < TWO_TO_THE_64
  {
    var digit := bytes[k] % 0x80;
    assert bytes[..k + 1] == bytes[..k] + [bytes[k]];
    DigitSumAppend(bytes[..k], bytes[k]);
    DigitSumBound(bytes[..k]);
    AcceptedFitsIn64Bits(bytes[..k + 1]);
    WeightIsPowerOfTwo(k);
    BitOrDisjoint(value, digit, 7 * k);
    ShiftIsExact(digit, 7 * k);
  }

  lemma ShiftIsExact(value: UInt64, places: nat)
    requires value * Pow2(places) < TWO_TO_THE_64
    ensures ShiftLeft64(value, places) == value * Pow2(places)
  {
    var shifted: nat := value * Pow2(places);
    assert shifted % TWO_TO_THE_64 == shifted;
  }

  // ---- Theorems ----

  lemma VerdictIsUnique(r: DecodeResult, s: DecodeResult, bytes: seq<Byte>)
    requires Describes(r, bytes) && Describes(s, bytes)
    ensures r == s
  {
    if r.Complete? && s.Complete? {
      assert r.nextOffset == s.nextOffset;
    }
  }

  /** A complete or malformed verdict is final: bytes appended later cannot change it. */
  lemma VerdictIsStable(bytes: seq<Byte>, suffix: seq<Byte>)
    requires !Decode(bytes).Incomplete?
    ensures Decode(bytes + suffix) == Decode(bytes)
  {
    var r := Decode(bytes);
    if r.Complete? {
      assert (bytes + suffix)[..r.nextOffset] == bytes[..r.nextOffset];
    }
    assert forall i :: 0 <= i < |bytes| ==> (bytes + suffix)[i] == bytes[i];
    assert Describes(r, bytes + suffix);
    VerdictIsUnique(r, Decode(bytes + suffix), bytes + suffix);
  }

  lemma {:induction false} VarintBytesShape(value: nat)
    ensures TerminatesAt(VarintBytes(value), |VarintBytes(value)|)
    ensures DigitSum(VarintBytes(value)) == value
    ensures |VarintBytes(value)| > 1 ==> VarintBytes(value)[|VarintBytes(value)| - 1] > 0
    decreases value
  {
    var bytes := VarintBytes(value);
    if value < 0x80 {
      assert bytes[1..] == [];
    } else {
      var rest := VarintBytes(value / 0x80);
      VarintBytesShape(value / 0x80);
      assert bytes == [value % 0x80 + 0x80] + rest;
      assert bytes[1..] == rest;
      assert bytes[0] % 0x80 == value % 0x80;
    }
  }

  lemma {:induction false} VarintBytesLength(value: nat, k: nat)
    requires value < Weight(k)
    requires k >= 1
    ensures |VarintBytes(value)| <= k
    decreases k
  {
    if value >= 0x80 {
      assert Weight(k) == 0x80 * Weight(k - 1);
      VarintBytesLength(value / 0x80, k - 1);
    }
  }

  /** The canonical encoding is one the decoder accepts whole. */
  lemma VarintBytesComplete(value: UInt64)
    ensures IsComplete(VarintBytes(value), value, |VarintBytes(value)|)
  {
    var bytes := VarintBytes(value);
    VarintBytesShape(value);
    WeightOfLastDigit();
    assert Weight(10) == 0x80 * Weight(9);
    VarintBytesLength(value, 10);
    assert bytes[..|bytes|] == bytes;
    if |bytes| == MAX_VARINT_BYTES {
      var low, last := bytes[..9], bytes[9];
      assert bytes == low + [last];
      DigitSumAppend(low, last);
      FactorBelowTwo(DigitSum(low), last, Weight(9));
    }
  }

  lemma FactorBelowTwo(low: nat, factor: nat, unit: nat)
    requires low + factor * unit < 2 * unit
    ensures factor <= 1
  {
    assert factor >= 2 ==> factor * unit >= 2 * unit;
  }

  /** Round trip with any bytes following: the value and the exact encoded length come
      back, and no strict prefix of the encoding yields a verdict. */
  lemma VarintRoundTrip(value: UInt64, suffix: seq<Byte>)
    ensures var n := |VarintBytes(value)|;
            && 1 <= n <= MAX_VARINT_BYTES
            && Decode(VarintBytes(value) + suffix) == Complete(value, n)
            && forall k :: 0 <= k < n ==> Decode(VarintBytes(value)[..k]) == Incomplete
  {
    var bytes := VarintBytes(value);
    VarintBytesComplete(value);
    VerdictIsUnique(Complete(value, |bytes|), Decode(bytes), bytes);
    VerdictIsStable(bytes, suffix);
    forall k | 0 <= k < |bytes|
      ensures Decode(bytes[..k]) == Incomplete
    {
      VerdictIsUnique(Incomplete, Decode(bytes[..k]), bytes[..k]);
    }
  }

  /** No accepted byte string for a value is shorter than its encoding, and none as short is
      different. */
  lemma EncodingIsShortest(bytes: seq<Byte>, value: UInt64, n: nat)
    requires IsComplete(bytes, value, n)
    ensures |VarintBytes(value)| <= n
    ensures |VarintBytes(value)| == n ==> bytes[..n] == VarintBytes(value)
  {
    DigitSumBound(bytes[..n]);
    VarintBytesLength(value, n);
    if |VarintBytes(value)| == n {
      VarintBytesShape(value);
      SameDigits(bytes[..n], VarintBytes(value));
    }
  }

  /** Two digit strings of one shape and value are the same. */
  lemma {:induction false} SameDigits(a: seq<Byte>, b: seq<Byte>)
    requires |a| == |b| && DigitSum(a) == DigitSum(b)
    requires TerminatesAt(a, |a|) && TerminatesAt(b, |b|)
    ensures a == b
    decreases |a|
  {
    var restA, restB := DigitSum(a[1..]), DigitSum(b[1..]);
    assert a[0] % 0x80 + 0x80 * restA == b[0] % 0x80 + 0x80 * restB;
    assert a[0] % 0x80 == b[0] % 0x80 && restA == restB;
    if |a| > 1 {
      assert forall i :: 0 <= i < |a| - 1 ==> a[1..][i] == a[i + 1] && b[1..][i] == b[i + 1];
      SameDigits(a[1..], b[1..]);
    }
    assert a == [a[0]] + a[1..] && b == [b[0]] + b[1..];
  }
}
