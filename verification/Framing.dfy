/** Length-delimited frames: a varint length, then that many payload bytes. The protobuf
    parser and serializer are parameters, collected in a `Codec`. */
module Framing {
  import opened Machine
  import Varint

  datatype Option<+T> = None | Some(value: T)

  datatype Failure<+E> =
    | FrameSizeLimitExceeded(limit: int, actual: int)
    | MalformedVarint
    | TruncatedPayload(expected: int, got: int)
    | IncompleteLengthPrefix(buffered: int)
    | Foreign(error: E)  // thrown by the protobuf library

  datatype Result<+T, +E> = Ok(value: T) | Err(error: E)

  /** The message library: a parser and a serializer, either of which may throw. */
  datatype Codec<!M, !E> = Codec(
    parse: seq<Byte> -> Result<M, E>,
    serialize: M -> Result<seq<Byte>, E>)

  /** The parser inverts the serializer on every message that serializes. */
  ghost predicate Inverts<M(!new), E>(codec: Codec<M, E>) {
    forall m: M :: codec.serialize(m).Ok? ==> codec.parse(codec.serialize(m).value) == Ok(m)
  }

  /** `checkedFrameLength` */
  function CheckedFrameLength<E>(length: UInt64, maxFrameSize: Int64): (r: Result<nat, Failure<E>>)
    ensures r.Ok? <==> length <= maxFrameSize
    ensures r.Ok? ==> r.value == length
    ensures r.Err? ==> r.error == FrameSizeLimitExceeded(maxFrameSize, Min(length, 0x7fff_ffff_ffff_ffff))
  {
    var actual := if length > INT_MAX then INT_MAX else length;
    if maxFrameSize >= 0 && length <= maxFrameSize then Ok(actual)
    else Err(FrameSizeLimitExceeded(maxFrameSize, actual))
  }

  // ---- One frame at the front of a buffer ----

  datatype Step<+M, +E> =
    | NeedMore
    | Frame(message: M, size: nat)
    | Broken(failure: Failure<E>)

  /** What the bytes at the front of `buffer` amount to. */
  function NextFrame<M, E>(codec: Codec<M, E>, maxFrameSize: Int64, buffer: seq<Byte>): (s: Step<M, E>)
    ensures s.Frame? ==> 1 <= s.size <= |buffer|
    ensures s.NeedMore? ==> |buffer| <= Max(maxFrameSize, 0) + 9
  {
    match Varint.Decode(buffer)
    case Incomplete => NeedMore
    case Malformed => Broken(MalformedVarint)
    case Complete(length, start) =>
      match CheckedFrameLength<E>(length, maxFrameSize)
      case Err(failure) => Broken(failure)
      case Ok(size) =>
        if |buffer| - start < size then NeedMore
        else
          match codec.parse(buffer[start..start + size])
          case Err(e) => Broken(Foreign(e))
          case Ok(m) => Frame(m, start + size)
  }

  /** The buffer opens with a length within the limit and that many bytes, `payload`. */
  ghost predicate Holds(maxFrameSize: Int64, buffer: seq<Byte>, payload: seq<Byte>, start: nat) {
    && |payload| <= maxFrameSize && Varint.IsComplete(buffer, |payload|, start)
    && start + |payload| <= |buffer| && buffer[start..start + |payload|] == payload
  }

  /** Exactly which buffers read as what. A frame is a whole payload that parses; a fault is
      a malformed length, one over the limit, or a payload that does not parse; more bytes
      are needed while the length or a payload within the limit is not all there. */
  lemma NextFrameExactly<M(!new), E(!new)>(codec: Codec<M, E>, maxFrameSize: Int64, buffer: seq<Byte>)
    ensures var s := NextFrame(codec, maxFrameSize, buffer);
            && (s.NeedMore? <==>
                  || Varint.IsIncomplete(buffer)
                  || exists length: UInt64, start: nat ::
                       Varint.IsComplete(buffer, length, start) && |buffer| - start < length <= maxFrameSize)
            && (s == Broken(MalformedVarint) <==> Varint.IsMalformed(buffer))
            && (forall limit, actual :: s == Broken(FrameSizeLimitExceeded(limit, actual)) <==>
                  && limit == maxFrameSize
                  && exists length: UInt64, start: nat ::
                       Varint.IsComplete(buffer, length, start) && length > maxFrameSize
                       && actual == Min(length, 0x7fff_ffff_ffff_ffff))
            && (forall e :: s == Broken(Foreign(e)) <==>
                  exists payload, start: nat :: Holds(maxFrameSize, buffer, payload, start) && codec.parse(payload) == Err(e))
            && (forall m, size :: s == Frame(m, size) <==>
                  exists payload, start: nat :: Holds(maxFrameSize, buffer, payload, start)
                                           && codec.parse(payload) == Ok(m) && size == start + |payload|)
  {
    var verdict := Varint.Decode(buffer);
    forall length: UInt64, start: nat | Varint.IsComplete(buffer, length, start)
      ensures verdict == Varint.Complete(length, start)
    {
      Varint.VerdictIsUnique(Varint.Complete(length, start), verdict, buffer);
    }
    if Varint.IsIncomplete(buffer) { Varint.VerdictIsUnique(Varint.Incomplete, verdict, buffer); }
    if Varint.IsMalformed(buffer) { Varint.VerdictIsUnique(Varint.Malformed, verdict, buffer); }
    if verdict.Complete? && verdict.value <= maxFrameSize && verdict.nextOffset + verdict.value <= |buffer| {
      var start, payload := verdict.nextOffset, buffer[verdict.nextOffset..verdict.nextOffset + verdict.value];
      assert Holds(maxFrameSize, buffer, payload, start);
    }
  }

  /** Once the front of a buffer holds a frame or a fault, later bytes cannot change it. */
  lemma NextFrameIsStable<M, E>(codec: Codec<M, E>, maxFrameSize: Int64, buffer: seq<Byte>, more: seq<Byte>)
    requires !NextFrame(codec, maxFrameSize, buffer).NeedMore?
    ensures NextFrame(codec, maxFrameSize, buffer + more) == NextFrame(codec, maxFrameSize, buffer)
  {
    Varint.VerdictIsStable(buffer, more);
    match Varint.Decode(buffer)
    case Malformed =>
    case Complete(length, start) =>
      match CheckedFrameLength<E>(length, maxFrameSize)
      case Err(_) =>
      case Ok(size) =>
        assert (buffer + more)[start..start + size] == buffer[start..start + size];
  }

  // ---- Encoding and one-shot decoding ----

  /** The bytes that stand for a message on the wire, or why it cannot be sent. */
  function FramedBytes<M, E>(codec: Codec<M, E>, maxFrameSize: Int64, message: M): Result<seq<Byte>, Failure<E>> {
    match codec.serialize(message)
    case Err(e) => Err(Foreign(e))
    case Ok(payload) =>
      if |payload| > maxFrameSize then Err(FrameSizeLimitExceeded(maxFrameSize, |payload|))
      else Ok(Varint.VarintBytes(|payload|) + payload)
  }

  /** A message that serializes within the limit is framed: its exact length, encoded as
      briefly as can be, then its payload. A serializer's error comes out as itself, and a
      payload over the limit as the error naming both. */
  ghost predicate Frames<M, E>(codec: Codec<M, E>, maxFrameSize: Int64, message: M, r: Result<seq<Byte>, Failure<E>>) {
    match codec.serialize(message)
    case Err(e) => r == Err(Foreign(e))
    case Ok(payload) =>
      if |payload| > maxFrameSize then r == Err(FrameSizeLimitExceeded(maxFrameSize, |payload|))
      else
        && r.Ok? && |payload| < |r.value|
        && r.value[|r.value| - |payload|..] == payload
        && Varint.IsComplete(r.value[..|r.value| - |payload|], |payload|, |r.value| - |payload|)
        && (forall bytes: seq<Byte>, n: nat :: Varint.IsComplete(bytes, |payload|, n) ==> |r.value| - |payload| <= n)
  }

  lemma PrefixIsShortest(payload: seq<Byte>)
    requires |payload| <= INT_MAX
    ensures var prefix := Varint.VarintBytes(|payload|);
            && (prefix + payload)[..|prefix|] == prefix && (prefix + payload)[|prefix|..] == payload
            && Varint.IsComplete(prefix, |payload|, |prefix|)
            && forall bytes: seq<Byte>, n: nat :: Varint.IsComplete(bytes, |payload|, n) ==> |prefix| <= n
  {
    Varint.VarintBytesComplete(|payload|);
    forall bytes: seq<Byte>, n: nat | Varint.IsComplete(bytes, |payload|, n)
      ensures |Varint.VarintBytes(|payload|)| <= n
    {
      Varint.EncodingIsShortest(bytes, |payload|, n);
    }
  }

  lemma FramedBytesAreFramed<M, E>(codec: Codec<M, E>, maxFrameSize: Int64, message: M)
    ensures Frames(codec, maxFrameSize, message, FramedBytes(codec, maxFrameSize, message))
  {
    var serialized := codec.serialize(message);
    if serialized.Ok? && |serialized.value| <= maxFrameSize { PrefixIsShortest(serialized.value); }
  }

  /** `SRUIFraming.encodeFramed` */
  method EncodeFramed<M, E>(codec: Codec<M, E>, maxFrameSize: Int64, message: M)
    returns (r: Result<seq<Byte>, Failure<E>>)
    ensures r == FramedBytes(codec, maxFrameSize, message)
    ensures Frames(codec, maxFrameSize, message, r)
  {
    FramedBytesAreFramed(codec, maxFrameSize, message);
    var serialized := codec.serialize(message);
    if serialized.Err? {
      return Err(Foreign(serialized.error));
    }
    var payload := serialized.value;
    if |payload| > maxFrameSize {
      return Err(FrameSizeLimitExceeded(maxFrameSize, |payload|));
    }
    var framed := Varint.EncodeVarint(|payload|, []);
    assert framed == Varint.VarintBytes(|payload|);
    return Ok(framed + payload);
  }

  /** `SRUIFraming.decodeFramed` */
  method DecodeFramed<M, E>(codec: Codec<M, E>, maxFrameSize: Int64, data: seq<Byte>)
    returns (r: Result<M, Failure<E>>)
    // Agrees with the stream's view of the same bytes; what the stream would wait for is
    // an error here, naming what is missing.
    ensures match NextFrame(codec, maxFrameSize, data)
            case Frame(m, _) => r == Ok(m)
            case Broken(failure) => r == Err(failure)
            case NeedMore =>
              if Varint.Decode(data).Incomplete? then r == Err(IncompleteLengthPrefix(|data|))
              else r.Err? && r.error.TruncatedPayload?
                   && r.error.expected == Varint.Decode(data).value
                   && r.error.got == |data| - Varint.Decode(data).nextOffset < r.error.expected
  {
    var prefix := Varint.DecodeVarintIfComplete(data, 0);
    assert data[0..] == data;
    match prefix
    case Malformed => return Err(MalformedVarint);
    case Incomplete => return Err(IncompleteLengthPrefix(|data|));
    case Complete(length, payloadStart) =>
      match CheckedFrameLength<E>(length, maxFrameSize) {
        case Err(failure) => return Err(failure);
        case Ok(payloadLength) =>
          var available := |data| - payloadStart;
          if available < payloadLength {
            return Err(TruncatedPayload(payloadLength, available));
          }
          match codec.parse(data[payloadStart..payloadStart + payloadLength]) {
            case Err(e) => return Err(Foreign(e));
            case Ok(m) => return Ok(m);
          }
      }
  }

  /** Any bytes may follow an encoded frame: its message and exact size come back. */
  lemma FrameRoundTrip<M(!new), E>(codec: Codec<M, E>, maxFrameSize: Int64, message: M, suffix: seq<Byte>)
    requires Inverts(codec)
    requires FramedBytes(codec, maxFrameSize, message).Ok?
    ensures var frame := FramedBytes(codec, maxFrameSize, message).value;
            NextFrame(codec, maxFrameSize, frame + suffix) == Frame(message, |frame|)
  {
    var payload := codec.serialize(message).value;
    PayloadIsFramed(codec, maxFrameSize, payload, suffix);
    assert FramedBytes(codec, maxFrameSize, message).value + suffix
        == Varint.VarintBytes(|payload|) + (payload + suffix);
  }

  lemma PayloadIsFramed<M, E>(codec: Codec<M, E>, maxFrameSize: Int64, payload: seq<Byte>, suffix: seq<Byte>)
    requires |payload| <= maxFrameSize && codec.parse(payload).Ok?
    ensures NextFrame(codec, maxFrameSize, Varint.VarintBytes(|payload|) + (payload + suffix))
         == Frame(codec.parse(payload).value, |Varint.VarintBytes(|payload|)| + |payload|)
  {
    var prefix := Varint.VarintBytes(|payload|);
    var whole := prefix + (payload + suffix);
    Varint.VarintRoundTrip(|payload|, payload + suffix);
    assert Varint.Decode(whole) == Varint.Complete(|payload|, |prefix|);
    assert whole[|prefix|..|prefix| + |payload|] == payload;
  }
}
