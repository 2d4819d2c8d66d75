/** The stateful decoder that turns transport chunks into messages. */
module StreamDecoder {
  import opened Machine
  import opened Framing
  import Varint

  /** Everything observable about decoding some bytes: the messages delivered (whether
      returned or carried by the thrown error), the failure if any, the bytes retained. */
  datatype Outcome<+M, +E> = Outcome(
    messages: seq<M>, failure: Option<Failure<E>>, retained: seq<Byte>)

  function Deliver<M, E>(earlier: seq<M>, o: Outcome<M, E>): Outcome<M, E> {
    o.(messages := earlier + o.messages)
  }

  lemma DeliverTwice<M, E>(a: seq<M>, b: seq<M>, o: Outcome<M, E>)
    ensures Deliver(a, Deliver(b, o)) == Deliver(a + b, o)
  {
    assert a + (b + o.messages) == (a + b) + o.messages;
  }

  // ---- Peeling with any frame reader ----

  /** A frame reader says what the front of a buffer amounts to. */
  type Reader<!M, !E> = seq<Byte> -> Step<M, E>

  ghost predicate Sized<M(!new), E(!new)>(next: Reader<M, E>) {
    forall b :: next(b).Frame? ==> 1 <= next(b).size <= |b|
  }

  /** Bytes arriving later never change a frame or a fault already seen. */
  ghost predicate Stable<M(!new), E(!new)>(next: Reader<M, E>) {
    forall a, b :: !next(a).NeedMore? ==> next(a + b) == next(a)
  }

  /** Reference semantics: peel frames off the front until more bytes are needed or the
      stream is broken, in which case nothing is retained. */
  function Peel<M(!new), E(!new)>(next: Reader<M, E>, bytes: seq<Byte>): Outcome<M, E>
    requires Sized(next)
    decreases |bytes|
  {
    match next(bytes)
    case NeedMore => Outcome([], None, bytes)
    case Broken(failure) => Outcome([], Some(failure), [])
    case Frame(m, size) => Deliver([m], Peel(next, bytes[size..]))
  }

  /** One turn of the decoding loop: `whole` is what is left to peel after `messages`. */
  lemma PeelTurn<M(!new), E(!new)>(next: Reader<M, E>, rest: seq<Byte>, messages: seq<M>, step: Step<M, E>, whole: Outcome<M, E>)
    requires Sized(next) && step == next(rest)
    requires whole == Deliver(messages, Peel(next, rest))
    ensures step.NeedMore? ==> whole == Outcome(messages, None, rest)
    ensures step.Broken? ==> whole == Outcome(messages, Some(step.failure), [])
    ensures step.Frame? ==>
              step.size <= |rest| && whole == Deliver(messages + [step.message], Peel(next, rest[step.size..]))
  {
    if step.Frame? {
      DeliverTwice(messages, [step.message], Peel(next, rest[step.size..]));
    }
  }

  /** What peeling leaves behind holds no further frame. */
  lemma {:induction false} RetainedIsStuck<M(!new), E(!new)>(next: Reader<M, E>, bytes: seq<Byte>)
    requires Sized(next) && Peel(next, bytes).failure.None?
    ensures next(Peel(next, bytes).retained).NeedMore?
    decreases |bytes|
  {
    if next(bytes).Frame? {
      RetainedIsStuck(next, bytes[next(bytes).size..]);
    }
  }

  /** Splitting the input in two: peel the first part, then what it retained followed by
      the second part. A failure in the first part is already the whole answer. */
  lemma {:induction false} SplitInTwo<M(!new), E(!new)>(next: Reader<M, E>, a: seq<Byte>, b: seq<Byte>)
    requires Sized(next) && Stable(next)
    ensures var first := Peel(next, a);
            Peel(next, a + b) ==
              if first.failure.Some? then first
              else Deliver(first.messages, Peel(next, first.retained + b))
    decreases |a|
  {
    var s := next(a);
    if s.NeedMore? {
    } else if s.Broken? {
      assert next(a + b) == s;
    } else {
      assert next(a + b) == s;
      SplitInTwo(next, a[s.size..], b);
      assert (a + b)[s.size..] == a[s.size..] + b;
      var first := Peel(next, a[s.size..]);
      DeliverTwice([s.message], first.messages, Peel(next, first.retained + b));
    }
  }

  function Concat<T>(parts: seq<seq<T>>): seq<T> {
    if parts == [] then [] else parts[0] + Concat(parts[1..])
  }

  /** Peeling chunk by chunk, from `buffer`, until a chunk fails. */
  function PeelChunks<M(!new), E(!new)>(next: Reader<M, E>, buffer: seq<Byte>, chunks: seq<seq<Byte>>): Outcome<M, E>
    requires Sized(next)
    decreases |chunks|
  {
    if chunks == [] then Outcome([], None, buffer)
    else
      var first := Peel(next, buffer + chunks[0]);
      if first.failure.Some? then first
      else Deliver(first.messages, PeelChunks(next, first.retained, chunks[1..]))
  }

  lemma {:induction false} PeelChunksIsPeel<M(!new), E(!new)>(next: Reader<M, E>, buffer: seq<Byte>, chunks: seq<seq<Byte>>)
    requires Sized(next) && Stable(next)
    requires next(buffer).NeedMore?
    ensures PeelChunks(next, buffer, chunks) == Peel(next, buffer + Concat(chunks))
    decreases |chunks|
  {
    if chunks == [] {
      assert buffer + [] == buffer;
    } else {
      SplitInTwo(next, buffer + chunks[0], Concat(chunks[1..]));
      assert buffer + Concat(chunks) == (buffer + chunks[0]) + Concat(chunks[1..]);
      var first := Peel(next, buffer + chunks[0]);
      if first.failure.None? {
        RetainedIsStuck(next, buffer + chunks[0]);
        PeelChunksIsPeel(next, first.retained, chunks[1..]);
      }
    }
  }

  /** `frames[i]` is exactly one frame, holding `messages[i]`. */
  ghost predicate FramesCarry<M(!new), E(!new)>(next: Reader<M, E>, frames: seq<seq<Byte>>, messages: seq<M>) {
    && |frames| == |messages|
    && forall i :: 0 <= i < |frames| ==> next(frames[i]) == Frame(messages[i], |frames[i]|)
  }

  /** A frame reads the same with everything after it removed. */
  ghost predicate StandAlone<M(!new), E(!new)>(next: Reader<M, E>)
    requires Sized(next)
  {
    forall b :: next(b).Frame? ==> next(b[..next(b).size]) == next(b)
  }

  lemma {:induction false} PeelConserves<M(!new), E(!new)>(next: Reader<M, E>, bytes: seq<Byte>)
      returns (frames: seq<seq<Byte>>, rest: seq<Byte>)
    requires Sized(next) && StandAlone(next)
    ensures FramesCarry(next, frames, Peel(next, bytes).messages)
    ensures bytes == Concat(frames) + rest
    ensures Stops(next, rest, Peel(next, bytes))
    decreases |bytes|
  {
    var s := next(bytes);
    if !s.Frame? {
      frames, rest := [], bytes;
      assert bytes == Concat<Byte>([]) + bytes;
    } else {
      var frame, tail := bytes[..s.size], bytes[s.size..];
      var later;
      later, rest := PeelConserves(next, tail);
      frames := [frame] + later;
      assert next(frame) == s;
      assert bytes == frame + tail;
      ConcatCons(frame, later, rest);
      CarryCons(next, frame, s.message, later, Peel(next, tail).messages);
    }
  }

  /** Decoding stopped at `rest`: for want of bytes, which are then what is retained, or at
      the fault it reports, and then nothing is retained. */
  ghost predicate Stops<M(!new), E(!new)>(next: Reader<M, E>, rest: seq<Byte>, o: Outcome<M, E>) {
    match next(rest)
    case NeedMore => o.failure == None && o.retained == rest
    case Broken(failure) => o.failure == Some(failure) && o.retained == []
    case Frame(_, _) => false
  }

  lemma CarryCons<M(!new), E(!new)>(next: Reader<M, E>, frame: seq<Byte>, m: M, later: seq<seq<Byte>>, messages: seq<M>)
    requires FramesCarry(next, later, messages) && next(frame) == Frame(m, |frame|)
    ensures FramesCarry(next, [frame] + later, [m] + messages)
  {}

  lemma ConcatCons<T>(head: seq<T>, tail: seq<seq<T>>, after: seq<T>)
    ensures Concat([head] + tail) + after == head + (Concat(tail) + after)
  {
    assert ([head] + tail)[1..] == tail;
  }

  // ---- The wire format's frame reader ----

  function FrameReader<M(!new), E(!new)>(codec: Codec<M, E>, max: Int64): (next: Reader<M, E>)
    ensures Sized(next)
  {
    b => NextFrame(codec, max, b)
  }

  lemma FrameReaderIsStable<M(!new), E(!new)>(codec: Codec<M, E>, max: Int64)
    ensures Stable(FrameReader(codec, max))
  {
    var next := FrameReader(codec, max);
    forall a, b | !next(a).NeedMore? ensures next(a + b) == next(a) {
      NextFrameIsStable(codec, max, a, b);
    }
  }

  /** The outcome of a decoder given all of `bytes` at once. */
  function DecodeAll<M(!new), E(!new)>(codec: Codec<M, E>, max: Int64, bytes: seq<Byte>): Outcome<M, E> {
    Peel(FrameReader(codec, max), bytes)
  }

  /** The outcome of one decoder fed `chunks` call by call, up to the first failing call. */
  function FeedChunks<M(!new), E(!new)>(codec: Codec<M, E>, max: Int64, chunks: seq<seq<Byte>>): Outcome<M, E> {
    PeelChunks(FrameReader(codec, max), [], chunks)
  }

  /** `SRUIMessageStreamDecoder` */
  class SRUIMessageStreamDecoder<M(!new), E(!new)> {
    const codec: Codec<M, E>
    const maxFrameSize: Int64
    var buffer: seq<Byte>

    constructor (codec: Codec<M, E>, maxFrameSize: Int64)
      ensures this.codec == codec && this.maxFrameSize == maxFrameSize && buffer == []
    {
      this.codec := codec;
      this.maxFrameSize := maxFrameSize;
      buffer := [];
    }

    /** `appendAndExtract`: `failure` is `None` on a normal return and the error's
        `underlying` on a throw, whose `decodedMessages` are then `messages`. */
    method AppendAndExtract(incoming: seq<Byte>) returns (messages: seq<M>, failure: Option<Failure<E>>)
      modifies this
      ensures Outcome(messages, failure, buffer) == DecodeAll(codec, maxFrameSize, old(buffer) + incoming)
    {
      buffer := buffer + incoming;
      EmptyNeedsMore(codec, maxFrameSize);
      messages, failure := ExtractFrames(FrameReader(codec, maxFrameSize));
    }

    /** `next` describes what this decoder's buffer reads as. */
    ghost predicate Reads(next: Reader<M, E>) {
      forall b {:trigger NextFrame(codec, maxFrameSize, b)} :: next(b) == NextFrame(codec, maxFrameSize, b)
    }

    /** The loop of `appendAndExtract`, over a buffer already extended. */
    method ExtractFrames(ghost next: Reader<M, E>) returns (messages: seq<M>, failure: Option<Failure<E>>)
      requires Sized(next) && Reads(next) && next([]).NeedMore?
      modifies this
      ensures Outcome(messages, failure, buffer) == Peel(next, old(buffer))
    {
      messages := [];
      ghost var whole := Peel(next, buffer);
      ghost var rest := buffer;
      var frameStart := 0;
      while frameStart < |buffer|
        invariant frameStart <= |buffer| && buffer == old(buffer) && rest == buffer[frameStart..]
        invariant whole == Deliver(messages, Peel(next, rest))
      {
        var step := FrameAt(frameStart, next);
        PeelTurn(next, rest, messages, step, whole);
        if step.Broken? {
          buffer := [];
          return messages, Some(step.failure);
        }
        if step.NeedMore? {
          DiscardConsumedBytes(frameStart);
          return messages, None;
        }
        messages := messages + [step.message];
        frameStart := frameStart + step.size;
        rest := rest[step.size..];
      }
      assert rest == [];
      PeelTurn(next, rest, messages, NeedMore, whole);
      buffer := [];
      failure := None;
    }

    /** The body of the loop in `appendAndExtract`, up to the point where it returns,
        throws or has parsed a message. */
    method FrameAt(frameStart: nat, ghost next: Reader<M, E>) returns (step: Step<M, E>)
      requires frameStart <= |buffer| && Reads(next)
      ensures step == next(buffer[frameStart..])
    {
      assert next(buffer[frameStart..]) == NextFrame(codec, maxFrameSize, buffer[frameStart..]);
      var prefix := Varint.DecodeVarintIfComplete(buffer, frameStart);
      if prefix.Malformed? { return Broken(MalformedVarint); }
      if prefix.Incomplete? { return NeedMore; }
      var payloadStart := prefix.nextOffset;
      var checkedLength := CheckedFrameLength<E>(prefix.value, maxFrameSize);
      if checkedLength.Err? { return Broken(checkedLength.error); }
      var payloadLength := checkedLength.value;
      if |buffer| - payloadStart < payloadLength { return NeedMore; }
      var payloadEnd := payloadStart + payloadLength;
      assert buffer[payloadStart..payloadEnd]
          == buffer[frameStart..][payloadStart - frameStart..payloadEnd - frameStart];
      match codec.parse(buffer[payloadStart..payloadEnd])
      case Err(e) => return Broken(Foreign(e));
      case Ok(message) => return Frame(message, payloadEnd - frameStart);
    }

    method DiscardConsumedBytes(index: nat)
      requires index <= |buffer|
      modifies this
      ensures buffer == old(buffer)[index..]
    {
      if index > 0 {
        buffer := buffer[index..];
      }
    }
  }

  lemma EmptyNeedsMore<M, E>(codec: Codec<M, E>, max: Int64)
    ensures NextFrame(codec, max, []) == NeedMore
  {}

  // ---- Theorems about the decoder ----

  /** A client that hands chunks to a decoder until a call fails. */
  method FeedUntilFailure<M(!new), E(!new)>(decoder: SRUIMessageStreamDecoder<M, E>, chunks: seq<seq<Byte>>)
    returns (messages: seq<M>, failure: Option<Failure<E>>)
    requires decoder.buffer == []
    modifies decoder
    ensures Outcome(messages, failure, decoder.buffer)
         == DecodeAll(decoder.codec, decoder.maxFrameSize, Concat(chunks))
  {
    ghost var next := FrameReader(decoder.codec, decoder.maxFrameSize);
    messages, failure := [], None;
    assert chunks[0..] == chunks;
    for k := 0 to |chunks|
      invariant failure == None
      invariant PeelChunks(next, [], chunks) == Deliver(messages, PeelChunks(next, decoder.buffer, chunks[k..]))
    {
      ghost var before := decoder.buffer;
      var more: seq<M>;
      more, failure := decoder.AppendAndExtract(chunks[k]);
      assert chunks[k..][0] == chunks[k] && chunks[k..][1..] == chunks[k + 1..];
      if failure.None? {
        DeliverTwice(messages, more, PeelChunks(next, decoder.buffer, chunks[k + 1..]));
      }
      messages := messages + more;
      if failure.Some? { break; }
    }
    ChunkingInvariance(decoder.codec, decoder.maxFrameSize, chunks);
  }

  /** For every byte stream and every way to cut it into chunks, the messages up to the
      first failure, the failure and the retained bytes are those of a single call on the
      whole stream. */
  lemma ChunkingInvariance<M(!new), E(!new)>(codec: Codec<M, E>, max: Int64, chunks: seq<seq<Byte>>)
    ensures FeedChunks(codec, max, chunks) == DecodeAll(codec, max, Concat(chunks))
  {
    EmptyNeedsMore(codec, max);
    FrameReaderIsStable(codec, max);
    PeelChunksIsPeel(FrameReader(codec, max), [], chunks);
    assert [] + Concat(chunks) == Concat(chunks);
  }

  ghost predicate AllEncode<M, E>(codec: Codec<M, E>, max: Int64, messages: seq<M>) {
    forall i :: 0 <= i < |messages| ==> FramedBytes(codec, max, messages[i]).Ok?
  }

  ghost function EncodeAll<M, E>(codec: Codec<M, E>, max: Int64, messages: seq<M>): seq<Byte>
    requires AllEncode(codec, max, messages)
  {
    if messages == [] then []
    else FramedBytes(codec, max, messages[0]).value + EncodeAll(codec, max, messages[1..])
  }

  lemma {:induction false} DecodesWhatWasEncoded<M(!new), E(!new)>(codec: Codec<M, E>, max: Int64, messages: seq<M>)
    requires Inverts(codec) && AllEncode(codec, max, messages)
    ensures DecodeAll(codec, max, EncodeAll(codec, max, messages)) == Outcome(messages, None, [])
    decreases |messages|
  {
    var bytes := EncodeAll(codec, max, messages);
    if messages == [] {
      EmptyNeedsMore(codec, max);
    } else {
      var frame := FramedBytes(codec, max, messages[0]).value;
      var rest := EncodeAll(codec, max, messages[1..]);
      FrameRoundTrip(codec, max, messages[0], rest);
      DecodesWhatWasEncoded(codec, max, messages[1..]);
      assert bytes[|frame|..] == rest;
      assert [messages[0]] + messages[1..] == messages;
    }
  }

  /** Any list of messages, encoded, concatenated and cut anywhere, is delivered exactly,
      leaving an empty buffer. */
  lemma StreamRoundTrip<M(!new), E(!new)>(codec: Codec<M, E>, max: Int64, messages: seq<M>, chunks: seq<seq<Byte>>)
    requires Inverts(codec) && AllEncode(codec, max, messages)
    requires Concat(chunks) == EncodeAll(codec, max, messages)
    ensures FeedChunks(codec, max, chunks) == Outcome(messages, None, [])
  {
    ChunkingInvariance(codec, max, chunks);
    DecodesWhatWasEncoded(codec, max, messages);
  }

  lemma FrameStandsAlone<M, E>(codec: Codec<M, E>, max: Int64, bytes: seq<Byte>)
    requires NextFrame(codec, max, bytes).Frame?
    ensures var s := NextFrame(codec, max, bytes);
            NextFrame(codec, max, bytes[..s.size]) == s
  {
    var s := NextFrame(codec, max, bytes);
    var frame := bytes[..s.size];
    var start := Varint.Decode(bytes).nextOffset;
    assert frame[..start] == bytes[..start];
    assert forall i :: 0 <= i < start ==> frame[i] == bytes[i];
    assert Varint.IsComplete(frame, Varint.Decode(bytes).value, start);
    Varint.VerdictIsUnique(Varint.Decode(bytes), Varint.Decode(frame), frame);
    assert frame[start..s.size] == bytes[start..s.size];
  }

  /** After any call, the bytes that came in are the emitted frames, in order, followed by
      the bytes at which decoding stopped: the buffer, of at most `max(max, 0) + 9` bytes, or
      else the very fault that is reported, and then the buffer is empty. */
  lemma BytesAreConserved<M(!new), E(!new)>(codec: Codec<M, E>, max: Int64, bytes: seq<Byte>)
      returns (frames: seq<seq<Byte>>, rest: seq<Byte>)
    ensures var o := DecodeAll(codec, max, bytes);
            && FramesCarry(FrameReader(codec, max), frames, o.messages)
            && bytes == Concat(frames) + rest
            && Stops(FrameReader(codec, max), rest, o)
            && |o.retained| <= Max(max, 0) + 9
  {
    var next := FrameReader(codec, max);
    forall b | next(b).Frame? ensures next(b[..next(b).size]) == next(b) {
      FrameStandsAlone(codec, max, b);
    }
    frames, rest := PeelConserves(next, bytes);
  }
}
