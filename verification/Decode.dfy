/**
  * The resumable frame decoder as a function of its state and the buffered octets:
  * src/protocol/frame/codec/decode.rs.
  */
module Decode {
  import opened Prelude
  import opened Coding
  import opened Errors
  import opened Mask
  import opened Frame

  datatype Decoder = Decoder(
    header: Option<(FrameHeader, nat)>, maxFrameSize: Option<nat>, unmask: bool, acceptUnmasked: bool)

  datatype Decoded = Insufficient | InsufficientAtLeast(n: nat) | Item(frame: Frame) | Failure(error: Error)

  datatype Decoding = Decoding(after: Decoder, rest: bytes, out: Decoded)

  predicate Within(size: nat, limit: Option<nat>) {
    limit.Some? ==> size <= limit.value
  }

  predicate NeedsInput(out: Decoded) {
    out.Insufficient? || out.InsufficientAtLeast?
  }

  /** The frame handed on for header `h` and the `payload` octets found on the wire. */
  function Open(d: Decoder, h: FrameHeader, payload: bytes): (r: Decoded)
    ensures !NeedsInput(r)
  {
    if !d.unmask then Item(Frame(h, payload))
    else match h.mask
      case Some(key) => Item(Frame(h.(mask := None), Masked(payload, key)))
      case None =>
        if d.acceptUnmasked then Item(Frame(h, payload)) else Failure(Protocol(UnmaskedFrameFromClient))
  }

  function TakePayload(d: Decoder, src: bytes): (r: Decoding)
    requires d.header.Some?
    ensures |r.rest| <= |src| && r.rest == src[|src| - |r.rest|..]
  {
    var (h, length) := d.header.value;
    if |src| < length then Decoding(d, src, InsufficientAtLeast(length))
    else Decoding(d.(header := None), src[length..], Open(d, h, src[..length]))
  }

  /** One call of `decode`. */
  function DecodeOnce(d: Decoder, src: bytes): Decoding {
    if d.header.Some? then TakePayload(d, src)
    else match ParseHeader(src)
      case NeedMore => Decoding(d, src, Insufficient)
      case BadOpcode(code, _) => Decoding(d, src, Failure(Protocol(InvalidOpcode(code))))
      case Header(h, length, used) =>
        ParseBounds(src);
        if !Within(length, d.maxFrameSize) then
          Decoding(d, src[used..], Failure(MessageTooLong(length, d.maxFrameSize.value)))
        else TakePayload(d.(header := Some((h, length))), src[used..])
  }

  /** Octets, doubled, plus the header already taken: what every successful call makes smaller. */
  function Work(d: Decoder, src: bytes): nat {
    2 * |src| + if d.header.Some? then 1 else 0
  }

  /** Taking a payload that is there takes exactly it. */
  lemma PayloadTaken(d: Decoder, src: bytes)
    requires d.header.Some? && !NeedsInput(TakePayload(d, src).out)
    ensures var r := TakePayload(d, src);
            d.header.value.1 <= |src| && r.after == d.(header := None) && r.rest == src[d.header.value.1..]
  {
    hide Open;
  }

  lemma DecodeMakesProgress(d: Decoder, src: bytes)
    requires DecodeOnce(d, src).out.Item?
    ensures var r := DecodeOnce(d, src); r.after.header.None? && Work(r.after, r.rest) < Work(d, src)
  {
    hide ParseHeader, TakePayload, Work;
    if d.header.Some? {
      PayloadTaken(d, src);
      WorkShrinks(d, src, d.header.value.1);
    } else {
      ParseBounds(src);
      var p := ParseHeader(src);
      PayloadTaken(d.(header := Some((p.header, p.length))), src[p.used..]);
      assert src[p.used..][p.length..] == src[p.used + p.length..];
      WorkShrinks(d, src, p.used + p.length);
    }
  }

  lemma WorkShrinks(d: Decoder, src: bytes, n: nat)
    requires n <= |src| && (d.header.Some? || n > 0)
    ensures Work(d.(header := None), src[n..]) < Work(d, src)
  {
  }

  /** What one call leaves behind: configuration untouched, nothing lost and nothing reordered. */
  lemma DecodeKeeps(d: Decoder, src: bytes)
    ensures var r := DecodeOnce(d, src);
            && r.after.(header := None) == d.(header := None)
            && |r.rest| <= |src| && r.rest == src[|src| - |r.rest|..]
            && (r.out.Insufficient? ==>
                  r == Decoding(d, src, Insufficient) && d.header.None? && ParseHeader(src).NeedMore?)
            && (r.out.InsufficientAtLeast? ==>
                  && r.after.header.Some? && |r.rest| < r.after.header.value.1 == r.out.n
                  && (d.header.Some? ==> r.after == d && r.rest == src)
                  && (d.header.None? ==>
                        ParseHeader(src) == Header(r.after.header.value.0, r.out.n, |src| - |r.rest|)))
  {
    hide ParseHeader, Open;
    ParseBounds(src);
    if d.header.None? && ParseHeader(src).Header? {
      SuffixOfSuffix(src, ParseHeader(src).used, |DecodeOnce(d, src).rest|);
    }
  }

  lemma SuffixOfSuffix(src: bytes, used: nat, n: nat)
    requires used <= |src|
    ensures used + n <= |src| ==> src[used..][|src| - used - n..] == src[|src| - n..]
  {
  }

  /** Octets that arrive later change nothing a call has already decided. */
  lemma DecodeExtends(d: Decoder, src: bytes, more: bytes)
    ensures var r := DecodeOnce(d, src);
            if NeedsInput(r.out) then DecodeOnce(d, src + more) == DecodeOnce(r.after, r.rest + more)
            else DecodeOnce(d, src + more) == Decoding(r.after, r.rest + more, r.out)
  {
    hide ParseHeader, Open;
    if d.header.Some? {
      TakePayloadExtends(d, src, more);
    } else if !ParseHeader(src).NeedMore? {
      ParseIsPrefixStable(src);
      ParseExtends(src, more);
      var p := ParseHeader(src);
      assert (src + more)[p.used..] == src[p.used..] + more;
      if p.Header? && Within(p.length, d.maxFrameSize) {
        TakePayloadExtends(d.(header := Some((p.header, p.length))), src[p.used..], more);
      }
    }
  }

  lemma TakePayloadExtends(d: Decoder, src: bytes, more: bytes)
    requires d.header.Some?
    ensures var r := TakePayload(d, src);
            if NeedsInput(r.out) then r.after == d && r.rest == src
            else TakePayload(d, src + more) == r.(rest := r.rest + more)
  {
    hide Open;
    var n := d.header.value.1;
    if n <= |src| {
      assert (src + more)[..n] == src[..n] && (src + more)[n..] == src[n..] + more;
    }
  }

  /** A header already taken announces a payload within the limit. */
  predicate PendingWithin(d: Decoder) {
    d.header.Some? ==> Within(d.header.value.1, d.maxFrameSize)
  }

  /** No frame handed on has a payload over `max_frame_size`. */
  lemma DecodedWithinLimit(d: Decoder, src: bytes)
    requires PendingWithin(d)
    ensures var r := DecodeOnce(d, src);
            && PendingWithin(r.after) && r.after.maxFrameSize == d.maxFrameSize
            && (r.out.Item? ==> Within(|r.out.frame.payload|, d.maxFrameSize))
  {
    hide ParseHeader;
  }

  /** Reserved opcodes are stopped by the parser: no frame handed on has one. */
  lemma DecodedIsKnown(d: Decoder, src: bytes)
    requires d.header.Some? ==> !IsReserved(d.header.value.0.opcode)
    ensures var r := DecodeOnce(d, src);
            && (r.out.Item? ==> !IsReserved(r.out.frame.header.opcode))
            && (r.after.header.Some? ==> !IsReserved(r.after.header.value.0.opcode))
  {
    hide FromBigEndian, Low4, Low7, Bit7, Bit6, Bit5, Bit4, OpCodeFromByte, Masked, ForByte;
  }

  /**
    * What a failed call leaves: a bad opcode stays in front and fails again for ever, whatever arrives; a frame
    * that is too long loses its header only, so its payload is read as the next header; an unmasked frame a server
    * does not accept is gone as a whole. There is no other failure, and none with a header remembered but the last.
    */
  lemma AfterFailure(d: Decoder, src: bytes, more: bytes)
    requires DecodeOnce(d, src).out.Failure?
    ensures var r := DecodeOnce(d, src);
            var p := ParseHeader(src);
            && r.after == d.(header := None)
            && match r.out.error
               case Protocol(InvalidOpcode(code)) =>
                 && d.header.None? && p.BadOpcode? && p.code == code
                 && r.rest == src && DecodeOnce(r.after, r.rest + more).out == r.out
               case MessageTooLong(size, limit) =>
                 && d.header.None? && p.Header? && d.maxFrameSize == Some(limit)
                 && size == p.length > limit && r.rest == src[p.used..]
               case Protocol(UnmaskedFrameFromClient) =>
                 && d.unmask && !d.acceptUnmasked
                 && (if d.header.Some? then
                       d.header.value.0.mask.None? && d.header.value.1 <= |src| && r.rest == src[d.header.value.1..]
                     else
                       p.Header? && p.header.mask.None? && p.used + p.length <= |src|
                           && r.rest == src[p.used + p.length..])
               case _ => false
  {
    hide ParseHeader, Masked, TakePayload;
    DecodeExtends(d, src, more);
    if d.header.Some? {
      RefusedUnmasked(d, src);
    } else {
      ParseBounds(src);
      var p := ParseHeader(src);
      if p.Header? && Within(p.length, d.maxFrameSize) {
        RefusedUnmasked(d.(header := Some((p.header, p.length))), src[p.used..]);
        assert src[p.used..][p.length..] == src[p.used + p.length..];
      }
    }
  }

  lemma RefusedUnmasked(d: Decoder, src: bytes)
    requires d.header.Some? && TakePayload(d, src).out.Failure?
    ensures var r := TakePayload(d, src);
            && r.out.error == Protocol(UnmaskedFrameFromClient) && r.after == d.(header := None)
            && d.unmask && !d.acceptUnmasked && d.header.value.0.mask.None?
            && d.header.value.1 <= |src| && r.rest == src[d.header.value.1..]
  {
    hide Masked;
  }

  // ---- decoding a stream ----

  datatype Pumped = Pumped(frames: seq<Frame>, error: Option<Error>, after: Decoder, rest: bytes)

  function Prepend(frames: seq<Frame>, p: Pumped): Pumped {
    p.(frames := frames + p.frames)
  }

  /** Calls `decode` until it needs input or fails. */
  function Pump(d: Decoder, src: bytes): Pumped
    decreases Work(d, src)
  {
    var r := DecodeOnce(d, src);
    match r.out
    case Item(f) =>
      DecodeMakesProgress(d, src);
      Prepend([f], Pump(r.after, r.rest))
    case Failure(e) => Pumped([], Some(e), r.after, r.rest)
    case _ => Pumped([], None, r.after, r.rest)
  }

  /** Decoding can stop anywhere it needs input and go on when more has arrived. */
  lemma {:induction false} PumpExtends(d: Decoder, src: bytes, more: bytes)
    ensures var p := Pump(d, src);
            Pump(d, src + more) ==
            if p.error.Some? then p.(rest := p.rest + more) else Prepend(p.frames, Pump(p.after, p.rest + more))
    decreases Work(d, src)
  {
    hide DecodeOnce, Work;
    var r := DecodeOnce(d, src);
    DecodeExtends(d, src, more);
    match r.out {
      case Item(f) =>
        DecodeMakesProgress(d, src);
        PumpExtends(r.after, r.rest, more);
        var p := Pump(r.after, r.rest);
        if p.error.None? {
          var q := Pump(p.after, p.rest + more);
          assert [f] + (p.frames + q.frames) == [f] + p.frames + q.frames;
        }
      case Failure(e) =>
      case _ =>
        assert Prepend([], Pump(r.after, r.rest + more)) == Pump(r.after, r.rest + more);
    }
  }

  /** Octets arrive in chunks; each is appended to what is buffered and decoded as far as possible. */
  function PumpChunks(p: Pumped, chunks: seq<bytes>): Pumped
    decreases |chunks|
  {
    if chunks == [] || p.error.Some? then p
    else PumpChunks(Prepend(p.frames, Pump(p.after, p.rest + chunks[0])), chunks[1..])
  }

  /**
    * However a stream is split into chunks, decoding yields the frames, and the first error if any, of decoding
    * the whole stream at once; without an error the decoder also ends in the same state.
    */
  lemma ChunkingIndependence(d: Decoder, buffered: bytes, chunks: seq<bytes>)
    ensures var p := PumpChunks(Pump(d, buffered), chunks);
            var q := Pump(d, buffered + Concat(chunks));
            && p.frames == q.frames && p.error == q.error && p.after == q.after
            && (p.error.None? ==> p.rest == q.rest)
  {
    PumpChunksIsPump(d, buffered, Pump(d, buffered), chunks);
  }

  lemma {:induction false} PumpChunksIsPump(d: Decoder, seen: bytes, p: Pumped, chunks: seq<bytes>)
    requires p == Pump(d, seen)
    ensures var r := PumpChunks(p, chunks);
            var q := Pump(d, seen + Concat(chunks));
            && r.frames == q.frames && r.error == q.error && r.after == q.after
            && (r.error.None? ==> r.rest == q.rest)
    decreases |chunks|
  {
    hide DecodeOnce;
    if chunks == [] {
      assert seen + Concat(chunks) == seen;
    } else if p.error.Some? {
      PumpExtends(d, seen, Concat(chunks));
    } else {
      PumpExtends(d, seen, chunks[0]);
      PumpChunksIsPump(d, seen + chunks[0], Pump(d, seen + chunks[0]), chunks[1..]);
      assert seen + chunks[0] + Concat(chunks[1..]) == seen + Concat(chunks);
    }
  }

  // ---- decoding what was encoded ----

  /** What the decoder hands on for a frame the encoder wrote. */
  function Received(d: Decoder, f: Frame): Frame {
    if d.unmask then Frame(f.header.(mask := None), f.payload) else Frame(f.header, MaskedPayload(f))
  }

  function ReceivedAll(d: Decoder, frames: seq<Frame>): seq<Frame> {
    seq(|frames|, i requires 0 <= i < |frames| => Received(d, frames[i]))
  }

  predicate Acceptable(d: Decoder, f: Frame) {
    && !IsReserved(f.header.opcode)
    && |f.payload| < U64_LIMIT && Within(|f.payload|, d.maxFrameSize)
    && (d.unmask && f.header.mask.None? ==> d.acceptUnmasked)
  }

  lemma DecodeOfEncode(d: Decoder, f: Frame, rest: bytes)
    requires d.header.None? && Acceptable(d, f)
    ensures DecodeOnce(d, EncodeFrame(f) + rest) == Decoding(d, rest, Item(Received(d, f)))
  {
    hide ParseHeader, EncodeHeader, Masked, HeaderLen;
    var n := HeaderLen(f.header, |f.payload|);
    var src := EncodeFrame(f) + rest;
    assert src == EncodeHeader(f.header, |f.payload|) + (MaskedPayload(f) + rest);
    ParseOfEncode(f.header, |f.payload|, MaskedPayload(f) + rest);
    assert src[n..] == MaskedPayload(f) + rest;
    assert src[n..][..|f.payload|] == MaskedPayload(f) && src[n..][|f.payload|..] == rest;
    if f.header.mask.Some? {
      MaskedTwice(f.payload, f.header.mask.value);
    }
  }

  lemma PumpItem(d: Decoder, src: bytes, r: Decoding)
    requires r == DecodeOnce(d, src) && r.out.Item?
    ensures Pump(d, src) == Prepend([r.out.frame], Pump(r.after, r.rest))
  {
    hide DecodeOnce;
  }

  /** Decoding the encoding of any list of frames gives back the list and leaves exactly the octets after it. */
  lemma {:induction false} CodecRoundTrip(d: Decoder, frames: seq<Frame>, rest: bytes)
    requires d.header.None? && forall i | 0 <= i < |frames| :: Acceptable(d, frames[i])
    ensures Pump(d, EncodeAll(frames) + rest) == Prepend(ReceivedAll(d, frames), Pump(d, rest))
    decreases |frames|
  {
    hide DecodeOnce, Received, EncodeFrame, Acceptable, Pump;
    if frames == [] {
      assert EncodeAll(frames) + rest == rest;
    } else {
      var tail := EncodeAll(frames[1..]) + rest;
      assert EncodeAll(frames) + rest == EncodeFrame(frames[0]) + tail;
      DecodeOfEncode(d, frames[0], tail);
      PumpItem(d, EncodeAll(frames) + rest, DecodeOnce(d, EncodeAll(frames) + rest));
      CodecRoundTrip(d, frames[1..], rest);
      assert ReceivedAll(d, frames) == [Received(d, frames[0])] + ReceivedAll(d, frames[1..]);
    }
  }

  lemma PumpOfNothing(d: Decoder)
    requires d.header.None?
    ensures Pump(d, []) == Pumped([], None, d, [])
  {
  }

  /** The round trip on a whole stream: every octet is consumed. */
  lemma WholeStreamRoundTrip(d: Decoder, frames: seq<Frame>)
    requires d.header.None? && forall i | 0 <= i < |frames| :: Acceptable(d, frames[i])
    ensures Pump(d, EncodeAll(frames)) == Pumped(ReceivedAll(d, frames), None, d, [])
  {
    CodecRoundTrip(d, frames, []);
    PumpOfNothing(d);
    assert EncodeAll(frames) + [] == EncodeAll(frames);
  }
}
