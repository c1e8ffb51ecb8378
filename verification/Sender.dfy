/** The buffered write side as a function of its buffer and of what the stream does: src/protocol/frame/codec.rs. */
module Sender {
  import opened Prelude
  import opened Errors
  import opened Frame

  /** What happens to one `write_all` followed by a flush of the stream. */
  datatype Outcome =
    | Accepted
    | WriteFails(taken: nat, connectionReset: bool)
    | FlushFails(connectionReset: bool)

  /** The buffer left, the octets the stream took, and the error if any. */
  datatype Sent = Sent(buffer: bytes, emitted: bytes, error: Option<Error>)

  /** A failed write keeps the whole buffer, although the stream may have taken part of it. */
  function FlushBuffer(buffer: bytes, outcome: Outcome): Sent {
    if buffer == [] then Sent([], [], None)
    else match outcome
      case Accepted => Sent([], buffer, None)
      case WriteFails(taken, reset) =>
        Sent(buffer, buffer[..if taken <= |buffer| then taken else |buffer|], Some(Io(reset)))
      case FlushFails(reset) => Sent([], buffer, Some(Io(reset)))
  }

  /** `send`: the buffer is written out first when it is over the limit. */
  function SendFrame(buffer: bytes, limit: nat, f: Frame, outcome: Outcome): Sent {
    if |buffer| > limit then
      var s := FlushBuffer(buffer, outcome);
      if s.error.Some? then s else s.(buffer := s.buffer + EncodeFrame(f))
    else Sent(buffer + EncodeFrame(f), [], None)
  }

  /**
    * The documentation of `write_buffer_size` promises that with 0 every message is written at once. It is not: the
    * frame just sent always stays in the buffer, and earlier octets are written exactly when they exceed the limit.
    */
  lemma SendIsNotEager(buffer: bytes, limit: nat, f: Frame)
    ensures var s := SendFrame(buffer, limit, f, Accepted);
            && s.error.None? && |s.buffer| >= FrameLen(f) > 0
            && s.buffer[|s.buffer| - FrameLen(f)..] == EncodeFrame(f)
            && (s.emitted != [] <==> |buffer| > limit)
            && (s.emitted != [] ==> s.emitted == buffer)
  {
    hide EncodeFrame;
  }

  /** With a limit of 0 a frame sent on an empty buffer is still there when `send` returns. */
  lemma NotEagerAtZero(f: Frame)
    ensures SendFrame([], 0, f, Accepted) == Sent(EncodeFrame(f), [], None)
  {
    hide EncodeFrame;
    assert [] + EncodeFrame(f) == EncodeFrame(f);
  }

  // ---- whole runs ----

  datatype Call = Send(frame: Frame, outcome: Outcome) | Flush(outcome: Outcome) | SetLimit(limit: nat)

  /** A sender with what it was given and what the stream has taken; `broken` after the first failed write. */
  datatype Sender = Sender(buffer: bytes, limit: nat, accepted: seq<Frame>, wire: bytes, broken: bool)

  predicate WriteFailed(s: Sent, outcome: Outcome) {
    s.error.Some? && outcome.WriteFails?
  }

  function Perform(s: Sender, call: Call): Sender {
    match call
    case Send(f, outcome) =>
      var r := SendFrame(s.buffer, s.limit, f, outcome);
      Sender(r.buffer, s.limit, if r.error.None? then s.accepted + [f] else s.accepted, s.wire + r.emitted,
             s.broken || WriteFailed(r, outcome))
    case Flush(outcome) =>
      var r := FlushBuffer(s.buffer, outcome);
      Sender(r.buffer, s.limit, s.accepted, s.wire + r.emitted, s.broken || WriteFailed(r, outcome))
    case SetLimit(n) => s.(limit := n)
  }

  function PerformAll(s: Sender, calls: seq<Call>): Sender
    decreases |calls|
  {
    if calls == [] then s else PerformAll(Perform(s, calls[0]), calls[1..])
  }

  function NewSender(limit: nat): Sender {
    Sender([], limit, [], [], false)
  }

  /** No octet is lost, duplicated or reordered. */
  predicate Conserved(s: Sender) {
    !s.broken ==> s.wire + s.buffer == EncodeAll(s.accepted)
  }

  lemma {:induction false} EncodeAllAppend(frames: seq<Frame>, f: Frame)
    ensures EncodeAll(frames + [f]) == EncodeAll(frames) + EncodeFrame(f)
  {
    hide EncodeFrame;
    if frames == [] {
      assert frames + [f] == [f];
      assert EncodeAll([f]) == EncodeFrame(f) + EncodeAll([]);
    } else {
      assert (frames + [f])[0] == frames[0] && (frames + [f])[1..] == frames[1..] + [f];
      EncodeAllAppend(frames[1..], f);
    }
  }

  lemma FlushConserves(buffer: bytes, outcome: Outcome)
    ensures var s := FlushBuffer(buffer, outcome);
            && (!WriteFailed(s, outcome) ==> s.emitted + s.buffer == buffer)
            && (s.error.None? ==> s.buffer == [] && s.emitted == buffer)
  {
  }

  lemma SendConserves(buffer: bytes, limit: nat, f: Frame, outcome: Outcome)
    ensures var s := SendFrame(buffer, limit, f, outcome);
            && (s.error.None? ==> s.emitted + s.buffer == buffer + EncodeFrame(f))
            && (s.error.Some? && !outcome.WriteFails? ==> s.emitted + s.buffer == buffer)
            && (s.error.None? ==> |s.buffer| <= limit + FrameLen(f))
  {
    hide EncodeFrame, FlushBuffer;
    FlushConserves(buffer, outcome);
    var e := EncodeFrame(f);
    if |buffer| > limit {
      var s := FlushBuffer(buffer, outcome);
      assert s.error.None? ==> s.emitted + (s.buffer + e) == buffer + e && s.buffer + e == e;
    } else {
      assert [] + (buffer + e) == buffer + e;
    }
  }

  /** Wire and buffer together always hold exactly the encodings of the accepted frames, in order. */
  lemma {:induction false} WriteConservation(s: Sender, calls: seq<Call>)
    requires Conserved(s)
    ensures Conserved(PerformAll(s, calls))
    decreases |calls|
  {
    if calls != [] {
      PerformConserves(s, calls[0]);
      WriteConservation(Perform(s, calls[0]), calls[1..]);
    }
  }

  lemma PerformConserves(s: Sender, call: Call)
    requires Conserved(s)
    ensures Conserved(Perform(s, call))
  {
    hide EncodeFrame, EncodeAll, FlushBuffer, SendFrame;
    match call {
      case Send(f, outcome) =>
        SendConserves(s.buffer, s.limit, f, outcome);
        EncodeAllAppend(s.accepted, f);
        var r := SendFrame(s.buffer, s.limit, f, outcome);
        assert s.wire + r.emitted + r.buffer == s.wire + (r.emitted + r.buffer);
        assert s.wire + s.buffer + EncodeFrame(f) == s.wire + (s.buffer + EncodeFrame(f));
      case Flush(outcome) =>
        FlushConserves(s.buffer, outcome);
        var r := FlushBuffer(s.buffer, outcome);
        assert s.wire + r.emitted + r.buffer == s.wire + (r.emitted + r.buffer);
      case SetLimit(_) =>
    }
  }

  /** From the start, whatever calls are made and however the stream behaves, up to the first failed write. */
  lemma WireHoldsWhatWasSent(limit: nat, calls: seq<Call>)
    ensures var s := PerformAll(NewSender(limit), calls);
            !s.broken ==> s.wire + s.buffer == EncodeAll(s.accepted)
  {
    WriteConservation(NewSender(limit), calls);
  }

  /**
    * After a failed write the whole buffer is kept, so that trying again writes octets the stream already has once
    * more; after a failed flush nothing is kept, so that trying again writes none.
    */
  lemma Retried(s: Sender, taken: nat, reset: bool)
    requires s.buffer != [] && taken <= |s.buffer|
    ensures PerformAll(s, [Flush(WriteFails(taken, reset)), Flush(Accepted)]).wire ==
            s.wire + s.buffer[..taken] + s.buffer
    ensures PerformAll(s, [Flush(FlushFails(reset)), Flush(Accepted)]).wire == s.wire + s.buffer
  {
    var a, b: Call := Flush(WriteFails(taken, reset)), Flush(FlushFails(reset));
    assert [a, Flush(Accepted)][1..] == [Flush(Accepted)] && [b, Flush(Accepted)][1..] == [Flush(Accepted)];
    assert [Flush(Accepted)][1..] == [];
    assert s.wire + s.buffer + [] == s.wire + s.buffer;
  }

  /** The bound: what a successful `send` leaves buffered, and what a successful flush leaves. */
  lemma BufferBound(buffer: bytes, limit: nat, f: Frame, outcome: Outcome)
    ensures SendFrame(buffer, limit, f, outcome).error.None? ==>
              |SendFrame(buffer, limit, f, outcome).buffer| <= limit + FrameLen(f)
    ensures FlushBuffer(buffer, outcome).error.None? ==> FlushBuffer(buffer, outcome).buffer == []
  {
    hide EncodeFrame;
    SendConserves(buffer, limit, f, outcome);
  }
}
