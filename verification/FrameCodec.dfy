/** The frame codec over a byte stream: src/protocol/frame/codec.rs. */
module FrameCodec {
  import opened Prelude
  import opened Errors
  import opened Frame
  import opened Decode
  import opened Sender
  import opened Buffers
  import opened Endpoint

  /** One failed operation of a stream. */
  datatype Fault =
    | ReadFault(connectionReset: bool)
    | WriteFault(taken: nat, connectionReset: bool)
    | FlushFault(connectionReset: bool)
    | ShutdownFault(connectionReset: bool)

  /** The failures that stand behind what the specification calls an outcome, or an arrival. */
  function OutcomeFaults(outcome: Outcome): seq<Fault> {
    match outcome
    case Accepted => []
    case WriteFails(taken, reset) => [WriteFault(taken, reset)]
    case FlushFails(reset) => [FlushFault(reset)]
  }

  function ShutdownFaults(shutdown: Option<bool>): seq<Fault> {
    if shutdown.Some? then [ShutdownFault(shutdown.value)] else []
  }

  function IoFaults(io: Outcomes): seq<Fault> {
    OutcomeFaults(io.send) + OutcomeFaults(io.flush) + ShutdownFaults(io.shutdown)
  }

  function ArrivalFaults(arrival: Arrival): seq<Fault> {
    if arrival.Lost? then [ReadFault(arrival.connectionReset)] else []
  }

  /** A stream that never fails is the one the two-party system is about. */
  lemma FaultFreeIsSmooth(io: Outcomes, arrival: Arrival)
    ensures IoFaults(io) == [] <==> io == SMOOTH
    ensures ArrivalFaults(arrival) == [] <==> !arrival.Lost?
  {
  }

  lemma FaultsOf(send: Outcome, flush: Outcome, shutdown: Option<bool>)
    ensures IoFaults(Outcomes(send, flush, shutdown)) ==
            OutcomeFaults(send) + OutcomeFaults(flush) + ShutdownFaults(shutdown)
    ensures OutcomeFaults(Accepted) == [] && ShutdownFaults(None) == [] && IoFaults(SMOOTH) == []
  {
  }

  /**
    * A duplex byte stream. What arrives is fixed but comes in chunks of any size; every operation may fail. `wire` is
    * what the stream has taken, the first `flushed` octets of which it was told to pass on, and `faults` lists every
    * failure of an operation, and nothing else, in order.
    */
  class Stream {
    var incoming: bytes
    var wire: bytes
    var flushed: nat
    var shut: bool
    ghost var faults: seq<Fault>

    constructor (incoming: bytes)
      ensures this.incoming == incoming && wire == [] && flushed == 0 && !shut && faults == []
    {
      this.incoming := incoming;
      wire, flushed, shut := [], 0, false;
      faults := [];
    }

    /** An empty chunk without an error is the end of the stream. */
    method Read() returns (chunk: bytes, lost: Option<bool>)
      modifies this`incoming, this`faults
      ensures chunk + incoming == old(incoming)
      ensures lost.Some? ==> chunk == []
      ensures faults == old(faults) + if lost.Some? then [ReadFault(lost.value)] else []
      ensures lost.None? && chunk == [] ==> incoming == []
    {
      var fails: bool := *;
      if fails {
        var reset: bool := *;
        faults := faults + [ReadFault(reset)];
        return [], Some(reset);
      }
      var n: int := *;
      if n <= 0 || n > |incoming| {
        n := |incoming|;
      }
      chunk, lost := incoming[..n], None;
      incoming := incoming[n..];
    }

    method WriteAll(buffer: bytes) returns (error: Option<Error>, ghost taken: nat, ghost reset: bool)
      modifies this`wire, this`faults
      ensures taken <= |buffer| && wire == old(wire) + buffer[..taken]
      ensures (error == None && taken == |buffer|) || error == Some(Io(reset))
      ensures faults == old(faults) + if error.Some? then [WriteFault(taken, reset)] else []
    {
      var fails: bool := *;
      if fails {
        var n: int := *;
        var wasReset: bool := *;
        if n < 0 || n > |buffer| {
          n := |buffer|;
        }
        wire := wire + buffer[..n];
        faults := faults + [WriteFault(n, wasReset)];
        return Some(Io(wasReset)), n, wasReset;
      }
      assert buffer[..|buffer|] == buffer;
      wire := wire + buffer;
      return None, |buffer|, false;
    }

    /** Passes on everything taken so far, unless it fails. */
    method Flush() returns (error: Option<Error>, ghost reset: bool)
      modifies this`flushed, this`faults
      ensures error == None || error == Some(Io(reset))
      ensures flushed == if error.None? then |wire| else old(flushed)
      ensures faults == old(faults) + if error.Some? then [FlushFault(reset)] else []
    {
      var fails: bool := *;
      var wasReset: bool := *;
      if fails {
        faults := faults + [FlushFault(wasReset)];
        return Some(Io(wasReset)), wasReset;
      }
      flushed := |wire|;
      error, reset := None, wasReset;
    }

    /** Ends the writing half; a failure, which may be a reset, leaves it as it was. */
    method Shutdown() returns (error: Option<bool>)
      modifies this`shut, this`faults
      ensures shut == (old(shut) || error.None?)
      ensures faults == old(faults) + ShutdownFaults(error)
    {
      error := *;
      if error.None? {
        shut := true;
      }
      faults := faults + ShutdownFaults(error);
    }
  }

  /** A buffer's storage is replaced, if at all, by storage of its own. */
  twostate predicate SameOrFresh(new now: array<byte>, was: array<byte>) {
    now == was || fresh(now)
  }

  class FrameCodec {
    const stream: Stream
    const decoder: FrameDecoder
    const readBuf: BytesMut
    var writeBuf: BytesMut
    var writeLimit: nat
    /** Every frame a successful `Send` has taken, and whether a write has ever failed. */
    ghost var accepted: seq<Frame>
    ghost var broken: bool

    ghost function Repr(): set<object>
      reads this, readBuf, writeBuf
    {
      {this, stream, decoder, readBuf, readBuf.data, writeBuf, writeBuf.data}
    }

    ghost predicate Separate()
      reads this, readBuf, writeBuf
    {
      readBuf != writeBuf && readBuf.data != writeBuf.data
    }

    /** Octets on the wire followed by those still buffered are the encodings of the accepted frames, in order. */
    ghost predicate NothingLost()
      reads this, stream, writeBuf, writeBuf.data
    {
      !broken ==> stream.wire + writeBuf.Contents() == EncodeAll(accepted)
    }

    /** What a stream that has never failed has taken it was also told to pass on. */
    ghost predicate NothingHeldBack()
      reads this, stream
    {
      stream.faults == [] ==> stream.flushed == |stream.wire|
    }

    ghost predicate Valid()
      reads this, stream, readBuf, writeBuf, writeBuf.data
    {
      Separate() && NothingLost() && NothingHeldBack()
    }

    /** `buffered` is what was read from the stream before: nothing, or what followed a handshake. */
    constructor (stream: Stream, buffered: bytes, writeLimit: nat)
      requires stream.wire == [] && stream.flushed == 0
      ensures Valid() && fresh(Repr() - {stream}) && this.stream == stream && this.writeLimit == writeLimit
      ensures decoder.View() == Decoder(None, None, false, false)
      ensures readBuf.Contents() == buffered && writeBuf.Contents() == [] && accepted == [] && !broken
    {
      this.stream := stream;
      decoder := new FrameDecoder();
      readBuf := new BytesMut.From(buffered);
      writeBuf := new BytesMut();
      this.writeLimit := writeLimit;
      accepted, broken := [], false;
    }

    method SetWriteLimit(limit: nat)
      requires Valid()
      modifies this`writeLimit
      ensures Valid() && writeLimit == limit
    {
      writeLimit := limit;
    }

    /** Swaps the buffer out for the write and puts it back, whole, whatever came of it. */
    method Flush() returns (error: Option<Error>, ghost outcome: Outcome)
      requires Valid()
      modifies this, stream, writeBuf
      ensures Valid() && writeBuf == old(writeBuf) && SameOrFresh(writeBuf.data, old(writeBuf.data))
              && writeLimit == old(writeLimit) && accepted == old(accepted)
      ensures var s := FlushBuffer(old(writeBuf.Contents()), outcome);
              && writeBuf.Contents() == s.buffer && stream.wire == old(stream.wire) + s.emitted && error == s.error
              && broken == (old(broken) || WriteFailed(s, outcome))
      ensures stream.incoming == old(stream.incoming) && stream.shut == old(stream.shut)
      ensures stream.faults == old(stream.faults) + OutcomeFaults(outcome) && (error.None? <==> outcome.Accepted?)
      ensures stream.flushed ==
              if error.None? && old(writeBuf.Contents()) != [] then |stream.wire| else old(stream.flushed)
    {
      hide EncodeAll;
      if writeBuf.data.Length == 0 {
        assert writeBuf.Contents() == [];
        return None, Accepted;
      }
      var buf := writeBuf;
      writeBuf := new BytesMut();
      ghost var octets := buf.Contents();
      ghost var taken, reset;
      error, taken, reset := stream.WriteAll(buf.data[..]);
      writeBuf := buf;
      if error.Some? {
        broken := true;
        outcome := WriteFails(taken, reset);
        return;
      }
      assert octets[..taken] == octets;
      buf.Clear();
      assert stream.wire + [] == old(stream.wire) + octets;
      error, reset := stream.Flush();
      outcome := if error.Some? then FlushFails(reset) else Accepted;
    }

    method Send(frame: Frame) returns (error: Option<Error>, ghost outcome: Outcome)
      requires Valid()
      modifies this, stream, writeBuf
      ensures Valid() && writeBuf == old(writeBuf) && SameOrFresh(writeBuf.data, old(writeBuf.data))
              && writeLimit == old(writeLimit)
      ensures var s := SendFrame(old(writeBuf.Contents()), writeLimit, frame, outcome);
              && writeBuf.Contents() == s.buffer && stream.wire == old(stream.wire) + s.emitted && error == s.error
              && accepted == (if error.None? then old(accepted) + [frame] else old(accepted))
              && broken == (old(broken) || WriteFailed(s, outcome))
      ensures stream.incoming == old(stream.incoming) && stream.shut == old(stream.shut)
      ensures stream.faults == old(stream.faults) + OutcomeFaults(outcome) && (error.None? <==> outcome.Accepted?)
    {
      hide EncodeAll, EncodeFrame, FlushBuffer;
      error, outcome := None, Accepted;
      if writeBuf.data.Length > writeLimit {
        error, outcome := Flush();
        if error.Some? {
          return;
        }
      }
      assert stream.wire == old(stream.wire) + SendFrame(old(writeBuf.Contents()), writeLimit, frame, outcome).emitted;
      ghost var buffered := writeBuf.Contents();
      Encode(frame, writeBuf);
      EncodeAllAppend(accepted, frame);
      assert stream.wire + (buffered + EncodeFrame(frame)) == stream.wire + buffered + EncodeFrame(frame);
      accepted := accepted + [frame];
    }

    /** Flushes, and shuts the stream down exactly when that has succeeded. */
    method Close() returns (error: Option<Error>, ghost outcome: Outcome, ghost shutdown: Option<bool>)
      requires Valid()
      modifies this, stream, writeBuf
      ensures Valid() && writeBuf == old(writeBuf) && SameOrFresh(writeBuf.data, old(writeBuf.data))
              && writeLimit == old(writeLimit) && accepted == old(accepted)
      ensures var s := FlushBuffer(old(writeBuf.Contents()), outcome);
              && writeBuf.Contents() == s.buffer && stream.wire == old(stream.wire) + s.emitted
              && error == (if s.error.Some? then s.error else if shutdown.Some? then Some(Io(shutdown.value)) else None)
              && broken == (old(broken) || WriteFailed(s, outcome))
      ensures stream.shut == (old(stream.shut) || error.None?)
      ensures stream.incoming == old(stream.incoming)
      ensures stream.faults == old(stream.faults) + OutcomeFaults(outcome) + ShutdownFaults(shutdown)
      ensures error.None? <==> outcome.Accepted? && shutdown.None?
    {
      hide FlushBuffer, EncodeAll;
      error, outcome := Flush();
      shutdown := None;
      if error.None? {
        var failed := stream.Shutdown();
        shutdown := failed;
        error := if failed.Some? then Some(Io(failed.value)) else None;
      }
    }

    /** One read, appended to what is buffered. */
    method ReadMore() returns (chunk: bytes, lost: Option<bool>)
      requires Valid()
      modifies stream`incoming, stream`faults, readBuf
      ensures Valid() && SameOrFresh(readBuf.data, old(readBuf.data))
      ensures chunk + stream.incoming == old(stream.incoming) && readBuf.Contents() == old(readBuf.Contents()) + chunk
      ensures lost.Some? ==> chunk == []
      ensures lost.None? && chunk == [] ==> stream.incoming == []
      ensures stream.faults == old(stream.faults) + if lost.Some? then [ReadFault(lost.value)] else []
    {
      hide EncodeAll;
      chunk, lost := stream.Read();
      assert readBuf.Contents() + [] == readBuf.Contents();
      if chunk != [] {
        readBuf.Extend(chunk);
      }
    }

    /**
      * The next frame: decodes what is buffered and reads more while that is not enough. `arrived` is what was
      * read, and the answer is the one decoding the buffer together with all of it gives.
      */
    method Next() returns (item: Option<Result<Frame, Error>>, ghost arrived: bytes, ghost arrival: Arrival)
      requires Valid()
      modifies stream`incoming, stream`faults, decoder, readBuf
      ensures Valid() && SameOrFresh(readBuf.data, old(readBuf.data))
      ensures arrived + stream.incoming == old(stream.incoming)
      ensures stream.faults == old(stream.faults) + ArrivalFaults(arrival)
      ensures arrival.EndOfStream? ==> stream.incoming == []
      ensures var d := DecodeOnce(old(decoder.View()), old(readBuf.Contents()) + arrived);
              && decoder.View() == d.after && readBuf.Contents() == d.rest && NextAnswers(d, arrival, item)
              && (arrival.Pending? <==> !NeedsInput(d.out))
      ensures arrived != [] ==> NeedsInput(DecodeOnce(old(decoder.View()), old(readBuf.Contents())).out)
    {
      hide DecodeOnce, EncodeAll;
      arrived := [];
      ghost var d0, b0 := decoder.View(), readBuf.Contents();
      assert b0 + [] == b0;
      while true
        invariant Valid() && SameOrFresh(readBuf.data, old(readBuf.data)) && writeBuf.data == old(writeBuf.data)
            && writeBuf.Contents() == old(writeBuf.Contents())
        invariant arrived + stream.incoming == old(stream.incoming)
        invariant stream.wire == old(stream.wire) && stream.faults == old(stream.faults)
        invariant DecodeOnce(d0, b0 + arrived) == DecodeOnce(decoder.View(), readBuf.Contents())
        invariant arrived != [] ==> NeedsInput(DecodeOnce(d0, b0).out)
        decreases |stream.incoming|
      {
        ghost var seen := b0 + arrived;
        ghost var d := DecodeOnce(d0, seen);
        var out := decoder.Decode(readBuf);
        if out.Item? {
          return Some(Ok(out.frame)), arrived, Pending;
        }
        if out.Failure? {
          return Some(Err(out.error)), arrived, Pending;
        }
        var chunk, lost := ReadMore();
        if lost.Some? {
          return Some(Err(Io(lost.value))), arrived, Lost(lost.value);
        }
        if chunk == [] {
          if decoder.header.None? && readBuf.data.Length == 0 {
            return None, arrived, EndOfStream;
          }
          return Some(Err(Io(false))), arrived, EndOfStream;
        }
        DecodeExtends(d0, seen, chunk);
        assert b0 + (arrived + chunk) == seen + chunk;
        assert arrived + chunk + stream.incoming == arrived + (chunk + stream.incoming);
        arrived := arrived + chunk;
      }
    }
  }

  /** What `next` returns for a decoding that has no more input to wait for than `arrival` says. */
  ghost predicate NextAnswers(d: Decoding, arrival: Arrival, item: Option<Result<Frame, Error>>) {
    match d.out
    case Item(f) => item == Some(Ok(f))
    case Failure(e) => item == Some(Err(e))
    case _ =>
      match arrival
      case Pending => false
      case Lost(reset) => item == Some(Err(Io(reset)))
      case EndOfStream =>
        item == if d.after.header.None? && d.rest == [] then None else Some(Err(Io(false)))
  }
}
