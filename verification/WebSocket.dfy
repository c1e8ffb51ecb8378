/**
  * The endpoint itself: src/protocol/websocket.rs. Every method does exactly what the state machine in `Endpoint`
  * says.
  */
module WebSocket {
  import opened Prelude
  import opened Errors
  import opened Mask
  import opened Frame
  import opened Decode
  import Utf8
  import opened Message
  import opened Sender
  import opened FrameCodec
  import opened Endpoint
  import opened Runs

  // ---- octets that arrive while `read` is waiting ----

  /** `c` with more octets buffered. */
  function Fed(c: Conn, more: bytes): Conn {
    c.(readBuffer := c.readBuffer + more)
  }

  lemma FedTwice(c: Conn, a: bytes, b: bytes)
    ensures Fed(Fed(c, a), b) == Fed(c, a + b)
  {
    assert c.readBuffer + a + b == c.readBuffer + (a + b);
  }

  lemma FedNothing(c: Conn)
    ensures Fed(c, []) == c
  {
    assert c.readBuffer + [] == c.readBuffer;
  }

  predicate CanTurn(c: Conn) {
    ValidCore(c.core) && !c.core.state.Terminated?
  }

  /** A turn that goes round again does the same when more octets are already there. */
  lemma TurnExtends(c: Conn, more: bytes, arrival: Arrival, arrival': Arrival, key: MaskKey, io: Outcomes,
      io': Outcomes)
    requires CanTurn(c) && ReadTurn(c, arrival, key, io).report.NextTurn?
    ensures var x := ReadTurn(c, arrival, key, io);
            ReadTurn(Fed(c, more), arrival', key, io') == x.(after := Fed(x.after, more))
  {
    hide DecodeOnce, HandleFrame, ValidPartial, WellHandled, Answer;
    NextTurnIsFragment(c, arrival, key, io);
    DecodeExtends(c.decoder, c.readBuffer, more);
    var d := DecodeOnce(c.decoder, c.readBuffer);
    var f := d.out.frame;
    FrameHandledWell(c.core, f);
    var (core, r) := HandleFrame(c.core, f);
    if r.Ok? {
      AnswerStep(c.core, f, c.(decoder := d.after, readBuffer := d.rest, core := core), r.value, key, io);
      QuietAnswer(c.(decoder := d.after, readBuffer := d.rest, core := core), r.value, key, io);
      NoMessageNoReply(c.core, f, core, r.value);
      SilentAnswer(Fed(c, more).(decoder := d.after, readBuffer := d.rest + more, core := core), r.value, key, io');
    }
  }

  lemma QuietAnswer(c: Conn, h: Handled, key: MaskKey, io: Outcomes)
    requires Answer(c, h, key, io).report.NextTurn?
    ensures h.message.None?
  {
    hide SendFrame, FlushBuffer;
  }

  lemma NoMessageNoReply(c: Core, f: Frame, after: Core, h: Handled)
    requires WellHandled(c, f, after, h) && h.message.None?
    ensures h == Handled(None, None)
  {
  }

  lemma SilentAnswer(c: Conn, h: Handled, key: MaskKey, io: Outcomes)
    requires h == Handled(None, None)
    ensures Answer(c, h, key, io) == Effect(c, [], [], NextTurn)
  {
  }

  /** Whatever arrives from now on, reading from `c` and from `d` comes to the same. */
  ghost predicate SameFuture(c: Conn, d: Conn, key: MaskKey) {
    && CanTurn(c) && CanTurn(d)
    && forall more: bytes, arrival: Arrival, io: Outcomes ::
         ReadTurns(Fed(c, more), arrival, key, io) == ReadTurns(Fed(d, more), arrival, key, io)
  }

  lemma SameFutureAfterTurn(c: Conn, d: Conn, chunk: bytes, arrival: Arrival, key: MaskKey, io: Outcomes)
    requires SameFuture(c, d, key)
    requires ReadTurn(Fed(d, chunk), arrival, key, io).report.NextTurn?
    ensures SameFuture(Fed(c, chunk), ReadTurn(Fed(d, chunk), arrival, key, io).after, key)
  {
    hide ReadTurn, ValidPartial;
    var x := ReadTurn(Fed(d, chunk), arrival, key, io);
    NextTurnIsFragment(Fed(d, chunk), arrival, key, io);
    TurnStep(Fed(d, chunk), arrival, key, io);
    forall more: bytes, arrival': Arrival, io': Outcomes
      ensures ReadTurns(Fed(Fed(c, chunk), more), arrival', key, io')
              == ReadTurns(Fed(x.after, more), arrival', key, io')
    {
      FedTwice(c, chunk, more);
      FedTwice(d, chunk, more);
      TurnExtends(Fed(d, chunk), more, arrival, arrival', key, io, io');
    }
  }

  // ---- the class ----

  predicate Reports(error: Option<Error>, report: Report) {
    match error
    case None => report.Done?
    case Some(e) => report == Failed(e)
  }

  /** A new message extended by its first fragment. */
  method FirstFragment(isText: bool, payload: bytes, limit: Option<nat>)
      returns (message: IncompleteMessage, error: Option<Error>)
    ensures message.Valid() && fresh(message.Repr())
    ensures Extended(message.View(), error) == ExtendPartial(NewPartial(isText), payload, limit)
  {
    hide ExtendPartial, NewPartial, Utf8.WellFormed, Utf8.IsPartial;
    message := new IncompleteMessage(isText);
    error := message.Extend(payload, limit);
  }

  class WebSocket {
    const role: Role
    const codec: FrameCodec
    var state: State
    var incomplete: Option<IncompleteMessage>
    var config: WebSocketConfig

    ghost function Collector(): set<object>
      reads this, if incomplete.Some? then {incomplete.value} else {},
            if incomplete.Some? && incomplete.value.collector.TextCollecting?
            then {incomplete.value.collector.t} else {}
    {
      if incomplete.Some? then incomplete.value.Repr() else {}
    }

    ghost function Repr(): set<object>
      reads this, codec, codec.readBuf, codec.writeBuf, Collector()
    {
      {this} + codec.Repr() + Collector()
    }

    ghost predicate Valid()
      reads this, Repr()
    {
      && codec.Valid() && this !in codec.Repr() && this !in Collector() && Collector() !! codec.Repr()
      && (incomplete.Some? ==> incomplete.value.Valid())
    }

    function CoreView(): (c: Core)
      requires Valid()
      reads this, Repr()
      ensures ValidCore(c)
    {
      Core(role, state, if incomplete.Some? then Some(incomplete.value.View()) else None, config.maxMessageSize)
    }

    function View(): (c: Conn)
      requires Valid()
      reads this, Repr()
      ensures c.core == CoreView() && ValidCore(c.core)
    {
      Conn(CoreView(), codec.decoder.View(), codec.readBuf.Contents(), codec.writeBuf.Contents(), codec.writeLimit,
          codec.stream.shut)
    }

    /** The footprint grows by new objects only. */
    twostate predicate Contained()
      reads this, Repr()
    {
      && codec.writeBuf == old(codec.writeBuf)
      && SameOrFresh(codec.writeBuf.data, old(codec.writeBuf.data))
      && SameOrFresh(codec.readBuf.data, old(codec.readBuf.data))
      && fresh(Collector() - old(Collector()))
    }

    /** The same of the whole footprint. */
    twostate predicate Grown()
      reads this, Repr()
    {
      forall o: object | o in Repr() && o !in old(Repr()) :: fresh(o)
    }

    twostate lemma ContainedIsGrown()
      requires Contained()
      ensures Grown()
    {
    }

    /**
      * The object is now in the state `x` ends in, having queued and written what `x` says; only a failure breaks it.
      */
    twostate predicate Took(x: Effect)
      reads this, Repr()
    {
      && Valid() && View() == x.after
      && codec.accepted == old(codec.accepted) + x.queued
      && codec.stream.wire == old(codec.stream.wire) + x.emitted
      && (codec.broken <==> old(codec.broken) || (codec.broken && x.report.Failed?))
    }

    /** `from_raw_socket`, `from_framed_read` with the octets already read, and `setup`. */
    constructor (stream: Stream, role: Role, config: WebSocketConfig, buffered: bytes)
      requires stream.wire == [] && stream.flushed == 0 && !stream.shut
      ensures Valid() && fresh(Repr() - {stream}) && codec.stream == stream && this.config == config
      ensures View() == NewConn(role, config, buffered)
      ensures codec.accepted == [] && !codec.broken
    {
      this.role := role;
      codec := new FrameCodec(stream, buffered, config.writeBufferSize);
      state := Active;
      incomplete := None;
      this.config := config;
      new;
      codec.decoder.Configure(role.Server?, config.acceptUnmaskedFrames, config.maxFrameSize);
    }

    /** `set_config`. */
    method SetConfig(newConfig: WebSocketConfig)
      requires Valid()
      modifies this, codec, codec.decoder
      ensures Valid() && fresh(Repr() - old(Repr())) && config == newConfig
      ensures var c := old(View());
              View() == c.(
                core := c.core.(maxMessageSize := newConfig.maxMessageSize), writeLimit := newConfig.writeBufferSize,
                decoder := c.decoder.(
                  maxFrameSize := newConfig.maxFrameSize, acceptUnmasked := newConfig.acceptUnmaskedFrames))
      ensures codec.accepted == old(codec.accepted) && codec.stream.wire == old(codec.stream.wire)
    {
      hide FrameCodec.Valid, ValidPartial;
      config := newConfig;
      codec.decoder.Configure(codec.decoder.unmask, newConfig.acceptUnmaskedFrames, newConfig.maxFrameSize);
      codec.SetWriteLimit(newConfig.writeBufferSize);
    }

    /** These are the failures the stream has had in the course of a call, and all of them. */
    twostate predicate Faced(faults: seq<Fault>)
      reads codec, codec.stream
    {
      codec.stream.faults == old(codec.stream.faults) + faults
    }

    /** A call during which the stream has not failed is one of the smooth calls of the two-party system. */
    twostate lemma FaultFreeCall(arrival: Arrival, io: Outcomes)
      requires Faced(ArrivalFaults(arrival) + IoFaults(io))
      ensures codec.stream.faults == old(codec.stream.faults) <==> io == SMOOTH && !arrival.Lost?
    {
      FaultFreeIsSmooth(io, arrival);
    }

    /** `write_frame`. */
    method WriteFrame(frame: Frame, key: MaskKey) returns (error: Option<Error>, ghost outcome: Outcome)
      requires Valid()
      modifies codec, codec.stream, codec.writeBuf
      ensures var x := Endpoint.WriteFrame(old(View()), frame, key, outcome); Took(x) && Reports(error, x.report)
      ensures Faced(OutcomeFaults(outcome)) && (error.None? <==> outcome.Accepted?)
      ensures Contained()
      ensures codec.stream.incoming == old(codec.stream.incoming) && Collector() == old(Collector())
    {
      hide FrameCodec.NothingLost, FrameCodec.NothingHeldBack, EncodeAll, EncodeFrame, SendFrame, ValidPartial;
      var masked := if role.Client? then Frame(frame.header.(mask := Some(key)), frame.payload) else frame;
      error, outcome := codec.Send(masked);
      if error.Some? {
        error := Some(CheckReset(error.value, state));
      }
    }

    method FlushCodec() returns (error: Option<Error>, ghost outcome: Outcome)
      requires Valid()
      modifies codec, codec.stream, codec.writeBuf
      ensures var x := Endpoint.FlushCodec(old(View()), outcome); Took(x) && Reports(error, x.report)
      ensures Faced(OutcomeFaults(outcome)) && (error.None? <==> outcome.Accepted?)
      ensures Contained()
      ensures codec.stream.incoming == old(codec.stream.incoming) && Collector() == old(Collector())
    {
      hide FrameCodec.NothingLost, FrameCodec.NothingHeldBack, EncodeAll, FlushBuffer, ValidPartial;
      error, outcome := codec.Flush();
    }

    /** The server's last flush: whatever comes of it, the connection is over. */
    method Terminate() returns (error: Option<Error>, ghost io: Outcomes)
      requires Valid() && role.Server? && !CanRead(state)
      modifies this, codec, codec.stream, codec.writeBuf
      ensures var x := UserFlush(old(View()), io); Took(x) && Reports(error, x.report)
      ensures Faced(IoFaults(io)) && io.send.Accepted?
      ensures Contained()
      ensures Collector() == old(Collector())
    {
      hide FrameCodec.NothingLost, FrameCodec.NothingHeldBack, EncodeAll, FlushBuffer, ValidPartial, UserFlush;
      ghost var c := View();
      state := Terminated;
      ghost var outcome, shutdown;
      error, outcome, shutdown := codec.Close();
      io := Outcomes(Accepted, outcome, shutdown);
      TerminatingFlush(c, io);
      if error.None? {
        error := Some(ConnectionClosed);
      }
    }

    /** `flush`. */
    method Flush() returns (error: Option<Error>, ghost io: Outcomes)
      requires Valid()
      modifies this, codec, codec.stream, codec.writeBuf
      ensures var x := UserFlush(old(View()), io); Took(x) && Reports(error, x.report)
      ensures Faced(IoFaults(io)) && io.send.Accepted?
      ensures Contained()
      ensures Collector() == old(Collector())
    {
      hide FrameCodec.Valid, EncodeAll, FlushBuffer, ValidPartial, Endpoint.FlushCodec;
      if role.Server? && !CanRead(state) {
        error, io := Terminate();
        return;
      }
      ghost var outcome;
      error, outcome := FlushCodec();
      io := Outcomes(Accepted, outcome, None);
    }

    /** The first half of `close`: no longer active, and a Close frame queued unless the stream fails. */
    method QueueClose(close: Option<CloseFrame>, key: MaskKey) returns (error: Option<Error>, ghost sent: Outcome)
      requires Valid() && state.Active?
      modifies this, codec, codec.stream, codec.writeBuf
      ensures var x := Endpoint.WriteFrame(WithState(old(View()), ClosedByUs), CloseFrameOf(close), key, sent);
              Took(x) && Reports(error, x.report)
      ensures Faced(OutcomeFaults(sent)) && (error.None? <==> sent.Accepted?)
      ensures Contained()
      ensures Collector() == old(Collector())
    {
      hide FrameCodec.Valid, EncodeAll, Endpoint.WriteFrame, ValidPartial, CloseFrameOf;
      ghost var c := View();
      state := ClosedByUs;
      assert View() == WithState(c, ClosedByUs);
      error, sent := WriteFrame(CloseFrameOf(close), key);
    }

    /** `close`. */
    method Close(close: Option<CloseFrame>, key: MaskKey) returns (error: Option<Error>, ghost io: Outcomes)
      requires Valid()
      modifies this, codec, codec.stream, codec.writeBuf
      ensures var x := UserClose(old(View()), close, key, io); Took(x) && Reports(error, x.report)
      ensures Faced(IoFaults(io))
      ensures Contained()
    {
      hide FrameCodec.Valid, EncodeAll, Endpoint.WriteFrame, UserFlush, ValidPartial, CloseFrameOf, UserClose,
        WithState, CanRead;
      ghost var c := View();
      if !state.Active? {
        error, io := Flush();
        ClosedAlready(c, close, key, io);
        return;
      }
      ghost var sent;
      error, sent := QueueClose(close, key);
      ghost var w := Endpoint.WriteFrame(WithState(c, ClosedByUs), CloseFrameOf(close), key, sent);
      io := Outcomes(sent, Accepted, None);
      ClosesInTwoSteps(c, close, key, io);
      if error.Some? {
        return;
      }
      ghost var io2;
      error, io2 := Flush();
      SendIsIrrelevant(w.after, io2, sent);
      io := io2.(send := sent);
      ClosesInTwoSteps(c, close, key, io);
      ghost var f := UserFlush(w.after, io);
      assert codec.accepted == old(codec.accepted) + (w.queued + f.queued);
      assert codec.stream.wire == old(codec.stream.wire) + (w.emitted + f.emitted);
      ghost var x := UserClose(c, close, key, io);
      assert View() == x.after && Reports(error, x.report);
    }

    /** `write`. */
    method Write(message: Message, key: MaskKey) returns (error: Option<Error>, ghost io: Outcomes)
      requires Valid()
      modifies this, codec, codec.stream, codec.writeBuf
      ensures var x := UserWrite(old(View()), message, key, io); Took(x) && Reports(error, x.report)
      ensures Faced(IoFaults(io))
      ensures Contained()
    {
      hide FrameCodec.Valid, EncodeAll, Endpoint.WriteFrame, UserClose, ValidPartial, FrameFor;
      io := SMOOTH;
      if state.Terminated? {
        return Some(AlreadyClosed), io;
      }
      if !state.Active? {
        return Some(Protocol(SendAfterClosing)), io;
      }
      if message.CloseMessage? {
        error, io := Close(message.close, key);
        return;
      }
      ghost var sent;
      error, sent := WriteFrame(FrameFor(message), key);
      io := Outcomes(sent, Accepted, None);
    }

    /** Handling a frame touches the state and the message under reassembly and nothing else. */
    twostate predicate OnlyCore()
      requires old(Valid())
      reads this, Repr()
    {
      && Valid() && fresh(Collector() - old(Collector()))
      && View() == old(View()).(core := CoreView())
    }

    /** `do_close`; its `unreachable!` is the precondition, which every caller is shown to meet. */
    method DoClose(close: Option<CloseFrame>) returns (h: Handled)
      requires Valid() && !state.Terminated?
      modifies this`state
      ensures OnlyCore() && Collector() == old(Collector())
      ensures (CoreView(), h) == Endpoint.DoClose(old(CoreView()), close)
    {
      hide FrameCodec.Valid, CloseFrameOf, Sanitised, ValidPartial;
      match state {
        case Active =>
          state := ClosedByPeer;
          var shown := Sanitised(close);
          h := Handled(Some(CloseMessage(shown)), Some(CloseFrameOf(shown)));
        case ClosedByPeer =>
          h := Handled(None, None);
        case CloseAcknowledged =>
          h := Handled(None, None);
        case ClosedByUs =>
          state := CloseAcknowledged;
          h := Handled(Some(CloseMessage(close)), None);
      }
    }

    method HandleControl(frame: Frame) returns (r: Result<Handled, Error>)
      requires Valid() && !state.Terminated? && frame.header.opcode.ControlOp?
      modifies this`state
      ensures OnlyCore() && Collector() == old(Collector())
      ensures (CoreView(), r) == Endpoint.HandleControl(old(CoreView()), frame)
    {
      hide FrameCodec.Valid, IntoClose, Endpoint.DoClose, ValidPartial;
      if !frame.header.isFinal {
        return Err(Protocol(FragmentedControlFrame));
      }
      if |frame.payload| > 125 {
        return Err(Protocol(ControlFrameTooBig));
      }
      match frame.header.opcode.control {
        case Close =>
          var close := IntoClose(frame.payload);
          if close.Err? {
            return Err(close.error);
          }
          var h := DoClose(close.value);
          r := Ok(h);
        case ReservedControl(i) =>
          r := Err(Protocol(UnknownControlFrameType(i)));
        case Ping =>
          var pong := if state.Active? then Some(PongFrame(frame.payload)) else None;
          r := Ok(Handled(Some(PingMessage(frame.payload)), pong));
        case Pong =>
          r := Ok(Handled(Some(PongMessage(frame.payload)), None));
      }
    }

    /** A continuation frame: extends the message in place and, when final, takes it out. */
    method HandleContinue(frame: Frame) returns (r: Result<Handled, Error>)
      requires Valid()
      modifies this`incomplete, Collector()
      ensures OnlyCore()
      ensures (CoreView(), r) == Endpoint.HandleContinue(old(CoreView()), frame)
    {
      hide FrameCodec.Valid, ValidPartial, ExtendPartial, CompletePartial, EncodeAll;
      if incomplete.None? {
        return Err(Protocol(UnexpectedContinueFrame));
      }
      var message := incomplete.value;
      var error := message.Extend(frame.payload, config.maxMessageSize);
      if error.Some? {
        return Err(error.value);
      }
      if frame.header.isFinal {
        incomplete := None;
        var done := message.Complete();
        r := DataResult(done);
      } else {
        r := Ok(Handled(None, None));
      }
    }

    /** Makes a new message the one under reassembly. */
    method Adopt(message: IncompleteMessage)
      requires Valid() && incomplete.None? && message.Valid() && message.Repr() !! Repr()
      modifies this`incomplete
      ensures Valid() && Collector() == message.Repr()
      ensures View() == old(View()).(core := old(CoreView()).(incomplete := Some(message.View())))
    {
      hide FrameCodec.Valid, ValidPartial, EncodeAll, Utf8.WellFormed, Utf8.IsPartial;
      incomplete := Some(message);
    }

    /** The first frame of a fragmented message. */
    method StartMessage(isText: bool, payload: bytes) returns (error: Option<Error>)
      requires Valid() && incomplete.None?
      modifies this`incomplete
      ensures OnlyCore()
      ensures var e := ExtendPartial(NewPartial(isText), payload, config.maxMessageSize);
              && error == e.error
              && CoreView() ==
                 if e.error.Some? then old(CoreView()) else old(CoreView()).(incomplete := Some(e.after))
    {
      hide FrameCodec.Valid, ValidPartial, ExtendPartial, EncodeAll, NewPartial, Utf8.WellFormed, Utf8.IsPartial;
      var message;
      message, error := FirstFragment(isText, payload, config.maxMessageSize);
      if error.None? {
        Adopt(message);
      }
    }

    method HandleData(frame: Frame) returns (r: Result<Handled, Error>)
      requires Valid() && frame.header.opcode.DataOp?
      modifies this`incomplete, Collector()
      ensures OnlyCore()
      ensures (CoreView(), r) == Endpoint.HandleData(old(CoreView()), frame)
    {
      hide FrameCodec.Valid, ValidPartial, ExtendPartial, CompletePartial, EncodeAll, WholeMessage,
        Endpoint.HandleContinue;
      var kind := frame.header.opcode.data;
      if kind.Continue? {
        r := HandleContinue(frame);
      } else if incomplete.Some? {
        r := Err(Protocol(ExpectedFragment(kind)));
      } else if kind.ReservedData? {
        r := Err(Protocol(UnknownDataFrameType(kind.code)));
      } else if frame.header.isFinal {
        r := DataResult(WholeMessage(frame.payload, kind.Text?, config.maxMessageSize));
      } else {
        var error := StartMessage(kind.Text?, frame.payload);
        r := if error.Some? then Err(error.value) else Ok(Handled(None, None));
      }
    }

    /** `handle_frame`. */
    method HandleFrame(frame: Frame) returns (r: Result<Handled, Error>)
      requires Valid() && !state.Terminated?
      modifies this`state, this`incomplete, Collector()
      ensures OnlyCore()
      ensures (CoreView(), r) == Endpoint.HandleFrame(old(CoreView()), frame)
    {
      hide FrameCodec.Valid, ValidPartial, EncodeAll, Endpoint.HandleData, Endpoint.HandleControl;
      if frame.header.opcode.ControlOp? {
        r := HandleControl(frame);
      } else {
        r := HandleData(frame);
      }
    }

    /** Waits for the next frame; only what is read and decoded changes. */
    method NextFrame() returns (item: Option<Result<Frame, Error>>, ghost arrived: bytes, ghost arrival: Arrival)
      requires Valid()
      modifies codec.stream`incoming, codec.stream`faults, codec.decoder, codec.readBuf
      ensures Valid() && Collector() == old(Collector()) && SameOrFresh(codec.readBuf.data, old(codec.readBuf.data))
      ensures arrived + codec.stream.incoming == old(codec.stream.incoming)
      ensures var c := Fed(old(View()), arrived);
              View() == AfterDecoding(c) && NextAnswers(DecodeOnce(c.decoder, c.readBuffer), arrival, item)
      ensures Faced(ArrivalFaults(arrival)) && (arrival.EndOfStream? ==> codec.stream.incoming == [])
      ensures item.Some? && item.value.Ok? ==> arrival.Pending?
    {
      hide FrameCodec.NothingLost, FrameCodec.NothingHeldBack, ValidPartial, EncodeAll, DecodeOnce, NextAnswers;
      ghost var c := View();
      item, arrived, arrival := codec.Next();
      OkIsDecoded(DecodeOnce(c.decoder, c.readBuffer + arrived), arrival, item);
    }

    /**
      * `read_message_frame`: waits for a frame, checks it and handles it. With the reply still to be sent, this is
      * the turn of the loop the state machine takes once everything that arrived meanwhile is in the buffer.
      */
    method ReadMessageFrame() returns (r: Result<Handled, Error>, ghost arrived: bytes, ghost arrival: Arrival)
      requires Valid() && !state.Terminated?
      modifies this`state, this`incomplete, Collector(), codec.stream`incoming, codec.stream`faults, codec.decoder,
        codec.readBuf
      ensures Valid() && fresh(Collector() - old(Collector()))
              && SameOrFresh(codec.readBuf.data, old(codec.readBuf.data))
      ensures arrived + codec.stream.incoming == old(codec.stream.incoming)
      ensures var c := Fed(old(View()), arrived);
              forall key: MaskKey, io: Outcomes ::
                ReadTurn(c, arrival, key, io) == AfterFrame(View(), r, key, io)
      ensures Faced(ArrivalFaults(arrival)) && (arrival.EndOfStream? ==> codec.stream.incoming == [])
      ensures r.Ok? ==> arrival.Pending?
    {
      hide FrameCodec.Valid, ValidPartial, EncodeAll, DecodeOnce, Endpoint.HandleFrame, Refusal, ReadTurn,
        AfterFrame, NextAnswers;
      ghost var c0 := View();
      var item;
      item, arrived, arrival := NextFrame();
      ghost var c := Fed(c0, arrived);
      assert CoreView() == c.core;
      if item.None? {
        r := Err(if state.ClosedByPeer? || state.CloseAcknowledged? then ConnectionClosed
            else Protocol(ResetWithoutClosingHandshake));
        state := Terminated;
      } else if item.value.Err? {
        r := Err(CheckReset(item.value.error, state));
      } else {
        r := AcceptFrame(item.value.value);
      }
      TurnIs(c, arrival, item, CoreView(), r);
    }

    /** The checks on a frame, then its handling. */
    method AcceptFrame(frame: Frame) returns (r: Result<Handled, Error>)
      requires Valid() && !state.Terminated?
      modifies this`state, this`incomplete, Collector()
      ensures OnlyCore()
      ensures (CoreView(), r) == Take(old(CoreView()), frame)
    {
      hide FrameCodec.Valid, ValidPartial, Endpoint.HandleFrame, Take, CanRead;
      TakeIs(CoreView(), frame);
      if !CanRead(state) {
        return Err(Protocol(ReceivedAfterClosing));
      }
      if frame.header.rsv1 || frame.header.rsv2 || frame.header.rsv3 {
        return Err(Protocol(NonZeroReservedBits));
      }
      if role.Client? && frame.header.mask.Some? {
        return Err(Protocol(MaskedFrameFromServer));
      }
      r := HandleFrame(frame);
    }

    /** Sends and flushes the reply, if there is one. */
    method SendReply(h: Handled, key: MaskKey) returns (error: Option<Error>, ghost io: Outcomes)
      requires Valid()
      modifies codec, codec.stream, codec.writeBuf
      ensures var x := Answer(old(View()), h, key, io);
              && Took(x) && Contained()
              && (if error.Some? then x.report == Failed(error.value) else x.report == OnSuccess(h))
      ensures Faced(IoFaults(io)) && (error.None? <==> io == SMOOTH)
      ensures codec.stream.incoming == old(codec.stream.incoming) && Collector() == old(Collector())
    {
      hide FrameCodec.Valid, EncodeAll, Endpoint.WriteFrame, Endpoint.FlushCodec, ValidPartial, Answer, IoFaults,
        OutcomeFaults, ShutdownFaults;
      ghost var c := View();
      if h.reply.None? {
        io := SMOOTH;
        AnswersInSteps(c, h, key, io);
        FaultsOf(Accepted, Accepted, None);
        return None, io;
      }
      ghost var sent, flushed;
      error, sent := WriteFrame(h.reply.value, key);
      if error.Some? {
        io := Outcomes(sent, Accepted, None);
        AnswersInSteps(c, h, key, io);
        FaultsOf(sent, Accepted, None);
        return;
      }
      ghost var w := Endpoint.WriteFrame(c, h.reply.value, key, sent);
      error, flushed := FlushCodec();
      io := Outcomes(sent, flushed, None);
      AnswersInSteps(c, h, key, io);
      FaultsOf(sent, flushed, None);
      ghost var f := Endpoint.FlushCodec(w.after, flushed);
      assert codec.accepted == old(codec.accepted) + (w.queued + f.queued);
      assert codec.stream.wire == old(codec.stream.wire) + (w.emitted + f.emitted);
    }

    /** One turn of the loop in `read`; `None` is a turn after which it goes round again. */
    method Turn(key: MaskKey)
        returns (done: Option<Result<Message, Error>>, ghost arrived: bytes, ghost arrival: Arrival, ghost io: Outcomes)
      requires Valid() && !state.Terminated?
      modifies Repr()
      ensures Grown()
      ensures arrived + codec.stream.incoming == old(codec.stream.incoming)
      ensures var x := ReadTurn(Fed(old(View()), arrived), arrival, key, io);
              Took(x) && Answered(x.report, done)
      ensures Faced(ArrivalFaults(arrival) + IoFaults(io))
      ensures arrival.EndOfStream? ==> codec.stream.incoming == []
      ensures done.None? ==> arrival.Pending? && io == SMOOTH
    {
      hide FrameCodec.Valid, CanRead, IoFaults, ArrivalFaults, EncodeAll, ValidPartial, ReadTurn, Answer;
      io := SMOOTH;
      FaultFreeIsSmooth(io, Pending);
      var got;
      got, arrived, arrival := ReadMessageFrame();
      ghost var before := View();
      if got.Err? {
        assert AfterFrame(before, got, key, io) == Effect(before, [], [], Failed(got.error));
        ContainedIsGrown();
        return Some(Err(got.error)), arrived, arrival, io;
      }
      var error;
      error, io := SendReply(got.value, key);
      assert AfterFrame(before, got, key, io) == Answer(before, got.value, key, io);
      ContainedIsGrown();
      done := if error.Some? then Some(Err(error.value))
              else if got.value.message.Some? then Some(Ok(got.value.message.value)) else None;
    }

    /** The loop in `read`. */
    method Turns(key: MaskKey)
        returns (r: Result<Message, Error>, ghost arrived: bytes, ghost arrival: Arrival, ghost io: Outcomes)
      requires Valid() && !state.Terminated?
      modifies Repr()
      ensures Grown()
      ensures arrived + codec.stream.incoming == old(codec.stream.incoming)
      ensures var x := ReadTurns(Fed(old(View()), arrived), arrival, key, io); Took(x) && Answers(r, x.report)
      ensures Faced(ArrivalFaults(arrival) + IoFaults(io))
      ensures arrival.EndOfStream? ==> codec.stream.incoming == []
    {
      hide FrameCodec.Valid, EncodeAll, ValidCore, ReadTurn, ReadTurns, SameFuture, Work, Repr, Valid;
      ghost var c0 := View();
      assert CanTurn(c0);
      arrived, arrival, io := [], Pending, SMOOTH;
      FedNothing(c0);
      SameFutureReflexive(c0, key);
      while true
        invariant Valid() && Grown() && !state.Terminated?
        invariant codec.accepted == old(codec.accepted) && codec.stream.wire == old(codec.stream.wire)
        invariant codec.broken == old(codec.broken) && codec.stream.faults == old(codec.stream.faults)
        invariant arrived + codec.stream.incoming == old(codec.stream.incoming)
        invariant SameFuture(Fed(c0, arrived), View(), key)
        decreases Work(codec.decoder.View(), codec.readBuf.Contents() + codec.stream.incoming)
      {
        ghost var seen, d, chunk := arrived, View(), [];
        var done;
        label before:
        done, chunk, arrival, io := Turn(key);
        forall o: object | o in Repr() && o !in old(Repr())
          ensures fresh(o)
        {
          assert o !in old@before(Repr()) ==> !old@before(allocated(o));
        }
        arrived := seen + chunk;
        assert Answered(ReadTurn(Fed(d, chunk), arrival, key, io).report, done) && CanTurn(c0);
        assert arrived + codec.stream.incoming == seen + (chunk + codec.stream.incoming);
        if done.Some? {
          LastTurn(c0, d, seen, chunk, arrival, key, io);
          return done.value, arrived, arrival, io;
        }
        AnotherTurn(c0, d, seen, chunk, codec.stream.incoming, arrival, key, io);
      }
    }

    /**
      * `read`. `arrived` is everything the stream delivered while it waited, in however many chunks; the outcome is
      * the one the state machine has with all of it buffered at once.
      */
    method Read(key: MaskKey)
        returns (r: Result<Message, Error>, ghost arrived: bytes, ghost arrival: Arrival, ghost io: Outcomes)
      requires Valid()
      modifies Repr()
      ensures Grown()
      ensures arrived + codec.stream.incoming == old(codec.stream.incoming)
      ensures var x := ReadCall(Fed(old(View()), arrived), arrival, key, io); Took(x) && Answers(r, x.report)
      ensures Faced(ArrivalFaults(arrival) + IoFaults(io))
      ensures arrival.EndOfStream? ==> codec.stream.incoming == []
      ensures old(role.Server? && (state.ClosedByPeer? || state.CloseAcknowledged?)) ==>
                r == Err(ConnectionClosed) && View() == old(View()).(core := old(CoreView()).(state := Terminated))
      ensures old(state.Terminated?) ==> r == Err(AlreadyClosed) && View() == old(View())
      ensures old(state.Terminated? || (role.Server? && (state.ClosedByPeer? || state.CloseAcknowledged?))) ==>
                && codec.stream.incoming == old(codec.stream.incoming) && codec.stream.wire == old(codec.stream.wire)
                && codec.stream.flushed == old(codec.stream.flushed) && codec.stream.faults == old(codec.stream.faults)
    {
      hide FrameCodec.Valid, EncodeAll, ValidPartial, ReadTurns;
      arrived, arrival, io := [], Pending, SMOOTH;
      FedNothing(View());
      if state.Terminated? {
        return Err(AlreadyClosed), arrived, arrival, io;
      }
      if role.Server? && !CanRead(state) {
        state := Terminated;
        return Err(ConnectionClosed), arrived, arrival, io;
      }
      r, arrived, arrival, io := Turns(key);
    }
  }

  function OnSuccess(h: Handled): Report {
    if h.message.Some? then Delivered(h.message.value) else NextTurn
  }

  predicate Answers(r: Result<Message, Error>, report: Report) {
    match r
    case Ok(m) => report == Delivered(m)
    case Err(e) => report == Failed(e)
  }

  predicate Answered(report: Report, done: Option<Result<Message, Error>>) {
    if done.Some? then Answers(done.value, report) else report.NextTurn?
  }

  lemma TakeIs(c: Core, f: Frame)
    requires ValidCore(c) && !c.state.Terminated?
    ensures Take(c, f) ==
            if Refusal(c, f).Some? then (c, Err(Refusal(c, f).value)) else Endpoint.HandleFrame(c, f)
  {
    hide ValidPartial, Endpoint.HandleFrame;
  }

  /** A frame comes from what is buffered, not from the end of the stream. */
  lemma OkIsDecoded(d: Decoding, arrival: Arrival, item: Option<Result<Frame, Error>>)
    requires NextAnswers(d, arrival, item)
    ensures item.Some? && item.value.Ok? ==> !NeedsInput(d.out)
  {
  }

  lemma AnswersInSteps(c: Conn, h: Handled, key: MaskKey, io: Outcomes)
    ensures var x := Answer(c, h, key, io);
            if h.reply.None? then x == Effect(c, [], [], OnSuccess(h))
            else
              var w := Endpoint.WriteFrame(c, h.reply.value, key, io.send);
              if w.report.Failed? then x == w
              else
                var f := Endpoint.FlushCodec(w.after, io.flush);
                x == Effect(f.after, w.queued + f.queued, w.emitted + f.emitted,
                            if f.report.Failed? then f.report else OnSuccess(h))
  {
    hide SendFrame, FlushBuffer;
  }

  lemma SameFutureReflexive(c: Conn, key: MaskKey)
    requires CanTurn(c)
    ensures SameFuture(c, c, key)
  {
  }

  /** The turn that returns decides the whole call. */
  lemma LastTurn(c0: Conn, d: Conn, seen: bytes, chunk: bytes, arrival: Arrival, key: MaskKey, io: Outcomes)
    requires SameFuture(Fed(c0, seen), d, key) && CanTurn(c0)
    requires !ReadTurn(Fed(d, chunk), arrival, key, io).report.NextTurn?
    ensures ReadTurns(Fed(c0, seen + chunk), arrival, key, io) == ReadTurn(Fed(d, chunk), arrival, key, io)
  {
    hide ReadTurn, ValidPartial;
    FedTwice(c0, seen, chunk);
  }

  /** A turn that goes round leaves the future as it was and less to do. */
  lemma AnotherTurn(c0: Conn, d: Conn, seen: bytes, chunk: bytes, ahead: bytes, arrival: Arrival, key: MaskKey,
      io: Outcomes)
    requires SameFuture(Fed(c0, seen), d, key) && CanTurn(c0)
    requires ReadTurn(Fed(d, chunk), arrival, key, io).report.NextTurn?
    ensures var x := ReadTurn(Fed(d, chunk), arrival, key, io);
            && SameFuture(Fed(c0, seen + chunk), x.after, key)
            && x.queued == [] && x.emitted == [] && !x.after.core.state.Terminated?
            && Work(x.after.decoder, x.after.readBuffer + ahead) < Work(d.decoder, d.readBuffer + (chunk + ahead))
  {
    hide ReadTurn, ValidPartial;
    SameFutureAfterTurn(Fed(c0, seen), d, chunk, arrival, key, io);
    FedTwice(c0, seen, chunk);
    NextTurnIsFragment(Fed(d, chunk), arrival, key, io);
  }

  /** What is left of a turn once `read_message_frame` has returned `r`. */
  function AfterFrame(c: Conn, r: Result<Handled, Error>, key: MaskKey, io: Outcomes): Effect {
    match r
    case Err(e) => Effect(c, [], [], Failed(e))
    case Ok(h) => Answer(c, h, key, io)
  }

  function AfterDecoding(c: Conn): Conn {
    var d := DecodeOnce(c.decoder, c.readBuffer);
    c.(decoder := d.after, readBuffer := d.rest)
  }

  /** How a turn goes on once the codec has answered. */
  lemma TurnIs(c: Conn, arrival: Arrival, item: Option<Result<Frame, Error>>, core: Core, r: Result<Handled, Error>)
    requires CanTurn(c) && NextAnswers(DecodeOnce(c.decoder, c.readBuffer), arrival, item)
    requires match item
             case None => core == c.core.(state := Terminated) &&
                          r == Err(if c.core.state.ClosedByPeer? || c.core.state.CloseAcknowledged?
                                   then ConnectionClosed
                                   else Protocol(ResetWithoutClosingHandshake))
             case Some(Err(e)) => core == c.core && r == Err(CheckReset(e, c.core.state))
             case Some(Ok(f)) => (core, r) == Take(c.core, f)
    ensures forall key: MaskKey, io: Outcomes ::
              ReadTurn(c, arrival, key, io) == AfterFrame(AfterDecoding(c).(core := core), r, key, io)
  {
    hide DecodeOnce, HandleFrame, ValidPartial, Answer, Refusal;
    DecodeErrorsAreNotIo(c.decoder, c.readBuffer);
    forall key: MaskKey, io: Outcomes
      ensures ReadTurn(c, arrival, key, io) == AfterFrame(AfterDecoding(c).(core := core), r, key, io)
    {
    }
  }

  lemma DecodeErrorsAreNotIo(d: Decoder, src: bytes)
    ensures DecodeOnce(d, src).out.Failure? ==> !DecodeOnce(d, src).out.error.Io?
  {
    hide ParseHeader, Masked;
  }

  lemma ClosedAlready(c: Conn, close: Option<CloseFrame>, key: MaskKey, io: Outcomes)
    ensures !c.core.state.Active? ==> UserClose(c, close, key, io) == UserFlush(c, io)
  {
  }

  lemma ClosesInTwoSteps(c: Conn, close: Option<CloseFrame>, key: MaskKey, io: Outcomes)
    requires c.core.state.Active?
    ensures var w := Endpoint.WriteFrame(WithState(c, ClosedByUs), CloseFrameOf(close), key, io.send);
            var x := UserClose(c, close, key, io);
            if w.report.Failed? then x == w
            else var f := UserFlush(w.after, io);
                 x.after == f.after && x.queued == w.queued + f.queued && x.emitted == w.emitted + f.emitted
                     && x.report == f.report
  {
    hide Endpoint.WriteFrame, UserFlush, CloseFrameOf;
  }

  lemma TerminatingFlush(c: Conn, io: Outcomes)
    requires c.core.role.Server? && !CanRead(c.core.state)
    ensures var s := FlushBuffer(c.writeBuffer, io.flush);
            UserFlush(c, io) == Effect(
              WithState(c, Terminated).(
                writeBuffer := s.buffer, shut := c.shut || (s.error.None? && io.shutdown.None?)),
              [], s.emitted,
              Failed(if s.error.Some? then s.error.value
                     else if io.shutdown.Some? then Io(io.shutdown.value) else ConnectionClosed))
  {
    hide FlushBuffer;
  }

  lemma SendIsIrrelevant(c: Conn, io: Outcomes, send: Outcome)
    ensures UserFlush(c, io) == UserFlush(c, io.(send := send))
  {
  }
}
