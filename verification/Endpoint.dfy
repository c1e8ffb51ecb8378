/**
  * One endpoint as a state machine: what each call of src/protocol/websocket.rs does to the connection state,
  * the message under reassembly, the decoder and the buffers, for every outcome of the underlying stream.
  */
module Endpoint {
  import opened Prelude
  import opened Coding
  import opened Errors
  import opened Mask
  import opened Frame
  import opened Decode
  import Utf8
  import opened Message
  import opened Sender

  datatype Role = Server | Client

  datatype State = Active | ClosedByUs | ClosedByPeer | CloseAcknowledged | Terminated

  predicate CanRead(s: State) {
    s.Active? || s.ClosedByUs?
  }

  /** The part of an endpoint frame handling looks at. */
  datatype Core = Core(role: Role, state: State, incomplete: Option<Partial>, maxMessageSize: Option<nat>)

  predicate ValidCore(c: Core) {
    c.incomplete.Some? ==> ValidPartial(c.incomplete.value)
  }

  // ---- handling one frame ----

  /** Close code 1002 with the reason "Protocol violation". */
  function Violation(): CloseFrame {
    CloseFrame(ProtocolViolation, AsciiText("Protocol violation"))
  }

  function Sanitised(close: Option<CloseFrame>): Option<CloseFrame> {
    if close.Some? && !IsAllowed(close.value.code) then Some(Violation()) else close
  }

  /** A message for the user and a frame to send back, either of which may be missing. */
  datatype Handled = Handled(message: Option<Message>, reply: Option<Frame>)

  /** `do_close`. Calling it when terminated is the source's `unreachable!`. */
  function DoClose(c: Core, close: Option<CloseFrame>): (Core, Handled)
    requires !c.state.Terminated?
  {
    match c.state
    case Active =>
      var shown := Sanitised(close);
      (c.(state := ClosedByPeer), Handled(Some(CloseMessage(shown)), Some(CloseFrameOf(shown))))
    case ClosedByUs => (c.(state := CloseAcknowledged), Handled(Some(CloseMessage(close)), None))
    case _ => (c, Handled(None, None))
  }

  function HandleControl(c: Core, f: Frame): (Core, Result<Handled, Error>)
    requires !c.state.Terminated? && f.header.opcode.ControlOp?
  {
    if !f.header.isFinal then (c, Err(Protocol(FragmentedControlFrame)))
    else if |f.payload| > 125 then (c, Err(Protocol(ControlFrameTooBig)))
    else match f.header.opcode.control
      case Close =>
        (match IntoClose(f.payload)
         case Err(e) => (c, Err(e))
         case Ok(close) => var (after, h) := DoClose(c, close); (after, Ok(h)))
      case ReservedControl(i) => (c, Err(Protocol(UnknownControlFrameType(i))))
      case Ping =>
        (c, Ok(Handled(Some(PingMessage(f.payload)), if c.state.Active? then Some(PongFrame(f.payload)) else None)))
      case Pong => (c, Ok(Handled(Some(PongMessage(f.payload)), None)))
  }

  function DataResult(r: Result<Message, Error>): Result<Handled, Error> {
    match r
    case Ok(m) => Ok(Handled(Some(m), None))
    case Err(e) => Err(e)
  }

  function HandleContinue(c: Core, f: Frame): (Core, Result<Handled, Error>)
    requires ValidCore(c)
  {
    if c.incomplete.None? then (c, Err(Protocol(UnexpectedContinueFrame)))
    else
      var e := ExtendPartial(c.incomplete.value, f.payload, c.maxMessageSize);
      ExtendKeepsValid(c.incomplete.value, f.payload, c.maxMessageSize);
      if e.error.Some? then (c.(incomplete := Some(e.after)), Err(e.error.value))
      else if f.header.isFinal then (c.(incomplete := None), DataResult(CompletePartial(e.after)))
      else (c.(incomplete := Some(e.after)), Ok(Handled(None, None)))
  }

  /** A text or binary frame that is the whole message. */
  function WholeMessage(payload: bytes, isText: bool, limit: Option<nat>): Result<Message, Error> {
    if !Within(|payload|, limit) then Err(MessageTooLong(|payload|, limit.value))
    else if !isText then Ok(BinaryMessage(payload))
    else if Utf8.WellFormed(payload) then Ok(TextMessage(payload))
    else Err(Utf8Error)
  }

  function HandleData(c: Core, f: Frame): (Core, Result<Handled, Error>)
    requires ValidCore(c) && f.header.opcode.DataOp?
  {
    var kind := f.header.opcode.data;
    if kind.Continue? then HandleContinue(c, f)
    else if c.incomplete.Some? then (c, Err(Protocol(ExpectedFragment(kind))))
    else match kind
      case ReservedData(i) => (c, Err(Protocol(UnknownDataFrameType(i))))
      case _ =>
        if f.header.isFinal then (c, DataResult(WholeMessage(f.payload, kind.Text?, c.maxMessageSize)))
        else
          var e := ExtendPartial(NewPartial(kind.Text?), f.payload, c.maxMessageSize);
          if e.error.Some? then (c, Err(e.error.value))
          else (c.(incomplete := Some(e.after)), Ok(Handled(None, None)))
  }

  /** `handle_frame`. */
  function HandleFrame(c: Core, f: Frame): (Core, Result<Handled, Error>)
    requires ValidCore(c) && !c.state.Terminated?
  {
    match f.header.opcode
    case ControlOp(_) => HandleControl(c, f)
    case DataOp(_) => HandleData(c, f)
  }

  lemma ExtendKeepsValid(p: Partial, tail: bytes, limit: Option<nat>)
    requires ValidPartial(p)
    ensures ValidPartial(ExtendPartial(p, tail, limit).after)
  {
    hide Utf8.WellFormed, Utf8.IsPartial, Collector.Feed;
    if p.PartialText? {
      Collector.FeedKeepsValid(p.text, tail);
    }
  }

  lemma NewPartialIsValid(isText: bool)
    ensures ValidPartial(NewPartial(isText))
  {
  }

  lemma HandleKeepsValid(c: Core, f: Frame)
    requires ValidCore(c) && !c.state.Terminated?
    ensures ValidCore(HandleFrame(c, f).0) && !HandleFrame(c, f).0.state.Terminated?
  {
    hide Utf8.WellFormed, ExtendPartial, CompletePartial, IntoClose, WholeMessage;
    if c.incomplete.Some? {
      ExtendKeepsValid(c.incomplete.value, f.payload, c.maxMessageSize);
    }
    NewPartialIsValid(true);
    NewPartialIsValid(false);
    ExtendKeepsValid(NewPartial(true), f.payload, c.maxMessageSize);
    ExtendKeepsValid(NewPartial(false), f.payload, c.maxMessageSize);
  }

  // ---- the whole endpoint ----

  /** `shut` once the writing half of the stream has been shut down, which is what lets the peer see its end. */
  datatype Conn = Conn(
    core: Core, decoder: Decoder, readBuffer: bytes, writeBuffer: bytes, writeLimit: nat, shut: bool)

  /** What the stream answers when the decoder asks for input it does not have yet. */
  datatype Arrival = Pending | EndOfStream | Lost(connectionReset: bool)

  /** Outcomes of the stream operations one call may make: a send, a flush after it, a shutdown. */
  datatype Outcomes = Outcomes(send: Outcome, flush: Outcome, shutdown: Option<bool>)

  const SMOOTH := Outcomes(Accepted, Accepted, None)

  datatype Report = Done | Delivered(message: Message) | Failed(error: Error) | Blocked | NextTurn

  /** The endpoint after a step, the frames it queued, the octets its stream took, and what the caller sees. */
  datatype Effect = Effect(after: Conn, queued: seq<Frame>, emitted: bytes, report: Report)

  /** `check_connection_reset`. */
  function CheckReset(e: Error, s: State): Error {
    if e.Io? && e.connectionReset && !CanRead(s) then ConnectionClosed else e
  }

  function WithState(c: Conn, s: State): Conn {
    c.(core := c.core.(state := s))
  }

  /** `write_frame`. */
  function WriteFrame(c: Conn, f: Frame, key: MaskKey, outcome: Outcome): Effect {
    var g := if c.core.role.Client? then Frame(f.header.(mask := Some(key)), f.payload) else f;
    var s := SendFrame(c.writeBuffer, c.writeLimit, g, outcome);
    match s.error
    case None => Effect(c.(writeBuffer := s.buffer), [g], s.emitted, Done)
    case Some(e) => Effect(c.(writeBuffer := s.buffer), [], s.emitted, Failed(CheckReset(e, c.core.state)))
  }

  /** `FrameCodec::flush`, which both `flush` and `read` call. */
  function FlushCodec(c: Conn, outcome: Outcome): Effect {
    var s := FlushBuffer(c.writeBuffer, outcome);
    Effect(c.(writeBuffer := s.buffer), [], s.emitted, if s.error.None? then Done else Failed(s.error.value))
  }

  /** `FrameCodec::close`: what is buffered is written, and only then is the stream shut down. */
  function CloseCodec(c: Conn, io: Outcomes): Effect {
    var e := FlushCodec(c, io.flush);
    if e.report.Failed? then e
    else if io.shutdown.Some? then e.(report := Failed(Io(io.shutdown.value)))
    else e.(after := e.after.(shut := true))
  }

  /** `flush`: a server with nothing left to read closes the connection. */
  function UserFlush(c: Conn, io: Outcomes): Effect {
    if c.core.role.Server? && !CanRead(c.core.state) then
      var e := CloseCodec(WithState(c, Terminated), io);
      if e.report.Failed? then e else e.(report := Failed(ConnectionClosed))
    else FlushCodec(c, io.flush)
  }

  /** `second` run after `first` has succeeded. */
  function Then(first: Effect, second: Effect): Effect {
    Effect(second.after, first.queued + second.queued, first.emitted + second.emitted, second.report)
  }

  /** `close`. */
  function UserClose(c: Conn, close: Option<CloseFrame>, key: MaskKey, io: Outcomes): Effect {
    if c.core.state.Active? then
      var w := WriteFrame(WithState(c, ClosedByUs), CloseFrameOf(close), key, io.send);
      if w.report.Failed? then w else Then(w, UserFlush(w.after, io))
    else UserFlush(c, io)
  }

  function FrameFor(m: Message): Frame
    requires !m.CloseMessage?
  {
    match m
    case TextMessage(text) => DataFrame(text, Text, true)
    case BinaryMessage(data) => DataFrame(data, Binary, true)
    case PingMessage(data) => PingFrame(data)
    case PongMessage(data) => PongFrame(data)
    case RawFrame(f) => f
  }

  /** `write`. */
  function UserWrite(c: Conn, m: Message, key: MaskKey, io: Outcomes): Effect {
    if c.core.state.Terminated? then Effect(c, [], [], Failed(AlreadyClosed))
    else if !c.core.state.Active? then Effect(c, [], [], Failed(Protocol(SendAfterClosing)))
    else if m.CloseMessage? then UserClose(c, m.close, key, io)
    else WriteFrame(c, FrameFor(m), key, io.send)
  }

  /** No more frames: the stream ended between two frames. */
  function StreamEnded(c: Conn): Effect {
    Effect(WithState(c, Terminated), [], [],
           Failed(if c.core.state.ClosedByPeer? || c.core.state.CloseAcknowledged? then ConnectionClosed
                  else Protocol(ResetWithoutClosingHandshake)))
  }

  function NoFrameYet(c: Conn, arrival: Arrival): Effect {
    match arrival
    case Pending => Effect(c, [], [], Blocked)
    case EndOfStream =>
      if c.decoder.header.None? && c.readBuffer == [] then StreamEnded(c)
      else Effect(c, [], [], Failed(Io(false)))
    case Lost(reset) => Effect(c, [], [], Failed(CheckReset(Io(reset), c.core.state)))
  }

  /** The checks `read_message_frame` makes before it handles a frame. */
  function Refusal(c: Core, f: Frame): Option<Error> {
    if !CanRead(c.state) then Some(Protocol(ReceivedAfterClosing))
    else if f.header.rsv1 || f.header.rsv2 || f.header.rsv3 then Some(Protocol(NonZeroReservedBits))
    else if c.role.Client? && f.header.mask.Some? then Some(Protocol(MaskedFrameFromServer))
    else None
  }

  /** Sends the reply, if any, and flushes it before the message is handed over. */
  function Answer(c: Conn, h: Handled, key: MaskKey, io: Outcomes): Effect {
    var report := if h.message.Some? then Delivered(h.message.value) else NextTurn;
    if h.reply.None? then Effect(c, [], [], report)
    else
      var w := WriteFrame(c, h.reply.value, key, io.send);
      if w.report.Failed? then w
      else
        var e := Then(w, FlushCodec(w.after, io.flush));
        if e.report.Failed? then e else e.(report := report)
  }

  /** The checks on a frame, then its handling. */
  function Take(c: Core, f: Frame): (Core, Result<Handled, Error>)
    requires ValidCore(c)
  {
    match Refusal(c, f)
    case Some(e) => (c, Err(e))
    case None => HandleFrame(c, f)
  }

  function ReceiveFrame(c: Conn, f: Frame, key: MaskKey, io: Outcomes): Effect
    requires ValidCore(c.core)
  {
    var (core, r) := Take(c.core, f);
    match r
    case Err(e) => Effect(c.(core := core), [], [], Failed(e))
    case Ok(h) => Answer(c.(core := core), h, key, io)
  }

  /** One turn of the loop in `read`. */
  function ReadTurn(c: Conn, arrival: Arrival, key: MaskKey, io: Outcomes): Effect
    requires ValidCore(c.core)
  {
    var d := DecodeOnce(c.decoder, c.readBuffer);
    var c1 := c.(decoder := d.after, readBuffer := d.rest);
    match d.out
    case Item(f) => ReceiveFrame(c1, f, key, io)
    case Failure(e) => Effect(c1, [], [], Failed(e))
    case _ => NoFrameYet(c1, arrival)
  }

  /** The checks at the start of `read`, then one turn of its loop. */
  function UserRead(c: Conn, arrival: Arrival, key: MaskKey, io: Outcomes): Effect
    requires ValidCore(c.core)
  {
    if c.core.state.Terminated? then Effect(c, [], [], Failed(AlreadyClosed))
    else if c.core.role.Server? && !CanRead(c.core.state) then
      Effect(WithState(c, Terminated), [], [], Failed(ConnectionClosed))
    else ReadTurn(c, arrival, key, io)
  }

  // ---- events ----

  datatype Event =
    | Write(message: Message, key: MaskKey, io: Outcomes)
    | Shut(close: Option<CloseFrame>, key: MaskKey, io: Outcomes)
    | FlushAll(io: Outcomes)
    | Arrive(chunk: bytes)
    | Read(arrival: Arrival, key: MaskKey, io: Outcomes)

  function Apply(c: Conn, e: Event): Effect
    requires ValidCore(c.core)
  {
    match e
    case Write(m, key, io) => UserWrite(c, m, key, io)
    case Shut(close, key, io) => UserClose(c, close, key, io)
    case FlushAll(io) => UserFlush(c, io)
    case Arrive(chunk) => Effect(c.(readBuffer := c.readBuffer + chunk), [], [], Done)
    case Read(arrival, key, io) => UserRead(c, arrival, key, io)
  }

  datatype WebSocketConfig = WebSocketConfig(
    writeBufferSize: nat, maxMessageSize: Option<nat>, maxFrameSize: Option<nat>, acceptUnmaskedFrames: bool)

  const DEFAULT_CONFIG := WebSocketConfig(128 * 1024, Some(0x400_0000), Some(0x100_0000), false)

  /** `setup`; `buffered` is what was read behind the handshake, nothing for a raw socket. */
  function NewConn(role: Role, config: WebSocketConfig, buffered: bytes): Conn {
    Conn(Core(role, Active, None, config.maxMessageSize),
         Decoder(None, config.maxFrameSize, role.Server?, config.acceptUnmaskedFrames),
         buffered, [], config.writeBufferSize, false)
  }

  lemma WriteKeepsCore(c: Conn, f: Frame, key: MaskKey, outcome: Outcome)
    ensures var e := WriteFrame(c, f, key, outcome);
            && e.after == c.(writeBuffer := e.after.writeBuffer)
            && (e.report.Done? || e.report.Failed?)
            && |e.queued| == (if e.report.Done? then 1 else 0)
  {
    hide SendFrame;
  }

  lemma ApplyKeepsValid(c: Conn, e: Event)
    requires ValidCore(c.core)
    ensures ValidCore(Apply(c, e).after.core)
  {
    hide DecodeOnce, WriteFrame, FlushBuffer, HandleFrame, ValidPartial;
    if e.Read? {
      var d := DecodeOnce(c.decoder, c.readBuffer);
      if d.out.Item? && Refusal(c.core, d.out.frame).None? {
        HandleKeepsValid(c.core, d.out.frame);
        var r := HandleFrame(c.core, d.out.frame);
        if r.1.Ok? && r.1.value.reply.Some? {
          WriteKeepsCore(c.(decoder := d.after, readBuffer := d.rest, core := r.0), r.1.value.reply.value, e.key,
              e.io.send);
        }
      }
    } else if e.Shut? || (e.Write? && e.message.CloseMessage?) {
      WriteKeepsCore(WithState(c, ClosedByUs), CloseFrameOf(if e.Shut? then e.close else e.message.close), e.key,
          e.io.send);
    } else if e.Write? {
      WriteKeepsCore(c, FrameFor(e.message), e.key, e.io.send);
    }
  }
}
