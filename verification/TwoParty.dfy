/**
  * A client and a server joined by two reliable byte channels. Either side may make any call at any time and octets
  * may arrive in pieces of any size, so every interleaving, including simultaneous close, is a run of this system.
  */
module TwoParty {
  import opened Prelude
  import opened Coding
  import opened Errors
  import opened Mask
  import opened Frame
  import opened Decode
  import Utf8
  import opened Message
  import opened Sender
  import opened Endpoint
  import opened Runs

  /** `inbound` holds the octets the peer's stream has taken and this side has not yet received. */
  datatype Side = Side(history: History, inbound: bytes)

  datatype Net = Net(client: Side, server: Side)

  function Mine(n: Net, byClient: bool): Side {
    if byClient then n.client else n.server
  }

  function Peer(n: Net, byClient: bool): Side {
    if byClient then n.server else n.client
  }

  datatype Step =
    | UserWrites(message: Message, key: MaskKey)
    | UserCloses(close: Option<CloseFrame>, key: MaskKey)
    | UserFlushes
    | OctetsArrive(n: nat)
    | UserReads(key: MaskKey, endSeen: bool)

  // ---- one side taking a step while the other waits ----

  /**
    * The stream may report its end from the moment the peer has shut it down and everything it wrote has been
    * received; how long that takes is open.
    */
  function ArrivalFor(me: Side, peer: Side, endSeen: bool): Arrival {
    if endSeen && me.inbound == [] && peer.history.conn.shut then EndOfStream else Pending
  }

  function EventFor(me: Side, peer: Side, s: Step): Event {
    match s
    case UserWrites(m, key) => Write(m, key, SMOOTH)
    case UserCloses(close, key) => Shut(close, key, SMOOTH)
    case UserFlushes => FlushAll(SMOOTH)
    case OctetsArrive(n) => Arrive(me.inbound[..if n <= |me.inbound| then n else |me.inbound|])
    case UserReads(key, endSeen) => Read(ArrivalFor(me, peer, endSeen), key, SMOOTH)
  }

  function InboundAfter(me: Side, s: Step): bytes {
    match s
    case OctetsArrive(n) => me.inbound[if n <= |me.inbound| then n else |me.inbound|..]
    case _ => me.inbound
  }

  predicate ValidNet(n: Net) {
    ValidCore(n.client.history.conn.core) && ValidCore(n.server.history.conn.core)
  }

  /** `me` takes the step; what its stream takes is on the way to `peer`. */
  function Moved(me: Side, peer: Side, s: Step): (Side, Side)
    requires ValidCore(me.history.conn.core)
  {
    var e := EventFor(me, peer, s);
    var x := Apply(me.history.conn, e);
    (Side(Advance(me.history, e), InboundAfter(me, s)), peer.(inbound := peer.inbound + x.emitted))
  }

  datatype Move = Move(byClient: bool, step: Step)

  function Next(n: Net, m: Move): (r: Net)
    requires ValidNet(n)
    ensures ValidNet(r)
  {
    if m.byClient then var (c, s) := Moved(n.client, n.server, m.step); Net(c, s)
    else var (s, c) := Moved(n.server, n.client, m.step); Net(c, s)
  }

  function Play(n: Net, moves: seq<Move>): (r: Net)
    requires ValidNet(n)
    ensures ValidNet(r)
    decreases |moves|
  {
    if moves == [] then n else Play(Next(n, moves[0]), moves[1..])
  }

  function NewSide(role: Role, config: WebSocketConfig): Side {
    Side(NewHistory(NewConn(role, config, [])), [])
  }

  /** Two new endpoints on an empty connection. */
  function Start(client: WebSocketConfig, server: WebSocketConfig): (n: Net)
    ensures ValidNet(n)
  {
    Net(NewSide(Client, client), NewSide(Server, server))
  }

  // ---- what users are asked to keep to ----

  /** What the receiver `c` accepts: the limits of its configuration. */
  predicate Fits(c: Conn, size: nat) {
    Within(size, c.core.maxMessageSize) && Within(size, c.decoder.maxFrameSize) && size < U64_LIMIT
  }

  predicate CloseFits(close: Option<CloseFrame>) {
    close.Some? ==> |close.value.reason| <= 123
  }

  /** No raw frames, control payloads of at most 125 octets, and data the peer's limits allow. */
  predicate Polite(peer: Conn, s: Step) {
    match s
    case UserWrites(m, _) =>
      (match m
       case TextMessage(t) => Fits(peer, |t|)
       case BinaryMessage(b) => Fits(peer, |b|)
       case PingMessage(p) => |p| <= 125
       case PongMessage(p) => |p| <= 125
       case CloseMessage(close) => CloseFits(close)
       case RawFrame(_) => false)
    case UserCloses(close, _) => CloseFits(close)
    case _ => true
  }

  /** Control frames of any permitted size can be received. */
  predicate Configured(c: Conn) {
    SizeLimit(c.core.maxMessageSize) <= USIZE_MAX && Within(125, c.decoder.maxFrameSize)
  }

  predicate Usable(config: WebSocketConfig) {
    Configured(NewConn(Client, config, []))
  }

  predicate PoliteMove(n: Net, m: Move) {
    Polite(if m.byClient then n.server.history.conn else n.client.history.conn, m.step)
  }

  // ---- the invariant ----

  /** The message a receiver in state `s` is given for a queued frame. */
  function Shown(s: State, f: Frame): Option<Message> {
    match f.header.opcode
    case DataOp(Text) => if Utf8.WellFormed(f.payload) then Some(TextMessage(f.payload)) else None
    case DataOp(Binary) => Some(BinaryMessage(f.payload))
    case ControlOp(Ping) => Some(PingMessage(f.payload))
    case ControlOp(Pong) => Some(PongMessage(f.payload))
    case ControlOp(Close) =>
      (match IntoClose(f.payload)
       case Ok(close) => Some(CloseMessage(if s.Active? then Sanitised(close) else close))
       case Err(_) => None)
    case _ => None
  }


  predicate PayloadOk(y: Conn, f: Frame) {
    match f.header.opcode
    case DataOp(Text) => Utf8.WellFormed(f.payload) && Within(|f.payload|, y.core.maxMessageSize)
    case DataOp(Binary) => Within(|f.payload|, y.core.maxMessageSize)
    case ControlOp(Ping) => |f.payload| <= 125
    case ControlOp(Pong) => |f.payload| <= 125
    case ControlOp(Close) => |f.payload| <= 125 && IntoClose(f.payload).Ok?
    case _ => false
  }

  predicate PlainBits(h: FrameHeader) {
    h.isFinal && !h.rsv1 && !h.rsv2 && !h.rsv3
  }

  /** A frame a side of this role may queue for the receiver `y`. */
  predicate Sendable(role: Role, y: Conn, f: Frame) {
    && PlainBits(f.header) && (f.header.mask.Some? <==> role.Client?)
    && Acceptable(y.decoder, f) && PayloadOk(y, f)
  }

  /** The octets not yet decoded are exactly the encodings of the pending frames. */
  predicate BytesInv(d: Decoder, stream: bytes, pending: seq<Frame>) {
    Pump(d, stream) == Pumped(ReceivedAll(d, pending), None, d.(header := None), [])
  }

  predicate FramesInv(role: Role, y: Conn, queued: seq<Frame>) {
    forall i | 0 <= i < |queued| :: Sendable(role, y, queued[i])
  }

  predicate DeliveredInv(queued: seq<Frame>, delivered: seq<Delivery>) {
    && |delivered| <= |queued|
    && forall i | 0 <= i < |delivered| :: Shown(delivered[i].state, queued[i]) == Some(delivered[i].message)
  }

  /** A side has closed exactly when it has queued a Close, and can read exactly until it has been given one. */
  predicate StatesInv(x: State, y: State, queued: seq<Frame>, got: nat) {
    && ClosesLast(queued) && got <= |queued|
    && (x.Active? <==> NoClose(queued))
    && (CanRead(y) <==> NoClose(queued[..got]))
  }

  function Stream(x: Side, y: Side): bytes {
    y.history.conn.readBuffer + y.inbound + x.history.conn.writeBuffer
  }

  /** Everything about the direction from `x` to `y`. */
  predicate Link(x: Side, y: Side) {
    var hx, hy := x.history, y.history;
    && DeliveredInv(hx.queued, hy.delivered)
    && FramesInv(hx.conn.core.role, hy.conn, hx.queued)
    && StatesInv(hx.conn.core.state, hy.conn.core.state, hx.queued, |hy.delivered|)
    && BytesInv(hy.conn.decoder, Stream(x, y), hx.queued[|hy.delivered|..])
    && (!hx.conn.core.state.Active? ==> hx.conn.writeBuffer == [])
  }

  /** The only errors a polite user ever sees: the end of the connection, or a call made after closing. */
  predicate Expected(r: Report) {
    match r
    case Failed(ConnectionClosed) => true
    case Failed(AlreadyClosed) => true
    case Failed(Protocol(SendAfterClosing)) => true
    case Failed(_) => false
    case NextTurn => false
    case _ => true
  }

  predicate ReportsInv(reports: seq<Report>) {
    forall i | 0 <= i < |reports| :: Expected(reports[i])
  }

  predicate SideInv(x: Side, role: Role) {
    && HistoryInv(x.history)
    && Configured(x.history.conn) && x.history.conn.core.role == role
    && x.history.conn.decoder.unmask == role.Server?
    && x.history.conn.core.incomplete.None?
    && ReportsInv(x.history.reports)
    && (x.history.conn.core.state.Terminated? ==> Failed(ConnectionClosed) in x.history.reports)
  }

  predicate NetInv(n: Net) {
    && SideInv(n.client, Client) && SideInv(n.server, Server)
    && Link(n.client, n.server) && Link(n.server, n.client)
    && (n.client.history.conn.core.state.Terminated? ==> n.server.history.conn.shut)
  }

  // ---- frames users and endpoints queue are ones the peer accepts ----

  lemma ReceivedIsPlain(role: Role, y: Conn, f: Frame)
    requires Sendable(role, y, f) && y.decoder.unmask == role.Client?
    ensures Received(y.decoder, f) == Frame(f.header.(mask := None), f.payload)
  {
    hide Masked, PayloadOk, Acceptable;
  }

  lemma ControlSendable(role: Role, y: Conn, f: Frame, key: MaskKey)
    requires Configured(y) && y.decoder.unmask == role.Client?
    requires f.header == PlainHeader(f.header.opcode) && |f.payload| <= 125
    requires f.header.opcode == ControlOp(Ping) || f.header.opcode == ControlOp(Pong) ||
             (f.header.opcode == ControlOp(Close) && IntoClose(f.payload).Ok?)
    ensures Sendable(role, y, OnQueue(role, f, key))
  {
    hide IntoClose;
  }

  lemma DataSendable(role: Role, y: Conn, payload: bytes, isText: bool, key: MaskKey)
    requires Configured(y) && y.decoder.unmask == role.Client? && Fits(y, |payload|)
    requires isText ==> Utf8.WellFormed(payload)
    ensures Sendable(role, y, OnQueue(role, DataFrame(payload, if isText then Text else Binary, true), key))
  {
    hide Utf8.WellFormed;
  }

  lemma ClosePayloadFits(close: Option<CloseFrame>)
    requires CloseFits(close)
    ensures |ClosePayload(close)| <= 125 && IntoClose(ClosePayload(close)).Ok?
  {
    hide IntoClose, OnTheWire, Utf8.WellFormed;
    CloseRoundTrip(close);
  }

  lemma PoliteFrameSendable(role: Role, y: Conn, m: Message, key: MaskKey)
    requires Configured(y) && y.decoder.unmask == role.Client? && Polite(y, UserWrites(m, key)) && !m.CloseMessage?
    ensures Sendable(role, y, OnQueue(role, FrameFor(m), key))
    ensures !IsClose(OnQueue(role, FrameFor(m), key))
  {
    hide OnQueue, Sendable, Utf8.WellFormed, IntoClose;
    match m {
      case TextMessage(t) => DataSendable(role, y, t, true, key);
      case BinaryMessage(b) => DataSendable(role, y, b, false, key);
      case PingMessage(p) => ControlSendable(role, y, PingFrame(p), key);
      case PongMessage(p) => ControlSendable(role, y, PongFrame(p), key);
    }
    QueueKeepsKind(role, FrameFor(m), key);
  }

  lemma QueueKeepsKind(role: Role, f: Frame, key: MaskKey)
    ensures IsClose(OnQueue(role, f, key)) == IsClose(f) && IsPong(OnQueue(role, f, key)) == IsPong(f)
    ensures OnQueue(role, f, key).payload == f.payload
  {
  }

  lemma CloseSendable(role: Role, y: Conn, close: Option<CloseFrame>, key: MaskKey)
    requires Configured(y) && y.decoder.unmask == role.Client?
    requires |ClosePayload(close)| <= 125 && IntoClose(ClosePayload(close)).Ok?
    ensures Sendable(role, y, OnQueue(role, CloseFrameOf(close), key))
            && IsClose(OnQueue(role, CloseFrameOf(close), key))
  {
    hide Sendable, IntoClose, ClosePayload;
    ControlSendable(role, y, CloseFrameOf(close), key);
  }

  // ---- bytes ----

  /** Appending an encoded frame to the stream appends it to what will be decoded. */
  lemma BytesAppend(d: Decoder, stream: bytes, pending: seq<Frame>, f: Frame)
    requires BytesInv(d, stream, pending) && Acceptable(d, f)
    ensures BytesInv(d, stream + EncodeFrame(f), pending + [f])
  {
    hide Pump, Acceptable, EncodeFrame, Received, EncodeAll;
    var clean := d.(header := None);
    PumpExtends(d, stream, EncodeFrame(f));
    assert [] + EncodeFrame(f) == EncodeFrame(f);
    assert Acceptable(clean, f) by { AcceptableClean(d, f); }
    assert EncodeAll([f]) == EncodeFrame(f) by { EncodeOne(f); }
    WholeStreamRoundTrip(clean, [f]);
    assert forall g :: Received(clean, g) == Received(d, g) by { ReceivedClean(d); }
    assert ReceivedAll(d, pending + [f]) == ReceivedAll(d, pending) + ReceivedAll(clean, [f]);
  }

  lemma EncodeOne(f: Frame)
    ensures EncodeAll([f]) == EncodeFrame(f)
  {
    hide EncodeFrame;
    assert EncodeAll([f]) == EncodeFrame(f) + EncodeAll([]);
  }

  lemma AcceptableClean(d: Decoder, f: Frame)
    ensures Acceptable(d.(header := None), f) == Acceptable(d, f)
  {
  }

  lemma ReceivedClean(d: Decoder)
    ensures forall g :: Received(d.(header := None), g) == Received(d, g)
  {
    hide Masked;
  }

  /** The next frame decoded is the next pending one; waiting for input loses nothing; decoding never fails. */
  lemma BytesDecode(d: Decoder, buffered: bytes, more: bytes, pending: seq<Frame>)
    requires BytesInv(d, buffered + more, pending)
    ensures var r := DecodeOnce(d, buffered);
            && !r.out.Failure?
            && (NeedsInput(r.out) ==> BytesInv(r.after, r.rest + more, pending))
            && (r.out.Item? ==>
                  && pending != [] && r.out.frame == Received(d, pending[0])
                  && BytesInv(r.after, r.rest + more, pending[1..]))
            && (NeedsInput(r.out) && more == [] ==> pending == [] && r.after.header.None? && r.rest == [])
  {
    hide DecodeOnce, Received;
    var r := DecodeOnce(d, buffered);
    DecodeExtends(d, buffered, more);
    DecodeKeeps(d, buffered);
    ReceivedOfConfig(d, r.after);
    if r.out.Item? {
      assert ReceivedAll(d, pending) == [r.out.frame] + Pump(r.after, r.rest + more).frames;
      assert ReceivedAll(d, pending)[0] == r.out.frame;
      assert ReceivedAll(r.after, pending[1..]) == ReceivedAll(d, pending)[1..];
    } else if NeedsInput(r.out) {
      assert ReceivedAll(r.after, pending) == ReceivedAll(d, pending);
      if more == [] {
        assert r.rest + more == r.rest && buffered + more == buffered;
        DecodeWaits(d, buffered);
      }
    }
  }

  lemma ReceivedOfConfig(d: Decoder, e: Decoder)
    requires d.(header := None) == e.(header := None)
    ensures forall g :: Received(d, g) == Received(e, g)
  {
    hide Masked;
  }

  /** A call that has to wait and a stream that starts with its leftovers decode alike. */
  lemma DecodeWaits(d: Decoder, src: bytes)
    requires NeedsInput(DecodeOnce(d, src).out)
    ensures var r := DecodeOnce(d, src); Pump(d, src) == Pumped([], None, r.after, r.rest)
  {
  }

  // ---- what one step of one side does ----

  /** The effect of any step of a side in an invariant state, as its peer `y` will see it. */
  predicate Moves(c: Conn, y: Conn, x: Effect) {
    && SameConfig(c, x.after) && x.after.core.incomplete == c.core.incomplete
    && x.emitted + x.after.writeBuffer == c.writeBuffer + EncodeAll(x.queued)
    && |x.queued| <= 1
    && (|x.queued| == 0 ==> x.after.core.state.Active? == c.core.state.Active?)
    && (|x.queued| == 1 ==>
          && c.core.state.Active? && Sendable(c.core.role, y, x.queued[0])
          && (IsClose(x.queued[0]) <==> !x.after.core.state.Active?))
    && (!x.after.core.state.Active? ==> x.after.writeBuffer == [])
    && (x.after.core.state.Terminated? ==> c.core.state.Terminated? || x.report == Failed(ConnectionClosed))
    && Expected(x.report)
  }

  /** Besides, a step other than `read` leaves the receiving half alone. */
  predicate KeepsReceiving(c: Conn, x: Effect) {
    && x.after.decoder == c.decoder && x.after.readBuffer == c.readBuffer
    && CanRead(x.after.core.state) == CanRead(c.core.state)
    && (x.after.core.state.Terminated? ==> c.core.state.Terminated? || c.core.role.Server?)
    && !x.report.Delivered?
  }

  predicate Quiet(c: Conn) {
    !c.core.state.Active? ==> c.writeBuffer == []
  }

  /** Writing a frame on a stream that takes everything. */
  lemma SmoothWriteFrame(c: Conn, f: Frame, key: MaskKey)
    ensures var x := WriteFrame(c, f, key, Accepted);
            && x.report.Done? && x.queued == [OnQueue(c.core.role, f, key)]
            && x.after == c.(writeBuffer := x.after.writeBuffer)
            && x.emitted + x.after.writeBuffer == c.writeBuffer + EncodeAll(x.queued)
  {
    hide EncodeFrame, EncodeAll;
    var g := OnQueue(c.core.role, f, key);
    EncodeOne(g);
    SendConserves(c.writeBuffer, c.writeLimit, g, Accepted);
  }

  lemma SmoothUserFlush(c: Conn)
    ensures var x := UserFlush(c, SMOOTH);
            && x.queued == [] && x.emitted == c.writeBuffer
            && if c.core.role.Server? && !CanRead(c.core.state) then
                 x.after == WithState(c, Terminated).(writeBuffer := [], shut := true)
                     && x.report == Failed(ConnectionClosed)
               else x.after == c.(writeBuffer := []) && x.report == Done
  {
  }

  lemma FlushMoves(c: Conn, y: Conn)
    requires Quiet(c)
    ensures Moves(c, y, UserFlush(c, SMOOTH)) && KeepsReceiving(c, UserFlush(c, SMOOTH))
  {
    hide UserFlush, Sendable;
    SmoothUserFlush(c);
    assert c.writeBuffer + EncodeAll([]) == c.writeBuffer + [];
  }

  lemma CloseMoves(c: Conn, y: Conn, close: Option<CloseFrame>, key: MaskKey)
    requires Quiet(c) && CloseFits(close) && Configured(y) && y.decoder.unmask == c.core.role.Client?
    ensures Moves(c, y, UserClose(c, close, key, SMOOTH)) && KeepsReceiving(c, UserClose(c, close, key, SMOOTH))
  {
    hide UserFlush, WriteFrame, Sendable, CloseFrameOf, OnQueue, IsClose, EncodeAll, Configured, IntoClose,
      ClosePayload;
    if c.core.state.Active? {
      var w := WriteFrame(WithState(c, ClosedByUs), CloseFrameOf(close), key, Accepted);
      SmoothWriteFrame(WithState(c, ClosedByUs), CloseFrameOf(close), key);
      SmoothUserFlush(w.after);
      ClosePayloadFits(close);
      CloseSendable(c.core.role, y, close, key);
      var x := UserClose(c, close, key, SMOOTH);
      assert x.queued == w.queued + [] == w.queued;
      assert x.emitted + x.after.writeBuffer == w.emitted + w.after.writeBuffer;
      assert x.report == Done;
    } else {
      FlushMoves(c, y);
    }
  }

  lemma WriteMoves(c: Conn, y: Conn, m: Message, key: MaskKey)
    requires Quiet(c) && Configured(y) && y.decoder.unmask == c.core.role.Client? && Polite(y, UserWrites(m, key))
    ensures Moves(c, y, UserWrite(c, m, key, SMOOTH)) && KeepsReceiving(c, UserWrite(c, m, key, SMOOTH))
  {
    hide UserClose, WriteFrame, Sendable, OnQueue, IsClose, Configured, FrameFor, IntoClose, Fits;
    if !c.core.state.Active? {
      assert c.writeBuffer + EncodeAll([]) == [] + c.writeBuffer;
    } else if m.CloseMessage? {
      CloseMoves(c, y, m.close, key);
    } else {
      SmoothWriteFrame(c, FrameFor(m), key);
      PoliteFrameSendable(c.core.role, y, m, key);
    }
  }

  lemma ReplyMoves(c: Conn, y: Conn, h: Handled, key: MaskKey)
    requires Quiet(c) || (h.reply.Some? && IsClose(h.reply.value))
    requires h.message.Some?
    requires h.reply.Some? ==> Sendable(c.core.role, y, OnQueue(c.core.role, h.reply.value, key))
    ensures var x := Answer(c, h, key, SMOOTH);
            && x.report == Delivered(h.message.value)
            && x.after == c.(writeBuffer := x.after.writeBuffer)
            && x.queued == (if h.reply.Some? then [OnQueue(c.core.role, h.reply.value, key)] else [])
            && x.emitted + x.after.writeBuffer == c.writeBuffer + EncodeAll(x.queued)
            && (if h.reply.Some? then x.after.writeBuffer == [] else x.after.writeBuffer == c.writeBuffer)
  {
    hide WriteFrame, Sendable, OnQueue, IsClose, EncodeAll, FlushBuffer;
    if h.reply.Some? {
      SmoothWriteFrame(c, h.reply.value, key);
      var w := WriteFrame(c, h.reply.value, key, Accepted);
      SmoothFlush(w.after);
      var x := Answer(c, h, key, SMOOTH);
      assert x.queued == w.queued + [] == w.queued;
      assert x.emitted + [] == w.emitted + w.after.writeBuffer;
    } else {
      EncodeNone();
      assert [] + c.writeBuffer == c.writeBuffer + [];
    }
  }

  lemma EncodeNone()
    ensures EncodeAll([]) == []
  {
  }

  // ---- receiving a pending frame ----

  /** The reply to a frame handled in state `s`. */
  function ReplyTo(s: State, f: Frame): Option<Frame> {
    if !s.Active? then None
    else if f.header.opcode == ControlOp(Ping) then Some(PongFrame(f.payload))
    else if IsClose(f) && IntoClose(f.payload).Ok? then Some(CloseFrameOf(Sanitised(IntoClose(f.payload).value)))
    else None
  }

  function StateAfter(s: State, f: Frame): State {
    if !IsClose(f) then s else if s.Active? then ClosedByPeer else CloseAcknowledged
  }

  /** A pending frame is accepted and shown as what was queued. */
  lemma HandlePending(c: Core, y: Conn, f: Frame)
    requires y.core == c && c.incomplete.None? && CanRead(c.state)
    requires PlainBits(f.header) && f.header.mask.None? && PayloadOk(y, f)
    ensures Refusal(c, f).None? && Shown(c.state, f).Some?
    ensures HandleFrame(c, f) ==
            (c.(state := StateAfter(c.state, f)), Ok(Handled(Shown(c.state, f), ReplyTo(c.state, f))))
  {
    hide Utf8.WellFormed, IntoClose, CloseFrameOf, Sanitised, CompletePartial, ExtendPartial;
    match f.header.opcode {
      case ControlOp(_) =>
      case DataOp(_) =>
    }
  }

  lemma ReplySendable(role: Role, y: Conn, f: Frame, s: State, key: MaskKey)
    requires Configured(y) && y.decoder.unmask == role.Client?
    requires ReplyTo(s, f).Some? && |f.payload| <= 125
    ensures Sendable(role, y, OnQueue(role, ReplyTo(s, f).value, key))
    ensures IsClose(OnQueue(role, ReplyTo(s, f).value, key)) <==> IsClose(f)
    ensures IsClose(ReplyTo(s, f).value) <==> IsClose(f)
  {
    hide Sendable, IntoClose, Sanitised, ClosePayload, OnQueue, Configured;
    var r := ReplyTo(s, f).value;
    QueueKeepsKind(role, r, key);
    if IsClose(f) {
      SanitisedReply(f.payload);
      CloseSendable(role, y, Sanitised(IntoClose(f.payload).value), key);
    } else {
      ControlSendable(role, y, r, key);
    }
  }

  /** What a `read` step does to the receiving half: a pending frame is handed over, or nothing is lost. */
  predicate Receives(c: Conn, x: Effect, more: bytes, pending: seq<Frame>) {
    if x.report.Delivered? then
      && pending != [] && CanRead(c.core.state)
      && Shown(c.core.state, pending[0]) == Some(x.report.message)
      && x.after.core.state == StateAfter(c.core.state, pending[0])
      && BytesInv(x.after.decoder, x.after.readBuffer + more, pending[1..])
    else
      && BytesInv(x.after.decoder, x.after.readBuffer + more, pending)
      && CanRead(x.after.core.state) == CanRead(c.core.state)
  }

  lemma CloseEndsPending(x: State, y: State, queued: seq<Frame>, got: nat)
    requires StatesInv(x, y, queued, got)
    ensures !CanRead(y) ==> got == |queued|
    ensures !x.Active? && got == |queued| ==> !CanRead(y)
  {
    hide IsClose;
    assert got == |queued| ==> queued[..got] == queued;
  }

  lemma WaitMoves(c: Conn, y: Conn, d: Decoding)
    requires Quiet(c) && d.after.(header := None) == c.decoder.(header := None)
    ensures Moves(c, y, NoFrameYet(c.(decoder := d.after, readBuffer := d.rest), Pending))
  {
    hide Sendable;
    assert [] + c.writeBuffer == c.writeBuffer + EncodeAll([]);
  }

  lemma PassiveMoves(c: Conn, y: Conn, d: Decoding, s: State, r: Report)
    requires Quiet(c) && d.after.(header := None) == c.decoder.(header := None)
    requires s == c.core.state || (!c.core.state.Active? && s.Terminated?)
    requires Expected(r) && (s.Terminated? ==> c.core.state.Terminated? || r == Failed(ConnectionClosed))
    ensures Moves(c, y, Effect(WithState(c, s).(decoder := d.after, readBuffer := d.rest), [], [], r))
  {
    hide Sendable;
    assert [] + c.writeBuffer == c.writeBuffer + EncodeAll([]);
  }

  lemma TurnOnFrame(c: Conn, y: Conn, f: Frame, d: Decoding, key: MaskKey)
    requires Quiet(c) && c.core.incomplete.None? && CanRead(c.core.state)
    requires Configured(y) && y.decoder.unmask == c.core.role.Client?
    requires d.after.(header := None) == c.decoder.(header := None)
    requires PlainBits(f.header) && PayloadOk(c, f)
    ensures var g := Frame(f.header.(mask := None), f.payload);
            var x := ReceiveFrame(c.(decoder := d.after, readBuffer := d.rest), g, key, SMOOTH);
            && Moves(c, y, x)
            && Shown(c.core.state, f).Some? && x.report == Delivered(Shown(c.core.state, f).value)
            && x.after.core.state == StateAfter(c.core.state, f)
            && x.after.decoder == d.after && x.after.readBuffer == d.rest
  {
    hide HandleFrame, Answer, Sendable, Configured, Utf8.WellFormed, IntoClose, OnQueue, ReplyTo, EncodeAll, Shown,
      Refusal;
    var g := Frame(f.header.(mask := None), f.payload);
    var c1 := c.(decoder := d.after, readBuffer := d.rest);
    SamePayload(c, f);
    HandlePending(c1.core, c, g);
    var c2 := c1.(core := c.core.(state := StateAfter(c.core.state, f)));
    var h := Handled(Shown(c.core.state, f), ReplyTo(c.core.state, f));
    if h.reply.Some? {
      ReplyIsFor(c.core.state, f);
      ReplySendable(c.core.role, y, f, c.core.state, key);
    } else {
      NoReplyMeansQuiet(c, f);
    }
    ReplyMoves(c2, y, h, key);
  }

  lemma SamePayload(c: Conn, f: Frame)
    requires PayloadOk(c, f)
    ensures var g := Frame(f.header.(mask := None), f.payload);
            && PayloadOk(c, g) && (forall s :: Shown(s, g) == Shown(s, f) && ReplyTo(s, g) == ReplyTo(s, f))
            && (forall s :: StateAfter(s, g) == StateAfter(s, f))
  {
    hide Utf8.WellFormed, IntoClose, CloseFrameOf, Sanitised;
  }

  lemma ReplyIsFor(s: State, f: Frame)
    requires ReplyTo(s, f).Some?
    ensures s.Active? && (IsClose(f) || f.header.opcode == ControlOp(Ping))
  {
    hide IntoClose, CloseFrameOf;
  }

  lemma NoReplyMeansQuiet(c: Conn, f: Frame)
    requires ReplyTo(c.core.state, f).None? && PayloadOk(c, f) && CanRead(c.core.state)
    ensures StateAfter(c.core.state, f).Active? == c.core.state.Active?
  {
    hide Utf8.WellFormed, IntoClose, CloseFrameOf;
  }

  /** What `me` knows when it reads: the peer's half of the invariant. */
  predicate ReadReady(peer: Side, me: Side) {
    var c, y := me.history.conn, peer.history.conn;
    && Link(peer, me) && Quiet(c) && c.core.incomplete.None?
    && Configured(y) && y.decoder.unmask == c.core.role.Client? && c.decoder.unmask == y.core.role.Client?
    && (y.shut ==> ShutDown(y))
  }

  lemma ReadMoves(peer: Side, me: Side, key: MaskKey, endSeen: bool)
    requires ReadReady(peer, me)
    ensures var c := me.history.conn;
            var x := UserRead(c, ArrivalFor(me, peer, endSeen), key, SMOOTH);
            && Moves(c, peer.history.conn, x)
            && Receives(c, x, me.inbound + peer.history.conn.writeBuffer, peer.history.queued[|me.history.delivered|..])
            && (x.after.core.state.Terminated? ==>
                  c.core.state.Terminated? || c.core.role.Server? || peer.history.conn.shut)
  {
    hide ReadTurn, BytesInv, Moves, FramesInv, DeliveredInv, StatesInv, Configured;
    var c, y := me.history.conn, peer.history.conn;
    var same := Decoding(c.decoder, c.readBuffer, Insufficient);
    CloseEndsPending(y.core.state, c.core.state, peer.history.queued, |me.history.delivered|);
    SplitStream(peer, me);
    if c.core.state.Terminated? {
      PassiveMoves(c, y, same, Terminated, Failed(AlreadyClosed));
    } else if c.core.role.Server? && !CanRead(c.core.state) {
      PassiveMoves(c, y, same, Terminated, Failed(ConnectionClosed));
    } else {
      TurnMoves(peer, me, key, endSeen);
    }
  }

  lemma SplitStream(x: Side, y: Side)
    ensures Stream(x, y) == y.history.conn.readBuffer + (y.inbound + x.history.conn.writeBuffer)
  {
  }

  lemma TurnMoves(peer: Side, me: Side, key: MaskKey, endSeen: bool)
    requires ReadReady(peer, me) && !me.history.conn.core.state.Terminated?
    ensures var c := me.history.conn;
            var x := ReadTurn(c, ArrivalFor(me, peer, endSeen), key, SMOOTH);
            && Moves(c, peer.history.conn, x)
            && Receives(c, x, me.inbound + peer.history.conn.writeBuffer, peer.history.queued[|me.history.delivered|..])
            && (x.after.core.state.Terminated? ==> peer.history.conn.shut)
  {
    hide DecodeOnce, ReceiveFrame, NoFrameYet, ReadReady, Moves, Receives;
    var c, y := me.history.conn, peer.history.conn;
    var d := DecodeOnce(c.decoder, c.readBuffer);
    PendingDecodes(peer, me, d);
    if d.out.Item? {
      TurnTakes(peer, me, d, key);
    } else {
      TurnWaits(peer, me, d, endSeen);
    }
  }

  /** Decoding what has arrived gives the next pending frame, or loses nothing. */
  lemma PendingDecodes(peer: Side, me: Side, d: Decoding)
    requires ReadReady(peer, me) && d == DecodeOnce(me.history.conn.decoder, me.history.conn.readBuffer)
    ensures Decodes(peer, me, d)
  {
    hide DecodeOnce, BytesInv, StatesInv, Configured, Received, Sendable, Stream;
    var c := me.history.conn;
    SplitStream(peer, me);
    BytesDecode(c.decoder, c.readBuffer, me.inbound + peer.history.conn.writeBuffer,
        peer.history.queued[|me.history.delivered|..]);
    DecodeKeeps(c.decoder, c.readBuffer);
  }

  predicate Decodes(peer: Side, me: Side, d: Decoding) {
    var c := me.history.conn;
    var more := me.inbound + peer.history.conn.writeBuffer;
    && |me.history.delivered| <= |peer.history.queued|
    && var pending := peer.history.queued[|me.history.delivered|..];
    && d.after.(header := None) == c.decoder.(header := None)
    && (d.out.Item? || NeedsInput(d.out))
    && (d.out.Item? ==>
          && pending != [] && d.out.frame == Received(c.decoder, pending[0])
          && BytesInv(d.after, d.rest + more, pending[1..]))
    && (NeedsInput(d.out) ==>
          && BytesInv(d.after, d.rest + more, pending)
          && (more == [] ==> pending == [] && d.after.header.None? && d.rest == []))
  }

  lemma TurnTakes(peer: Side, me: Side, d: Decoding, key: MaskKey)
    requires ReadReady(peer, me) && !me.history.conn.core.state.Terminated? && Decodes(peer, me, d) && d.out.Item?
    ensures var c := me.history.conn;
            var x := ReceiveFrame(c.(decoder := d.after, readBuffer := d.rest), d.out.frame, key, SMOOTH);
            && Moves(c, peer.history.conn, x) && !x.after.core.state.Terminated?
            && Receives(c, x, me.inbound + peer.history.conn.writeBuffer, peer.history.queued[|me.history.delivered|..])
  {
    hide DecodeOnce, ReceiveFrame, BytesInv, Moves, StatesInv, Configured, Received, Sendable, Shown, StateAfter,
      Stream;
    var c, y := me.history.conn, peer.history.conn;
    var f := peer.history.queued[|me.history.delivered|];
    CloseEndsPending(y.core.state, c.core.state, peer.history.queued, |me.history.delivered|);
    assert f == peer.history.queued[|me.history.delivered|..][0];
    SendableParts(y.core.role, c, f);
    ReceivedIsPlain(y.core.role, c, f);
    TurnOnFrame(c, y, f, d, key);
    StateAfterReading(c.core.state, f);
  }

  lemma TurnWaits(peer: Side, me: Side, d: Decoding, endSeen: bool)
    requires ReadReady(peer, me) && !me.history.conn.core.state.Terminated? && Decodes(peer, me, d) && NeedsInput(d.out)
    ensures var c := me.history.conn;
            var x := NoFrameYet(c.(decoder := d.after, readBuffer := d.rest), ArrivalFor(me, peer, endSeen));
            && Moves(c, peer.history.conn, x)
            && Receives(c, x, me.inbound + peer.history.conn.writeBuffer, peer.history.queued[|me.history.delivered|..])
            && (x.after.core.state.Terminated? ==> peer.history.conn.shut)
  {
    hide BytesInv, Moves, StatesInv, Configured, Received, Sendable, Shown, StateAfter, Stream;
    var c, y := me.history.conn, peer.history.conn;
    CloseEndsPending(y.core.state, c.core.state, peer.history.queued, |me.history.delivered|);
    if ArrivalFor(me, peer, endSeen).Pending? {
      WaitMoves(c, y, d);
    } else {
      assert me.inbound + y.writeBuffer == [];
      PassiveMoves(c, y, d, Terminated, Failed(ConnectionClosed));
    }
  }

  lemma SendableParts(role: Role, y: Conn, f: Frame)
    requires Sendable(role, y, f)
    ensures PlainBits(f.header) && PayloadOk(y, f)
  {
  }

  lemma StateAfterReading(s: State, f: Frame)
    requires CanRead(s)
    ensures CanRead(StateAfter(s, f)) <==> !IsClose(f)
    ensures !StateAfter(s, f).Terminated?
  {
  }

  // ---- links ----

  lemma SendableOfConfig(role: Role, y: Conn, z: Conn, f: Frame)
    requires SameConfig(y, z)
    ensures Sendable(role, y, f) == Sendable(role, z, f)
  {
    hide Utf8.WellFormed, IntoClose;
  }

  lemma FramesOfConfig(role: Role, y: Conn, z: Conn, queued: seq<Frame>)
    requires SameConfig(y, z) && FramesInv(role, y, queued)
    ensures FramesInv(role, z, queued)
  {
    hide Sendable, SameConfig;
    forall i | 0 <= i < |queued|
      ensures Sendable(role, z, queued[i])
    {
      SendableOfConfig(role, y, z, queued[i]);
    }
  }

  lemma StatesAfterQueueing(x: State, x': State, y: State, queued: seq<Frame>, more: seq<Frame>, got: nat)
    requires StatesInv(x, y, queued, got) && |more| <= 1
    requires |more| == 0 ==> x'.Active? == x.Active?
    requires |more| == 1 ==> x.Active? && (IsClose(more[0]) <==> !x'.Active?)
    ensures StatesInv(x', y, queued + more, got)
  {
    hide IsClose;
    var all := queued + more;
    assert all[..got] == queued[..got];
    assert forall i | 0 <= i < |queued| :: all[i] == queued[i];
    assert more != [] ==> all[|queued|] == more[0];
  }

  /** The direction away from a side that takes a step: what it queues is appended, in bytes and in frames. */
  lemma OutgoingLink(me: Side, peer: Side, me': Side, peer': Side, x: Effect)
    requires Link(me, peer) && Moves(me.history.conn, peer.history.conn, x)
    requires me'.history.conn == x.after && me'.history.queued == me.history.queued + x.queued
    requires peer' == peer.(inbound := peer.inbound + x.emitted)
    ensures Link(me', peer')
  {
    hide BytesInv, Sendable, StatesInv, Shown, EncodeAll, EncodeFrame, SameConfig, IsClose, Expected;
    var hx, hy := me.history, peer.history;
    var got := |hy.delivered|;
    StatesAfterQueueing(hx.conn.core.state, x.after.core.state, hy.conn.core.state, hx.queued, x.queued, got);
    StreamAfter(me, peer, me', peer', x);
    OutgoingBytes(hx.conn.core.role, hy.conn, Stream(me, peer), hx.queued, x.queued, got);
    SameRole(hx.conn, x.after);
  }

  lemma SameRole(c: Conn, d: Conn)
    requires SameConfig(c, d)
    ensures d.core.role == c.core.role
  {
  }

  lemma StreamAfter(me: Side, peer: Side, me': Side, peer': Side, x: Effect)
    requires x.emitted + x.after.writeBuffer == me.history.conn.writeBuffer + EncodeAll(x.queued)
    requires me'.history.conn == x.after && peer' == peer.(inbound := peer.inbound + x.emitted)
    ensures Stream(me', peer') == Stream(me, peer) + EncodeAll(x.queued)
  {
    hide EncodeAll;
    var r, i := peer.history.conn.readBuffer, peer.inbound;
    assert r + (i + x.emitted) + x.after.writeBuffer == r + i + (x.emitted + x.after.writeBuffer);
    assert r + i + me.history.conn.writeBuffer + EncodeAll(x.queued)
        == r + i + (me.history.conn.writeBuffer + EncodeAll(x.queued));
  }

  lemma OutgoingBytes(role: Role, y: Conn, stream: bytes, queued: seq<Frame>, more: seq<Frame>, got: nat)
    requires got <= |queued| && |more| <= 1 && (|more| == 1 ==> Sendable(role, y, more[0]))
    requires BytesInv(y.decoder, stream, queued[got..])
    ensures BytesInv(y.decoder, stream + EncodeAll(more), (queued + more)[got..])
  {
    hide BytesInv, EncodeFrame, PayloadOk, Acceptable;
    assert (queued + more)[got..] == queued[got..] + more;
    if more == [] {
      assert stream + EncodeAll(more) == stream && queued[got..] + more == queued[got..];
    } else {
      assert more == [more[0]];
      EncodeOne(more[0]);
      BytesAppend(y.decoder, stream, queued[got..], more[0]);
    }
  }

  /** The direction towards a side that takes a step other than `read`. */
  lemma IncomingLink(peer: Side, me: Side, peer': Side, me': Side)
    requires Link(peer, me) && peer'.history == peer.history
    requires SameConfig(me.history.conn, me'.history.conn)
    requires me'.history.conn.decoder == me.history.conn.decoder && me'.history.delivered == me.history.delivered
    requires me'.history.conn.readBuffer + me'.inbound == me.history.conn.readBuffer + me.inbound
    requires CanRead(me'.history.conn.core.state) == CanRead(me.history.conn.core.state)
    ensures Link(peer', me')
  {
    hide BytesInv, DeliveredInv, IsClose;
    FramesOfConfig(peer.history.conn.core.role, me.history.conn, me'.history.conn, peer.history.queued);
  }

  /** The direction towards a side that reads. */
  lemma ReadLink(peer: Side, me: Side, peer': Side, me': Side, x: Effect)
    requires Link(peer, me) && peer'.history == peer.history && me'.inbound == me.inbound
    requires me'.history.conn == x.after && SameConfig(me.history.conn, x.after)
    requires me'.history.delivered ==
             me.history.delivered +
             (if x.report.Delivered? then [Delivery(me.history.conn.core.state, x.report.message)] else [])
    requires Receives(me.history.conn, x, me.inbound + peer.history.conn.writeBuffer,
            peer.history.queued[|me.history.delivered|..])
    ensures Link(peer', me')
  {
    hide BytesInv, Shown, StatesInv, Sendable, SameConfig, StateAfter;
    var queued, got := peer.history.queued, |me.history.delivered|;
    FramesOfConfig(peer.history.conn.core.role, me.history.conn, x.after, queued);
    SplitStream(peer', me');
    if x.report.Delivered? {
      assert queued[got..][1..] == queued[got + 1..];
      StatesAfterReading(peer.history.conn.core.state, me.history.conn.core.state, queued, got);
    } else {
      StatesUnread(peer.history.conn.core.state, me.history.conn.core.state, x.after.core.state, queued, got);
    }
  }

  lemma StatesAfterReading(x: State, y: State, queued: seq<Frame>, got: nat)
    requires StatesInv(x, y, queued, got) && got < |queued| && CanRead(y)
    ensures StatesInv(x, StateAfter(y, queued[got]), queued, got + 1)
  {
    hide IsClose, StateAfter;
    StateAfterReading(y, queued[got]);
    assert queued[..got + 1] == queued[..got] + [queued[got]];
  }

  lemma StatesUnread(x: State, y: State, y': State, queued: seq<Frame>, got: nat)
    requires StatesInv(x, y, queued, got) && CanRead(y') == CanRead(y)
    ensures StatesInv(x, y', queued, got)
  {
    hide IsClose;
  }

  // ---- every step keeps the invariant ----

  /** What `me`'s step needs to know about both sides. */
  predicate PairInv(me: Side, peer: Side, role: Role, other: Role) {
    && role != other && SideInv(me, role) && SideInv(peer, other) && Link(me, peer) && Link(peer, me)
  }

  lemma MoveEffect(me: Side, peer: Side, role: Role, other: Role, s: Step)
    requires PairInv(me, peer, role, other) && Polite(peer.history.conn, s)
    requires ValidCore(me.history.conn.core)
    ensures var c := me.history.conn;
            var x := Apply(c, EventFor(me, peer, s));
            && Moves(c, peer.history.conn, x)
            && (s.UserReads? ==>
                  && Receives(c, x, me.inbound + peer.history.conn.writeBuffer,
                        peer.history.queued[|me.history.delivered|..])
                  && (x.after.core.state.Terminated? ==>
                        c.core.state.Terminated? || c.core.role.Server? || peer.history.conn.shut))
            && (!s.UserReads? && !s.OctetsArrive? ==> KeepsReceiving(c, x))
  {
    hide Moves, Receives, KeepsReceiving, UserWrite, UserClose, UserFlush, UserRead, Configured, BytesInv, FramesInv,
      StatesInv, DeliveredInv, ReportsInv, HistoryInv;
    var c, y := me.history.conn, peer.history.conn;
    InvIsValid(peer.history);
    InvShut(y);
    match s {
      case UserWrites(m, key) => WriteMoves(c, y, m, key);
      case UserCloses(close, key) => CloseMoves(c, y, close, key);
      case UserFlushes => FlushMoves(c, y);
      case OctetsArrive(n) => ArriveMoves(c, y, EventFor(me, peer, s).chunk);
      case UserReads(key, endSeen) => ReadMoves(peer, me, key, endSeen);
    }
  }

  lemma ArriveMoves(c: Conn, y: Conn, chunk: bytes)
    requires Quiet(c) && ValidCore(c.core)
    ensures Moves(c, y, Apply(c, Arrive(chunk)))
  {
    hide Sendable;
    assert [] + c.writeBuffer == c.writeBuffer + EncodeAll([]);
  }

  lemma MovedLinks(me: Side, peer: Side, role: Role, other: Role, s: Step)
    requires PairInv(me, peer, role, other) && Polite(peer.history.conn, s)
    requires ValidCore(me.history.conn.core)
    ensures var (me', peer') := Moved(me, peer, s); Link(me', peer') && Link(peer', me')
  {
    hide Link, Moves, Receives, KeepsReceiving, Apply, SameConfig, Polite, SideInv;
    var (me', peer') := Moved(me, peer, s);
    var x := Apply(me.history.conn, EventFor(me, peer, s));
    MoveEffect(me, peer, role, other, s);
    OutgoingLink(me, peer, me', peer', x);
    MovesParts(me.history.conn, peer.history.conn, x);
    if s.UserReads? {
      ReadLink(peer, me, peer', me', x);
    } else {
      if !s.OctetsArrive? {
        KeepsParts(me.history.conn, x);
      } else {
        ArriveParts(me, peer, s);
      }
      IncomingLink(peer, me, peer', me');
    }
  }

  lemma MovesParts(c: Conn, y: Conn, x: Effect)
    requires Moves(c, y, x)
    ensures SameConfig(c, x.after) && Expected(x.report) && x.after.core.incomplete == c.core.incomplete
    ensures x.after.core.state.Terminated? ==> c.core.state.Terminated? || x.report == Failed(ConnectionClosed)
  {
  }

  lemma KeepsParts(c: Conn, x: Effect)
    requires KeepsReceiving(c, x)
    ensures x.after.decoder == c.decoder && x.after.readBuffer == c.readBuffer
    ensures CanRead(x.after.core.state) == CanRead(c.core.state) && !x.report.Delivered?
    ensures x.after.core.state.Terminated? ==> c.core.state.Terminated? || c.core.role.Server?
  {
  }

  lemma ArriveParts(me: Side, peer: Side, s: Step)
    requires ValidCore(me.history.conn.core) && s.OctetsArrive?
    ensures var me' := Moved(me, peer, s).0;
            var x := Apply(me.history.conn, EventFor(me, peer, s));
            && x.after.decoder == me.history.conn.decoder && x.after.core == me.history.conn.core
            && !x.report.Delivered?
            && me'.history.conn.readBuffer + me'.inbound == me.history.conn.readBuffer + me.inbound
  {
    var k := if s.n <= |me.inbound| then s.n else |me.inbound|;
    assert me.history.conn.readBuffer + me.inbound[..k] + me.inbound[k..] == me.history.conn.readBuffer + me.inbound;
  }

  lemma MovedSide(me: Side, peer: Side, role: Role, other: Role, s: Step)
    requires PairInv(me, peer, role, other) && Polite(peer.history.conn, s)
    requires ValidCore(me.history.conn.core)
    ensures var (me', peer') := Moved(me, peer, s);
            && SideInv(me', role) && SideInv(peer', other)
            && peer'.history == peer.history && SameConfig(me.history.conn, me'.history.conn)
            && (me'.history.conn.core.state.Terminated? ==>
                  me.history.conn.core.state.Terminated? || role.Server? || peer.history.conn.shut)
            && (me.history.conn.shut ==> me'.history.conn.shut)
  {
    hide Link, Moves, Receives, KeepsReceiving, Apply, Polite, Expected, HistoryInv, ConnInv, StepOk;
    var x := Apply(me.history.conn, EventFor(me, peer, s));
    PoliteIsNotRaw(me, peer, s);
    InvIsValid(me.history);
    EveryStepOk(me.history.conn, EventFor(me, peer, s));
    AdvanceKeepsInv(me.history, EventFor(me, peer, s));
    StepShuts(me.history.conn, EventFor(me, peer, s), x);
    MoveEffect(me, peer, role, other, s);
    MovesParts(me.history.conn, peer.history.conn, x);
    if s.OctetsArrive? {
      ArriveParts(me, peer, s);
    } else if !s.UserReads? {
      KeepsParts(me.history.conn, x);
    }
  }

  lemma NextKeepsInv(n: Net, m: Move)
    requires NetInv(n) && ValidNet(n) && PoliteMove(n, m)
    ensures NetInv(Next(n, m)) && SameConfigs(n, Next(n, m))
  {
    hide Link, Moved, SideInv, Polite, SameConfig;
    if m.byClient {
      MovedLinks(n.client, n.server, Client, Server, m.step);
      MovedSide(n.client, n.server, Client, Server, m.step);
    } else {
      MovedLinks(n.server, n.client, Server, Client, m.step);
      MovedSide(n.server, n.client, Server, Client, m.step);
    }
    SameConfigReflexive(n.client.history.conn);
    SameConfigReflexive(n.server.history.conn);
  }

  lemma PoliteIsNotRaw(me: Side, peer: Side, s: Step)
    requires Polite(peer.history.conn, s)
    ensures NoRawFrame(EventFor(me, peer, s))
  {
  }

  lemma StepShuts(c: Conn, e: Event, x: Effect)
    requires StepOk(c, e, x)
    ensures c.shut ==> x.after.shut
    ensures c.core.state.Terminated? ==> x.after.core.state.Terminated?
  {
  }

  lemma SameConfigReflexive(c: Conn)
    ensures SameConfig(c, c)
  {
  }

  predicate SameConfigs(n: Net, r: Net) {
    SameConfig(n.client.history.conn, r.client.history.conn) && SameConfig(n.server.history.conn, r.server.history.conn)
  }

  lemma PoliteOfConfig(n: Net, r: Net, m: Move)
    requires SameConfigs(n, r) && PoliteMove(n, m)
    ensures PoliteMove(r, m)
  {
  }

  /**
    * Every interleaving of polite steps keeps the invariant: frames, octets, connection states and reports of the
    * two sides stay in agreement.
    */
  lemma {:induction false} EveryRunKeepsInv(n: Net, moves: seq<Move>)
    requires NetInv(n) && ValidNet(n) && forall i | 0 <= i < |moves| :: PoliteMove(n, moves[i])
    ensures NetInv(Play(n, moves))
    decreases |moves|
  {
    hide NetInv, Next, PoliteMove, SameConfigs;
    if moves == [] {
    } else {
      var r := Next(n, moves[0]);
      NextKeepsInv(n, moves[0]);
      forall i | 0 <= i < |moves[1..]|
        ensures PoliteMove(r, moves[1..][i])
      {
        PoliteOfConfig(n, r, moves[1..][i]);
      }
      EveryRunKeepsInv(r, moves[1..]);
    }
  }

  lemma FreshNetInv(client: WebSocketConfig, server: WebSocketConfig)
    requires Usable(client) && Usable(server)
    ensures NetInv(Start(client, server))
  {
    hide Link;
    var n := Start(client, server);
    NewHistoryInv(Client, client, []);
    NewHistoryInv(Server, server, []);
    FreshLink(n.client, n.server);
    FreshLink(n.server, n.client);
  }

  /** The configuration a socket has unless told otherwise is one of them. */
  lemma DefaultIsUsable()
    ensures Usable(DEFAULT_CONFIG)
  {
  }

  lemma FreshLink(x: Side, y: Side)
    requires x.history == NewHistory(x.history.conn) && y.history == NewHistory(y.history.conn)
    requires x.history.conn.core.state.Active? && y.history.conn.core.state.Active?
    requires y.history.conn.decoder.header.None? && Stream(x, y) == []
    ensures Link(x, y)
  {
    PumpOfNothing(y.history.conn.decoder);
  }

  // ---- what the invariant means ----

  /** In each direction a Close frame is the last frame, and there is one exactly when the sender has closed. */
  predicate CloseIsFinal(x: Side) {
    && (forall i | 0 <= i < |x.history.queued| - 1 :: !IsClose(x.history.queued[i]))
    && (x.history.conn.core.state.Active? <==>
          x.history.queued == [] || !IsClose(x.history.queued[|x.history.queued| - 1]))
  }

  /** The message a receiver in state `s` is given for one that was sent: only a Close may change on its way. */
  function AsReceived(s: State, m: Message): Message {
    if !m.CloseMessage? then m
    else CloseMessage(if s.Active? then Sanitised(CloseOnTheWire(m.close)) else CloseOnTheWire(m.close))
  }

  /**
    * What `y` has been given is, message by message, what `x` has sent so far: a prefix, in order, with the code
    * of a Close that must not be sent replaced when `y` was still active. Once `y` reads no more, it is everything.
    */
  predicate DeliveredInOrder(x: Side, y: Side) {
    && |y.history.delivered| <= |x.history.sent|
    && (forall i | 0 <= i < |y.history.delivered| ::
          y.history.delivered[i].message == AsReceived(y.history.delivered[i].state, x.history.sent[i]))
    && (!CanRead(y.history.conn.core.state) ==> |y.history.delivered| == |x.history.sent|)
  }

  /** Only expected reports, and a side that has terminated has told its user the connection was closed normally. */
  predicate EndsCleanly(x: Side) {
    && ReportsInv(x.history.reports)
    && (x.history.conn.core.state.Terminated? ==> Failed(ConnectionClosed) in x.history.reports)
  }

  /**
    * Section 7.1.1 of RFC 6455: the server ends the connection first. A client has terminated only after the server
    * has, and has shut down its stream with nothing left to write, and only after everything sent either way was
    * delivered.
    */
  predicate ServerEndsFirst(n: Net) {
    n.client.history.conn.core.state.Terminated? ==>
      && n.server.history.conn.core.state.Terminated? && n.server.history.conn.shut
      && n.server.history.conn.writeBuffer == []
      && |n.client.history.delivered| == |n.server.history.sent|
      && |n.server.history.delivered| == |n.client.history.sent|
  }

  /** No read, write, close or flush ever reports anything but success, the end of the connection, or a late call. */
  lemma TwoPartySafety(client: WebSocketConfig, server: WebSocketConfig, moves: seq<Move>)
    requires Usable(client) && Usable(server)
    requires forall i | 0 <= i < |moves| :: PoliteMove(Start(client, server), moves[i])
    ensures var r := Play(Start(client, server), moves);
            && CloseIsFinal(r.client) && CloseIsFinal(r.server)
            && DeliveredInOrder(r.client, r.server) && DeliveredInOrder(r.server, r.client)
            && EndsCleanly(r.client) && EndsCleanly(r.server)
            && ServerEndsFirst(r)
  {
    hide NetInv, Play, PoliteMove, EndsCleanly, CloseIsFinal, DeliveredInOrder, ServerEndsFirst, Usable, Start;
    FreshNetInv(client, server);
    EveryRunKeepsInv(Start(client, server), moves);
    InvMeans(Play(Start(client, server), moves));
  }

  lemma InvMeans(r: Net)
    requires NetInv(r)
    ensures CloseIsFinal(r.client) && CloseIsFinal(r.server)
    ensures DeliveredInOrder(r.client, r.server) && DeliveredInOrder(r.server, r.client)
    ensures EndsCleanly(r.client) && EndsCleanly(r.server)
    ensures ServerEndsFirst(r)
  {
    hide BytesInv, FramesInv, Shown, IsClose, ReportsInv, AsReceived, DeliveredInv, HistoryInv;
    LinkDelivers(r.client, r.server);
    LinkDelivers(r.server, r.client);
    InvIsValid(r.server.history);
    InvShut(r.server.history.conn);
  }

  lemma LinkDelivers(x: Side, y: Side)
    requires Link(x, y) && HistoryInv(x.history)
    ensures DeliveredInOrder(x, y)
  {
    hide BytesInv, FramesInv, Shown, IsClose, AsReceived, ClosesLast, NoClose, SizesKept, ConnInv, AllAllowed, Carries;
    var queued, sent, delivered := x.history.queued, x.history.sent, y.history.delivered;
    CloseEndsPending(x.history.conn.core.state, y.history.conn.core.state, queued, |delivered|);
    forall i | 0 <= i < |delivered|
      ensures delivered[i].message == AsReceived(delivered[i].state, sent[i])
    {
      ShownIsReceived(delivered[i].state, queued[i], sent[i]);
    }
  }

  /** The frame that carries a message shows the receiver that message. */
  lemma ShownIsReceived(s: State, f: Frame, m: Message)
    requires Carries(f, m) && Shown(s, f).Some?
    ensures Shown(s, f).value == AsReceived(s, m)
  {
    hide Utf8.WellFormed, IntoClose, Sanitised, OnTheWire, ClosePayload;
    if m.CloseMessage? {
      CloseRoundTrip(m.close);
    }
  }

  /** `write` refuses exactly from the moment a Close is queued. */
  lemma WriteRefusedIffClosed(n: Net, byClient: bool, m: Message, key: MaskKey)
    requires NetInv(n) && ValidNet(n) && PoliteMove(n, Move(byClient, UserWrites(m, key)))
    ensures var me := Mine(n, byClient).history;
            Apply(me.conn, Write(m, key, SMOOTH)).report.Failed? <==> !NoClose(me.queued)
  {
    hide BytesInv, FramesInv, DeliveredInv, HistoryInv, ReportsInv, Configured, IsClose, WriteFrame, FrameFor,
      UserFlush;
    var c := Mine(n, byClient).history.conn;
    if c.core.state.Active? {
      WrittenIsQueued(c, Peer(n, byClient).history.conn, m, key);
    }
  }

  // ---- what one user writes the other reads ----

  function DataOf(messages: seq<Message>): seq<Message> {
    if messages == [] then []
    else
      var last := messages[|messages| - 1];
      DataOf(messages[..|messages| - 1]) + if IsData(last) then [last] else []
  }

  function MessagesOf(delivered: seq<Delivery>): seq<Message> {
    seq(|delivered|, i requires 0 <= i < |delivered| => delivered[i].message)
  }

  /** The text and binary messages one user passes to `write` in the course of a run and that are not refused. */
  function DataWritten(n: Net, moves: seq<Move>, byClient: bool): seq<Message>
    requires ValidNet(n)
    decreases |moves|
  {
    if moves == [] then []
    else DataAccepted(n, moves[0], byClient) + DataWritten(Next(n, moves[0]), moves[1..], byClient)
  }

  function DataAccepted(n: Net, m: Move, byClient: bool): seq<Message>
    requires ValidNet(n)
  {
    if m.byClient != byClient || !m.step.UserWrites? || !IsData(m.step.message) then []
    else
      var c := Mine(n, byClient).history.conn;
      if Apply(c, Write(m.step.message, m.step.key, SMOOTH)).report.Failed? then [] else [m.step.message]
  }

  lemma DataAppend(s: seq<Message>, t: seq<Message>)
    requires |t| <= 1
    ensures DataOf(s + t) == DataOf(s) + DataOf(t)
  {
    if t == [] {
      assert s + t == s;
    } else {
      assert (s + t)[..|s|] == s && t[..0] == [];
    }
  }

  /** Replies are never data, so the data messages sent are those written. */
  lemma StepSendsData(n: Net, m: Move, byClient: bool)
    requires ValidNet(n)
    ensures DataOf(Mine(Next(n, m), byClient).history.sent) ==
            DataOf(Mine(n, byClient).history.sent) + DataAccepted(n, m, byClient)
  {
    hide Apply, ValidCore, DataOf, SentBy, IsData;
    NextSent(n, m, byClient);
    if m.byClient == byClient {
      var me, peer := Mine(n, byClient), Peer(n, byClient);
      var e := EventFor(me, peer, m.step);
      var x := Apply(me.history.conn, e);
      SentData(e, x);
      DataIsAccepted(me.history.conn, e);
      DataAppend(me.history.sent, SentBy(e, x));
    }
  }

  lemma NextSent(n: Net, m: Move, byClient: bool)
    requires ValidNet(n)
    ensures Mine(Next(n, m), byClient).history.sent ==
            if m.byClient != byClient then Mine(n, byClient).history.sent
            else
              var e := EventFor(Mine(n, byClient), Peer(n, byClient), m.step);
              Mine(n, byClient).history.sent + SentBy(e, Apply(Mine(n, byClient).history.conn, e))
  {
    hide Apply, ValidCore, SentBy;
  }

  lemma SentData(e: Event, x: Effect)
    ensures |SentBy(e, x)| <= 1
    ensures DataOf(SentBy(e, x)) ==
            if e.Write? && IsData(e.message) && x.queued != [] then [e.message] else []
  {
    hide IntoClose;
  }

  lemma DataIsAccepted(c: Conn, e: Event)
    requires ValidCore(c.core)
    ensures e.Write? && IsData(e.message) && e.io == SMOOTH ==>
              (Apply(c, e).queued == [] <==> Apply(c, e).report.Failed?)
  {
    hide UserRead, UserClose, UserFlush, FrameFor, WriteFrame, ValidPartial, OnQueue;
    if e.Write? && IsData(e.message) {
      SmoothWriteFrame(c, FrameFor(e.message), e.key);
    }
  }

  lemma {:induction false} DataSent(n: Net, moves: seq<Move>, byClient: bool)
    requires ValidNet(n)
    ensures var r := Play(n, moves);
            DataOf(Mine(r, byClient).history.sent) ==
            DataOf(Mine(n, byClient).history.sent) + DataWritten(n, moves, byClient)
    decreases |moves|
  {
    hide Next, ValidNet, DataOf, DataAccepted;
    if moves != [] {
      StepSendsData(n, moves[0], byClient);
      DataSent(Next(n, moves[0]), moves[1..], byClient);
    }
  }

  /** Prefix by prefix, the data messages delivered are those sent. */
  lemma {:induction false} DataInOrder(sent: seq<Message>, delivered: seq<Delivery>)
    requires |delivered| <= |sent|
    requires forall i | 0 <= i < |delivered| :: delivered[i].message == AsReceived(delivered[i].state, sent[i])
    ensures DataOf(MessagesOf(delivered)) == DataOf(sent[..|delivered|])
    decreases |delivered|
  {
    hide Sanitised, CloseOnTheWire;
    if delivered != [] {
      var k := |delivered| - 1;
      DataInOrder(sent, delivered[..k]);
      assert MessagesOf(delivered)[..k] == MessagesOf(delivered[..k]);
      assert sent[..k + 1][..k] == sent[..k];
    }
  }

  lemma {:induction false} DataOfPrefix(s: seq<Message>, k: nat)
    requires k <= |s|
    ensures DataOf(s[..k]) <= DataOf(s)
    decreases |s|
  {
    if k < |s| {
      DataOfPrefix(s[..|s| - 1], k);
      assert s[..|s| - 1][..k] == s[..k];
    } else {
      assert s[..k] == s;
    }
  }

  /**
    * End to end, in every run of two new endpoints: the text and binary messages one user has read are a prefix, in
    * order and octet for octet, of those the other user has written, and all of them once the reader reads no more.
    */
  lemma WrittenIsRead(client: WebSocketConfig, server: WebSocketConfig, moves: seq<Move>, byClient: bool)
    requires Usable(client) && Usable(server)
    requires forall i | 0 <= i < |moves| :: PoliteMove(Start(client, server), moves[i])
    ensures var n := Start(client, server);
            var r := Play(n, moves);
            var reader := Peer(r, byClient).history;
            var read, written := DataOf(MessagesOf(reader.delivered)), DataWritten(n, moves, byClient);
            && read <= written && (!CanRead(reader.conn.core.state) ==> read == written)
  {
    hide Play, PoliteMove, Usable, NetInv, DataOf, DataWritten, CloseIsFinal, EndsCleanly, ServerEndsFirst, AsReceived;
    var n := Start(client, server);
    var r := Play(n, moves);
    TwoPartySafety(client, server, moves);
    DataSent(n, moves, byClient);
    var x, y := Mine(r, byClient), Peer(r, byClient);
    DataInOrder(x.history.sent, y.history.delivered);
    DataOfPrefix(x.history.sent, |y.history.delivered|);
    assert x.history.sent[..|x.history.sent|] == x.history.sent;
    assert DataOf([]) == [] by { DataOfNothing(); }
  }

  lemma DataOfNothing()
    ensures DataOf([]) == []
  {
  }

  // ---- whole calls of one endpoint ----

  /**
    * A call of `read` on a stream that does not fail is a step of this system, after the step in which what it reads
    * arrives: a polite peer sends whole messages, so the loop goes round once.
    */
  lemma ReadCallIsStep(n: Net, byClient: bool, arrived: bytes, arrival: Arrival, key: MaskKey)
    requires NetInv(n) && ValidNet(n) && arrived <= Mine(n, byClient).inbound && !arrival.Lost?
    requires arrival.EndOfStream? ==> arrived == Mine(n, byClient).inbound && Peer(n, byClient).history.conn.shut
    ensures var me := Mine(n, byClient).history;
            var x := ReadCall(me.conn.(readBuffer := me.conn.readBuffer + arrived), arrival, key, SMOOTH);
            var n1 := Next(n, Move(byClient, OctetsArrive(|arrived|)));
            var r := Next(n1, Move(byClient, UserReads(key, arrival.EndOfStream?)));
            && Mine(r, byClient).history.conn == x.after
            && Mine(r, byClient).history.queued == me.queued + x.queued
            && Mine(r, byClient).history.reports == me.reports + [Done] + [x.report]
            && Peer(r, byClient) ==
               Peer(n, byClient).(inbound := Peer(n, byClient).inbound + x.emitted)
  {
    hide NetInv, ReadCall, UserRead, HistoryInv, Link, Moves, Receives, Next;
    var arrive, step := OctetsArrive(|arrived|), UserReads(key, arrival.EndOfStream?);
    var n1 := Next(n, Move(byClient, arrive));
    NextKeepsInv(n, Move(byClient, arrive));
    ArrivalStep(n, byClient, arrived);
    var c := Mine(n1, byClient).history.conn;
    ReadIsExpected(n1, byClient, step);
    ReadCallIsTurns(c, arrival, key, SMOOTH);
    ReadingStep(n1, byClient, step);
  }

  lemma ArrivalStep(n: Net, byClient: bool, arrived: bytes)
    requires ValidNet(n) && arrived <= Mine(n, byClient).inbound
    ensures var me, n1 := Mine(n, byClient).history, Next(n, Move(byClient, OctetsArrive(|arrived|)));
            && Mine(n1, byClient).history.conn == me.conn.(readBuffer := me.conn.readBuffer + arrived)
            && Mine(n1, byClient).history.queued == me.queued
            && Mine(n1, byClient).history.reports == me.reports + [Done]
            && Mine(n1, byClient).inbound == Mine(n, byClient).inbound[|arrived|..]
            && Peer(n1, byClient) == Peer(n, byClient)
  {
    hide ValidCore;
    assert Peer(n, byClient).inbound + [] == Peer(n, byClient).inbound;
  }

  lemma ReadingStep(n: Net, byClient: bool, s: Step)
    requires ValidNet(n) && s.UserReads?
    ensures var me, peer := Mine(n, byClient), Peer(n, byClient);
            var x := UserRead(me.history.conn, ArrivalFor(me, peer, s.endSeen), s.key, SMOOTH);
            var r := Next(n, Move(byClient, s));
            && Mine(r, byClient).history.conn == x.after
            && Mine(r, byClient).history.queued == me.history.queued + x.queued
            && Mine(r, byClient).history.reports == me.history.reports + [x.report]
            && Peer(r, byClient) == peer.(inbound := peer.inbound + x.emitted)
  {
    hide ValidCore, UserRead;
  }

  /** No read of a polite peer's message is left half done. */
  lemma ReadIsExpected(n: Net, byClient: bool, s: Step)
    requires NetInv(n) && ValidNet(n) && s.UserReads?
    ensures var me, peer := Mine(n, byClient), Peer(n, byClient);
            Expected(UserRead(me.history.conn, ArrivalFor(me, peer, s.endSeen), s.key, SMOOTH).report)
  {
    hide Link, HistoryInv, UserRead, Receives, ReportsInv, Configured;
    var me, peer := Mine(n, byClient), Peer(n, byClient);
    MoveEffect(me, peer, me.history.conn.core.role, peer.history.conn.core.role, s);
  }

  /** A message written while active is queued as the frame that shows it to the peer. */
  lemma WrittenIsQueued(c: Conn, y: Conn, m: Message, key: MaskKey)
    requires c.core.state.Active? && Polite(y, UserWrites(m, key)) && ValidCore(c.core)
    ensures var x := Apply(c, Write(m, key, SMOOTH));
            && |x.queued| == 1 && !x.report.Failed?
            && forall s :: Shown(s, x.queued[0]) == Some(AsReceived(s, m))
  {
    hide WriteFrame, Utf8.WellFormed, IntoClose, Sanitised, UserFlush, OnTheWire, ClosePayload;
    if m.CloseMessage? {
      var w := WriteFrame(WithState(c, ClosedByUs), CloseFrameOf(m.close), key, Accepted);
      SmoothWriteFrame(WithState(c, ClosedByUs), CloseFrameOf(m.close), key);
      SmoothUserFlush(w.after);
      CloseRoundTrip(m.close);
    } else {
      SmoothWriteFrame(c, FrameFor(m), key);
    }
  }
}
