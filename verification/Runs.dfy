/**
  * Whole runs of one endpoint against any peer: any octets may arrive, any call may be made in any order and any
  * stream operation may fail. The user never passes `Message::Frame`.
  */
module Runs {
  import opened Prelude
  import opened Coding
  import opened Errors
  import opened Mask
  import opened Frame
  import opened Decode
  import opened Message
  import opened Sender
  import opened Endpoint

  // ---- what single steps do ----

  /** The order of the connection states: forward only, and `Terminated` is final. */
  predicate Leads(s: State, t: State) {
    s == t || s.Active? || t.Terminated? || (s.ClosedByUs? && t.CloseAcknowledged?)
  }

  predicate IsClose(f: Frame) {
    f.header.opcode == ControlOp(Close)
  }

  predicate IsPong(f: Frame) {
    f.header.opcode == ControlOp(Pong)
  }

  predicate NoRawFrame(e: Event) {
    e.Write? ==> !e.message.RawFrame?
  }

  /** Frames are queued one at a time and only while active; queueing a Close ends that. */
  predicate Disciplined(before: State, x: Effect) {
    && |x.queued| <= 1
    && (|x.queued| == 1 ==> before.Active?)
    && (|x.queued| == 1 && IsClose(x.queued[0]) ==> !x.after.core.state.Active?)
  }

  /** What `write_frame` may put in the queue for `f`. */
  lemma WriteQueues(c: Conn, f: Frame, key: MaskKey, outcome: Outcome)
    ensures var e := WriteFrame(c, f, key, outcome);
            && e.after == c.(writeBuffer := e.after.writeBuffer)
            && (e.report.Done? || e.report.Failed?)
            && (e.report.Failed? ==> e.queued == [])
            && (e.report.Done? ==> e.queued == [OnQueue(c.core.role, f, key)])
  {
    hide SendFrame;
  }

  /** A client masks every frame it queues. */
  function OnQueue(role: Role, f: Frame, key: MaskKey): Frame {
    if role.Client? then Frame(f.header.(mask := Some(key)), f.payload) else f
  }

  /** A stream is shut down by a server that has terminated and written everything. */
  predicate ShutDown(c: Conn) {
    c.core.role.Server? && c.core.state.Terminated? && c.writeBuffer == []
  }

  /** Nothing is written behind the end of the stream. */
  predicate ShutStep(c: Conn, x: Effect) {
    (x.after.shut ==> ShutDown(x.after)) && (c.shut ==> x.after.shut && x.emitted == [])
  }

  lemma FlushShuts(c: Conn, io: Outcomes)
    requires c.shut ==> ShutDown(c)
    ensures ShutStep(c, UserFlush(c, io))
  {
  }

  lemma FlushQueuesNothing(c: Conn, io: Outcomes)
    ensures var e := UserFlush(c, io);
            && e.queued == [] && (e.report.Done? || e.report.Failed?)
            && e.after ==
               WithState(c, e.after.core.state).(writeBuffer := e.after.writeBuffer, shut := e.after.shut)
            && (e.after.core.state == c.core.state || e.after.core.state.Terminated?)
  {
    hide FlushBuffer;
  }

  lemma CloseStep(c: Conn, close: Option<CloseFrame>, key: MaskKey, io: Outcomes)
    requires c.shut ==> ShutDown(c)
    ensures var e := UserClose(c, close, key, io);
            && ShutStep(c, e) && AllCarried(e.queued, SentBy(Shut(close, key, io), e))
            && Disciplined(c.core.state, e) && Leads(c.core.state, e.after.core.state)
            && !e.after.core.state.Active?
            && e.after.core.incomplete == c.core.incomplete && e.after.decoder == c.decoder
            && (e.report.Done? || e.report.Failed?)
            && (e.queued == [] || e.queued == [OnQueue(c.core.role, CloseFrameOf(close), key)])
  {
    hide WriteFrame, UserFlush, OnQueue, CloseFrameOf;
    var c1 := WithState(c, ClosedByUs);
    var w := WriteFrame(c1, CloseFrameOf(close), key, io.send);
    WriteQueues(c1, CloseFrameOf(close), key, io.send);
    FlushQueuesNothing(w.after, io);
    FlushQueuesNothing(c, io);
    FlushShuts(c, io);
    if c.core.state.Active? {
      FlushShuts(w.after, io);
    }
    CloseCarries(c.core.role, close, key);
  }

  lemma CloseCarries(role: Role, close: Option<CloseFrame>, key: MaskKey)
    ensures Carries(OnQueue(role, CloseFrameOf(close), key), CloseMessage(close))
            && IsClose(OnQueue(role, CloseFrameOf(close), key))
  {
    hide ClosePayload;
  }

  lemma WriteStep(c: Conn, m: Message, key: MaskKey, io: Outcomes)
    requires !m.RawFrame? && (c.shut ==> ShutDown(c))
    ensures var e := UserWrite(c, m, key, io);
            && ShutStep(c, e) && AllCarried(e.queued, SentBy(Write(m, key, io), e))
            && Disciplined(c.core.state, e) && Leads(c.core.state, e.after.core.state)
            && e.after.core.incomplete == c.core.incomplete && e.after.decoder == c.decoder
            && (e.report.Done? || e.report.Failed?)
  {
    hide WriteFrame, UserClose;
    if m.CloseMessage? {
      CloseStep(c, m.close, key, io);
    } else {
      WriteQueues(c, FrameFor(m), key, io.send);
    }
  }

  // ---- messages and the frames that carry them ----

  function FrameOf(m: Message): Frame {
    if m.CloseMessage? then CloseFrameOf(m.close) else FrameFor(m)
  }

  /** The frame, its masking apart, is the one written for the message. */
  predicate Carries(f: Frame, m: Message) {
    !m.RawFrame? && Frame(f.header.(mask := None), f.payload) == FrameOf(m)
  }

  /** Sections 5.5.1 and 5.5.2 of RFC 6455: the message due in answer to one handed over. */
  function AnswerTo(m: Message): Option<Message> {
    match m
    case PingMessage(p) => Some(PongMessage(p))
    case CloseMessage(close) => Some(CloseMessage(close))
    case _ => None
  }

  /** Only an active endpoint answers. */
  function Due(s: State, shown: Option<Message>): Option<Message> {
    if s.Active? && shown.Some? then AnswerTo(shown.value) else None
  }

  /** A Pong, or a Close the protocol allows, that parses back to the very frame shown to the user. */
  predicate AllowedReply(m: Message) {
    match m
    case PongMessage(p) => |p| <= 125
    case CloseMessage(close) =>
      && |ClosePayload(close)| <= 125 && IntoClose(ClosePayload(close)) == Ok(close)
      && (close.Some? ==> IsAllowed(close.value.code))
    case _ => false
  }

  /** A Ping or Close that is handed over is the one that arrived, with a code that must not be sent replaced. */
  predicate ShowsFrame(s: State, f: Frame, m: Message) {
    match m
    case PingMessage(p) => f.header.opcode == ControlOp(Ping) && p == f.payload
    case CloseMessage(close) =>
      && IsClose(f) && IntoClose(f.payload).Ok?
      && close == if s.Active? then Sanitised(IntoClose(f.payload).value) else IntoClose(f.payload).value
    case _ => true
  }

  /** What handling a frame may do to the state, what may be shown, and what is sent in reply. */
  predicate WellHandled(c: Core, f: Frame, after: Core, h: Handled) {
    var due := Due(c.state, h.message);
    && Leads(c.state, after.state)
    && (h.message.None? ==> after.state == c.state && f.header.opcode.DataOp? && !f.header.isFinal)
    && (h.message.Some? ==> ShowsFrame(c.state, f, h.message.value))
    && h.reply == (if due.Some? then Some(FrameOf(due.value)) else None)
    && (due.Some? ==>
          && AllowedReply(due.value)
          && after.state == if due.value.CloseMessage? then ClosedByPeer else c.state)
    && (h.message.Some? && h.message.value.CloseMessage? ==> HasReceivedClose(after.state))
  }

  /** The peer's Close has been handled. */
  predicate HasReceivedClose(s: State) {
    s.ClosedByPeer? || s.CloseAcknowledged?
  }

  /** Size of a data message; control messages have a limit of their own. */
  function DataSize(m: Message): nat {
    match m
    case TextMessage(t) => |t|
    case BinaryMessage(b) => |b|
    case _ => 0
  }

  /** The message under reassembly is within the limit. */
  predicate SizedCore(c: Core) {
    && SizeLimit(c.maxMessageSize) <= USIZE_MAX
    && (c.incomplete.Some? ==> Total(c.incomplete.value) <= SizeLimit(c.maxMessageSize))
  }

  lemma CloseHandledWell(c: Core, f: Frame)
    requires CanRead(c.state) && f.header.opcode == ControlOp(Close)
    ensures var (after, r) := HandleControl(c, f);
            && after.(state := c.state) == c
            && (r.Err? ==> after == c) && (r.Ok? ==> WellHandled(c, f, after, r.value))
  {
    hide IntoClose, CloseFrameOf, OnTheWire, Sanitised, ClosePayload;
    var r := HandleControl(c, f).1;
    if r.Ok? && c.state.Active? {
      SanitisedReply(f.payload);
    }
  }

  /** Section 7.4 of RFC 6455: a reply never carries a code that must not be sent. */
  lemma SanitisedReply(payload: bytes)
    requires IntoClose(payload).Ok? && |payload| <= 125
    ensures var shown := Sanitised(IntoClose(payload).value);
            && |ClosePayload(shown)| <= 125
            && IntoClose(ClosePayload(shown)) == Ok(shown)
            && (shown.Some? ==> IsAllowed(shown.value.code))
  {
    hide Utf8.WellFormed, ToBigEndian, FromBigEndian, AsciiText;
    var close := IntoClose(payload).value;
    var shown := Sanitised(close);
    CloseRoundTrip(shown);
    ParsedCloseIsStable(payload);
    assert close.Some? ==> |close.value.reason| == |payload| - 2;
  }

  lemma ControlHandledWell(c: Core, f: Frame)
    requires CanRead(c.state) && f.header.opcode.ControlOp?
    ensures var (after, r) := HandleControl(c, f);
            && after.(state := c.state) == c
            && (r.Err? ==> after == c) && (r.Ok? ==> WellHandled(c, f, after, r.value))
  {
    hide IntoClose, DoClose;
    if f.header.opcode.control.Close? {
      CloseHandledWell(c, f);
    }
  }

  predicate IsData(m: Message) {
    m.TextMessage? || m.BinaryMessage?
  }

  lemma DataMessages(p: Partial, payload: bytes, isText: bool, limit: Option<nat>)
    ensures ValidPartial(p) && CompletePartial(p).Ok? ==> IsData(CompletePartial(p).value)
    ensures WholeMessage(payload, isText, limit).Ok? ==> IsData(WholeMessage(payload, isText, limit).value)
  {
    hide Utf8.WellFormed;
  }

  lemma DataHandledWell(c: Core, f: Frame)
    requires ValidCore(c) && CanRead(c.state) && f.header.opcode.DataOp?
    ensures var (after, r) := HandleData(c, f);
            && after.(incomplete := c.incomplete) == c
            && (r.Ok? ==> WellHandled(c, f, after, r.value))
  {
    hide ExtendPartial, CompletePartial, WholeMessage, ValidPartial;
    if c.incomplete.Some? {
      ExtendKeepsValid(c.incomplete.value, f.payload, c.maxMessageSize);
      DataMessages(ExtendPartial(c.incomplete.value, f.payload, c.maxMessageSize).after, f.payload, true,
          c.maxMessageSize);
    } else {
      DataMessages(NewPartial(true), f.payload, f.header.opcode.data.Text?, c.maxMessageSize);
    }
  }

  lemma FrameHandledWell(c: Core, f: Frame)
    requires ValidCore(c) && CanRead(c.state)
    ensures var (after, r) := HandleFrame(c, f);
            && Leads(c.state, after.state) && ValidCore(after)
            && after.role == c.role && after.maxMessageSize == c.maxMessageSize
            && (r.Ok? ==> WellHandled(c, f, after, r.value))
            && (r.Err? ==> after.state == c.state)
  {
    hide HandleControl, HandleData, ValidPartial;
    HandleKeepsValid(c, f);
    match f.header.opcode {
      case ControlOp(_) => ControlHandledWell(c, f);
      case DataOp(_) => DataHandledWell(c, f);
    }
  }

  // ---- sizes ----

  lemma CompletedSize(p: Partial)
    requires ValidPartial(p)
    ensures CompletePartial(p).Ok? ==> DataSize(CompletePartial(p).value) <= Total(p)
  {
  }

  lemma WholeMessageSize(payload: bytes, isText: bool, limit: Option<nat>)
    ensures var r := WholeMessage(payload, isText, limit); r.Ok? ==> Within(DataSize(r.value), limit)
  {
    hide Utf8.WellFormed;
  }

  lemma FirstFragmentAccounting(isText: bool, payload: bytes, limit: Option<nat>)
    requires SizeLimit(limit) <= USIZE_MAX
    ensures Total(ExtendPartial(NewPartial(isText), payload, limit).after) <= SizeLimit(limit)
  {
    hide ExtendPartial;
    NewPartialIsValid(isText);
    ExtendAccounting(NewPartial(isText), payload, limit);
  }

  lemma DataSizes(c: Core, f: Frame)
    requires ValidCore(c) && SizedCore(c) && f.header.opcode.DataOp?
    ensures var (after, r) := HandleData(c, f);
            && SizedCore(after)
            && (r.Ok? && r.value.message.Some? ==> Within(DataSize(r.value.message.value), c.maxMessageSize))
  {
    hide ExtendPartial, CompletePartial, WholeMessage, ValidPartial;
    if c.incomplete.Some? {
      ExtendAccounting(c.incomplete.value, f.payload, c.maxMessageSize);
      CompletedSize(ExtendPartial(c.incomplete.value, f.payload, c.maxMessageSize).after);
    } else if !f.header.isFinal {
      FirstFragmentAccounting(f.header.opcode.data.Text?, f.payload, c.maxMessageSize);
    } else {
      WholeMessageSize(f.payload, f.header.opcode.data.Text?, c.maxMessageSize);
    }
  }

  lemma ControlSizes(c: Core, f: Frame)
    requires SizedCore(c) && !c.state.Terminated? && f.header.opcode.ControlOp?
    ensures var (after, r) := HandleControl(c, f);
            && SizedCore(after)
            && (r.Ok? && r.value.message.Some? ==> DataSize(r.value.message.value) == 0)
  {
    hide IntoClose, CloseFrameOf, Sanitised;
  }

  /** Neither the message under reassembly nor one handed over exceeds the limit. */
  lemma FrameSizes(c: Core, f: Frame)
    requires ValidCore(c) && SizedCore(c) && !c.state.Terminated?
    ensures var (after, r) := HandleFrame(c, f);
            && SizedCore(after)
            && (r.Ok? && r.value.message.Some? ==> Within(DataSize(r.value.message.value), c.maxMessageSize))
  {
    hide HandleControl, HandleData, ValidPartial;
    match f.header.opcode {
      case ControlOp(_) => ControlSizes(c, f);
      case DataOp(_) => DataSizes(c, f);
    }
  }

  // ---- one turn of `read` ----

  /** What a step keeps: reassembly valid and within its limit, the pending frame within its own. */
  predicate ConnInv(c: Conn) {
    ValidCore(c.core) && SizedCore(c.core) && PendingWithin(c.decoder) && (c.shut ==> ShutDown(c))
  }

  predicate SameConfig(c: Conn, d: Conn) {
    && d.core.role == c.core.role && d.core.maxMessageSize == c.core.maxMessageSize
    && d.decoder.(header := None) == c.decoder.(header := None) && d.writeLimit == c.writeLimit
  }

  /** The message an automatic reply carries. */
  function ReplyMessage(f: Frame): Message {
    if IsPong(f) then PongMessage(f.payload)
    else CloseMessage(if IntoClose(f.payload).Ok? then IntoClose(f.payload).value else None)
  }

  lemma ReplyIsRead(role: Role, m: Message, key: MaskKey)
    requires AllowedReply(m)
    ensures var f := OnQueue(role, FrameOf(m), key);
            ReplyMessage(f) == m && Carries(f, m) && (IsPong(f) || IsClose(f)) && (IsClose(f) <==> m.CloseMessage?)
  {
    hide IntoClose, ClosePayload;
  }

  function Told(r: Report): Option<Message> {
    if r.Delivered? then Some(r.message) else None
  }

  /**
    * What one turn may send by itself, and what it then tells the user. Whatever the stream does, only allowed
    * replies are queued and a message that demands one is handed over only with its reply queued; when the stream
    * takes everything, nothing is queued without the message it answers being handed over.
    */
  predicate AnswersWell(c: Conn, x: Effect, key: MaskKey, io: Outcomes) {
    var due := Due(c.core.state, Told(x.report));
    && (x.queued != [] ==>
          var m := ReplyMessage(x.queued[0]);
          AllowedReply(m) && x.queued[0] == OnQueue(c.core.role, FrameOf(m), key))
    && (due.Some? ==> x.queued != [] && ReplyMessage(x.queued[0]) == due.value)
    && (io == SMOOTH && x.queued != [] ==> due.Some?)
  }

  /** What may be handed over at all: no reserved bit is set, and nothing a server sends is masked. */
  predicate CleanFrame(role: Role, f: Frame) {
    !f.header.rsv1 && !f.header.rsv2 && !f.header.rsv3 && (role.Client? ==> f.header.mask.None?)
  }

  /** The frame at the front of what is buffered. */
  function FrontFrame(c: Conn): Option<Frame> {
    var d := DecodeOnce(c.decoder, c.readBuffer);
    if d.out.Item? then Some(d.out.frame) else None
  }

  /** The step has handed something over, kept a fragment or queued a reply. */
  predicate UsesFrame(x: Effect) {
    x.report.Delivered? || x.report.NextTurn? || x.queued != []
  }

  /** Whatever a read does with a frame, it is with a clean one, and a Close handed over is the last message. */
  predicate StemsFromClean(c: Conn, x: Effect) {
    && (UsesFrame(x) ==> FrontFrame(c).Some? && CleanFrame(c.core.role, FrontFrame(c).value))
    && (x.report.Delivered? && x.report.message.CloseMessage? ==> HasReceivedClose(x.after.core.state))
  }

  lemma AnswerStep(c0: Core, f: Frame, c: Conn, h: Handled, key: MaskKey, io: Outcomes)
    requires WellHandled(c0, f, c.core, h) && c0.role == c.core.role && c0.maxMessageSize == c.core.maxMessageSize
    ensures var x := Answer(c, h, key, io);
            && x.after == c.(writeBuffer := x.after.writeBuffer)
            && Disciplined(c0.state, x)
            && AnswersWell(c.(core := c0), x, key, io)
            && (x.report.NextTurn? ==>
                  c.core.state == c0.state && x == Effect(c, [], [], NextTurn) && f.header.opcode.DataOp?
                      && !f.header.isFinal)
            && !x.report.Blocked? && !x.report.Done?
            && (x.report.Delivered? && x.report.message.CloseMessage? ==> HasReceivedClose(x.after.core.state))
  {
    hide SendFrame, FlushBuffer, Leads, WriteFrame, IntoClose, ClosePayload, OnQueue, IsPong, IsClose, FrameOf,
      AllowedReply, ReplyMessage;
    if h.reply.Some? {
      ReplyIsRead(c.core.role, Due(c0.state, h.message).value, key);
      WriteQueues(c, h.reply.value, key, io.send);
      var w := WriteFrame(c, h.reply.value, key, io.send);
      if io == SMOOTH {
        SmoothWrite(c, h.reply.value, key);
        SmoothFlush(w.after);
      }
    }
  }

  lemma SmoothWrite(c: Conn, f: Frame, key: MaskKey)
    ensures WriteFrame(c, f, key, Accepted).report.Done?
  {
    hide EncodeFrame;
  }

  lemma SmoothFlush(c: Conn)
    ensures FlushCodec(c, Accepted) == Effect(c.(writeBuffer := []), [], c.writeBuffer, Done)
  {
  }

  lemma TurnStep(c: Conn, arrival: Arrival, key: MaskKey, io: Outcomes)
    requires ValidCore(c.core) && !c.core.state.Terminated?
    ensures var x := ReadTurn(c, arrival, key, io);
            && Leads(c.core.state, x.after.core.state) && ValidCore(x.after.core) && SameConfig(c, x.after)
            && Disciplined(c.core.state, x) && AnswersWell(c, x, key, io)
            && !x.report.Done? && x.after.shut == c.shut
            && StemsFromClean(c, x)
  {
    hide DecodeOnce, HandleFrame, Answer, WellHandled, ValidPartial;
    DecodeKeeps(c.decoder, c.readBuffer);
    var d := DecodeOnce(c.decoder, c.readBuffer);
    if d.out.Item? {
      var f := d.out.frame;
      if Refusal(c.core, f).None? {
        FrameHandledWell(c.core, f);
        var (core, r) := HandleFrame(c.core, f);
        if r.Ok? {
          AnswerStep(c.core, f, c.(decoder := d.after, readBuffer := d.rest, core := core), r.value, key, io);
        }
      }
    }
  }

  lemma AnswerReport(c: Conn, h: Handled, key: MaskKey, io: Outcomes)
    ensures var x := Answer(c, h, key, io);
            && x.after.core == c.core && x.after.decoder == c.decoder && x.after.shut == c.shut
            && (x.report.Delivered? ==> h.message == Some(x.report.message))
  {
    hide SendFrame, FlushBuffer;
  }

  lemma TurnSizes(c: Conn, arrival: Arrival, key: MaskKey, io: Outcomes)
    requires ConnInv(c) && !c.core.state.Terminated?
    ensures var x := ReadTurn(c, arrival, key, io);
            && ConnInv(x.after)
            && (x.report.Delivered? ==> Within(DataSize(x.report.message), c.core.maxMessageSize))
  {
    hide DecodeOnce, HandleFrame, Answer, ValidPartial, Refusal;
    DecodedWithinLimit(c.decoder, c.readBuffer);
    TurnStep(c, arrival, key, io);
    var d := DecodeOnce(c.decoder, c.readBuffer);
    if d.out.Item? {
      FrameSizes(c.core, d.out.frame);
      var (core, r) := HandleFrame(c.core, d.out.frame);
      if r.Ok? {
        AnswerReport(c.(decoder := d.after, readBuffer := d.rest, core := core), r.value, key, io);
      }
    }
  }

  lemma StateChangeKeepsCore(c: Core, s: State)
    requires ValidCore(c) && SizedCore(c)
    ensures ValidCore(c.(state := s)) && SizedCore(c.(state := s))
  {
    hide ValidPartial;
  }

  /**
    * The loop in `read` goes round only after a whole non-final data frame, so an accepted Close is never
    * swallowed, and every round leaves the decoder less to do.
    */
  lemma NextTurnIsFragment(c: Conn, arrival: Arrival, key: MaskKey, io: Outcomes)
    requires ValidCore(c.core) && !c.core.state.Terminated? && ReadTurn(c, arrival, key, io).report.NextTurn?
    ensures var x := ReadTurn(c, arrival, key, io);
            var d := DecodeOnce(c.decoder, c.readBuffer);
            && d.out.Item? && d.out.frame.header.opcode.DataOp? && !d.out.frame.header.isFinal
            && x.after.core.state == c.core.state && CanRead(c.core.state)
            && x.queued == [] && x.emitted == [] && x.after.writeBuffer == c.writeBuffer
            && x.after.decoder == d.after && x.after.readBuffer == d.rest
            && Work(x.after.decoder, x.after.readBuffer) < Work(c.decoder, c.readBuffer)
  {
    hide DecodeOnce, HandleFrame, Answer, WellHandled, ValidPartial, Work;
    var d := DecodeOnce(c.decoder, c.readBuffer);
    if d.out.Item? {
      var f := d.out.frame;
      DecodeMakesProgress(c.decoder, c.readBuffer);
      FrameHandledWell(c.core, f);
      var (core, r) := HandleFrame(c.core, f);
      if r.Ok? {
        AnswerStep(c.core, f, c.(decoder := d.after, readBuffer := d.rest, core := core), r.value, key, io);
      }
    }
  }

  // ---- the whole of `read` ----

  /** Turns of the loop until one of them returns. */
  function ReadTurns(c: Conn, arrival: Arrival, key: MaskKey, io: Outcomes): Effect
    requires ValidCore(c.core) && !c.core.state.Terminated?
    decreases Work(c.decoder, c.readBuffer)
  {
    var x := ReadTurn(c, arrival, key, io);
    if x.report.NextTurn? then
      NextTurnIsFragment(c, arrival, key, io);
      TurnStep(c, arrival, key, io);
      ReadTurns(x.after, arrival, key, io)
    else x
  }

  /** One call of `read`. */
  function ReadCall(c: Conn, arrival: Arrival, key: MaskKey, io: Outcomes): Effect
    requires ValidCore(c.core)
  {
    if c.core.state.Terminated? then Effect(c, [], [], Failed(AlreadyClosed))
    else if c.core.role.Server? && !CanRead(c.core.state) then
      Effect(WithState(c, Terminated), [], [], Failed(ConnectionClosed))
    else ReadTurns(c, arrival, key, io)
  }

  /** A call of `read` is a run of single turns: repeating its first checks before each turn changes nothing. */
  lemma ReadCallIsTurns(c: Conn, arrival: Arrival, key: MaskKey, io: Outcomes)
    requires ValidCore(c.core)
    ensures var x := UserRead(c, arrival, key, io);
            if x.report.NextTurn? then ValidCore(x.after.core)
                && ReadCall(c, arrival, key, io) == ReadCall(x.after, arrival, key, io)
            else ReadCall(c, arrival, key, io) == x
  {
    hide ReadTurn, ValidPartial, Work;
    if !c.core.state.Terminated? {
      TurnStep(c, arrival, key, io);
      if ReadTurn(c, arrival, key, io).report.NextTurn? {
        NextTurnIsFragment(c, arrival, key, io);
      }
    }
  }

  /** With the stream at its end `read` always returns: a message or an error. */
  lemma {:induction false} ReadReturnsAtEnd(c: Conn, arrival: Arrival, key: MaskKey, io: Outcomes)
    requires ValidCore(c.core) && !c.core.state.Terminated? && !arrival.Pending?
    ensures var x := ReadTurns(c, arrival, key, io); x.report.Delivered? || x.report.Failed?
    decreases Work(c.decoder, c.readBuffer)
  {
    hide DecodeOnce, ReceiveFrame, Work, ValidPartial;
    var x := ReadTurn(c, arrival, key, io);
    TurnStep(c, arrival, key, io);
    if x.report.NextTurn? {
      NextTurnIsFragment(c, arrival, key, io);
      ReadReturnsAtEnd(x.after, arrival, key, io);
    } else {
      TurnNotBlocked(c, arrival, key, io);
    }
  }

  lemma TurnNotBlocked(c: Conn, arrival: Arrival, key: MaskKey, io: Outcomes)
    requires ValidCore(c.core) && !c.core.state.Terminated? && !arrival.Pending?
    ensures !ReadTurn(c, arrival, key, io).report.Blocked?
  {
    hide DecodeOnce, HandleFrame, Answer, WellHandled;
    var d := DecodeOnce(c.decoder, c.readBuffer);
    if d.out.Item? && CanRead(c.core.state) {
      FrameHandledWell(c.core, d.out.frame);
      var (core, r) := HandleFrame(c.core, d.out.frame);
      if r.Ok? {
        AnswerStep(c.core, d.out.frame, c.(decoder := d.after, readBuffer := d.rest, core := core), r.value, key, io);
      }
    }
  }

  // ---- runs ----

  /** A message handed over, and the state in which `read` was called. */
  datatype Delivery = Delivery(state: State, message: Message)

  /**
    * An endpoint with everything it has queued and handed over so far. `sent` are the messages its frames carry, each
    * as the user gave it to `write` or `close` or, for a reply, as `read` made it; `replies` are the latter alone,
    * `due` are the answers due to the Pings and Closes handed over while active, and `used` are the frames that were
    * handed over, kept as fragments or answered.
    */
  datatype History = History(
    conn: Conn, queued: seq<Frame>, sent: seq<Message>, delivered: seq<Delivery>, reports: seq<Report>,
    replies: seq<Message>, due: seq<Message>, used: seq<Frame>)

  function NewHistory(c: Conn): History {
    History(c, [], [], [], [], [], [], [])
  }

  /** The message, if any, that a call has put on its way. */
  function SentBy(e: Event, x: Effect): seq<Message> {
    if x.queued == [] then []
    else match e
      case Write(m, _, _) => [m]
      case Shut(close, _, _) => [CloseMessage(close)]
      case Read(_, _, _) => [ReplyMessage(x.queued[0])]
      case _ => []
  }

  function Record(h: History, e: Event, x: Effect): History {
    var s := h.conn.core.state;
    History(
      x.after, h.queued + x.queued, h.sent + SentBy(e, x),
      h.delivered + (if x.report.Delivered? then [Delivery(s, x.report.message)] else []),
      h.reports + [x.report],
      h.replies + (if e.Read? then SentBy(e, x) else []),
      h.due + Listed(Due(s, Told(x.report))),
      h.used + (if e.Read? && UsesFrame(x) then Listed(FrontFrame(h.conn)) else []))
  }

  function Advance(h: History, e: Event): (r: History)
    requires ValidCore(h.conn.core)
    ensures ValidCore(r.conn.core)
  {
    ApplyKeepsValid(h.conn, e);
    Record(h, e, Apply(h.conn, e))
  }

  function RunAll(h: History, events: seq<Event>): (r: History)
    requires ValidCore(h.conn.core)
    ensures ValidCore(r.conn.core)
    decreases |events|
  {
    if events == [] then h else RunAll(Advance(h, events[0]), events[1..])
  }

  /** At most one Close, and nothing queued after it. */
  predicate ClosesLast(queued: seq<Frame>) {
    forall i | 0 <= i < |queued| - 1 :: !IsClose(queued[i])
  }

  predicate NoClose(queued: seq<Frame>) {
    forall i | 0 <= i < |queued| :: !IsClose(queued[i])
  }

  predicate SizesKept(delivered: seq<Delivery>, limit: Option<nat>) {
    forall i | 0 <= i < |delivered| :: Within(DataSize(delivered[i].message), limit)
  }

  /** Frame by frame, what is queued is what was sent. */
  predicate AllCarried(queued: seq<Frame>, sent: seq<Message>) {
    |queued| == |sent| && forall i | 0 <= i < |sent| :: Carries(queued[i], sent[i])
  }

  predicate AllAllowed(replies: seq<Message>) {
    forall i | 0 <= i < |replies| :: AllowedReply(replies[i])
  }

  predicate HistoryInv(h: History) {
    && ConnInv(h.conn)
    && ClosesLast(h.queued)
    && (h.conn.core.state.Active? ==> NoClose(h.queued))
    && SizesKept(h.delivered, h.conn.core.maxMessageSize)
    && AllCarried(h.queued, h.sent)
    && AllAllowed(h.replies)
    && Subsequence(h.due, h.replies)
    && (GivenClose(h.delivered) ==> !CanRead(h.conn.core.state))
    && AllClean(h.conn.core.role, h.used) && |h.delivered| <= |h.used| && |h.replies| <= |h.used|
  }

  predicate GivenClose(delivered: seq<Delivery>) {
    exists i | 0 <= i < |delivered| :: delivered[i].message.CloseMessage?
  }

  predicate AllClean(role: Role, used: seq<Frame>) {
    forall i | 0 <= i < |used| :: CleanFrame(role, used[i])
  }

  /** What one event may do, whatever the peer sent and the stream did. */
  predicate StepOk(c: Conn, e: Event, x: Effect) {
    && ConnInv(x.after) && SameConfig(c, x.after)
    && Leads(c.core.state, x.after.core.state)
    && Disciplined(c.core.state, x)
    && (c.shut ==> x.after.shut && x.emitted == [])
    && (x.report.Delivered? ==> e.Read? && Within(DataSize(x.report.message), c.core.maxMessageSize))
    && AllCarried(x.queued, SentBy(e, x))
    && (e.Read? ==> AllAllowed(SentBy(e, x)))
    && (Due(c.core.state, Told(x.report)).Some? ==>
          e.Read? && SentBy(e, x) == [Due(c.core.state, Told(x.report)).value])
    && (e.Read? ==> StemsFromClean(c, x))
  }

  lemma EveryStepOk(c: Conn, e: Event)
    requires ConnInv(c) && NoRawFrame(e)
    ensures StepOk(c, e, Apply(c, e))
  {
    hide UserWrite, UserClose, UserFlush, UserRead, Leads, ConnInv, IsClose, IsPong, OnQueue, CloseFrameOf, Carries,
      AllowedReply, StemsFromClean;
    InvShut(c);
    match e {
      case Write(m, key, io) =>
        WriteStep(c, m, key, io);
        WriteConfig(c, m, key, io);
        SameCoreKeepsInv(c, UserWrite(c, m, key, io).after);
      case Shut(close, key, io) =>
        CloseStep(c, close, key, io);
        CloseConfig(c, close, key, io);
        SameCoreKeepsInv(c, UserClose(c, close, key, io).after);
      case FlushAll(io) =>
        FlushQueuesNothing(c, io);
        FlushLeads(c, io);
        FlushShuts(c, io);
        SameCoreKeepsInv(c, UserFlush(c, io).after);
      case Arrive(chunk) =>
        ArriveStep(c, chunk);
      case Read(arrival, key, io) =>
        ReadStep(c, arrival, key, io);
    }
  }

  lemma ArriveStep(c: Conn, chunk: bytes)
    requires ConnInv(c)
    ensures StepOk(c, Arrive(chunk), Apply(c, Arrive(chunk)))
  {
    hide ValidPartial;
  }

  lemma ReadStep(c: Conn, arrival: Arrival, key: MaskKey, io: Outcomes)
    requires ConnInv(c)
    ensures StepOk(c, Read(arrival, key, io), UserRead(c, arrival, key, io))
    ensures AnswersWell(c, UserRead(c, arrival, key, io), key, io)
    ensures UserRead(c, arrival, key, io).after.shut == c.shut
  {
    hide ReadTurn, ValidPartial, SizedCore, PendingWithin, IsClose, IsPong, FrameOf, OnQueue, AllowedReply, Carries,
      FrontFrame, CleanFrame;
    if !c.core.state.Terminated? {
      TurnStep(c, arrival, key, io);
      TurnSizes(c, arrival, key, io);
      StateChangeKeepsCore(c.core, Terminated);
      var x := ReadTurn(c, arrival, key, io);
      if x.queued != [] && AnswersWell(c, x, key, io) {
        ReplyIsRead(c.core.role, ReplyMessage(x.queued[0]), key);
      }
    }
  }

  lemma InvShut(c: Conn)
    requires ConnInv(c)
    ensures c.shut ==> ShutDown(c)
  {
  }

  lemma FlushLeads(c: Conn, io: Outcomes)
    ensures Leads(c.core.state, UserFlush(c, io).after.core.state)
  {
    FlushQueuesNothing(c, io);
  }

  lemma SameCoreKeepsInv(c: Conn, d: Conn)
    requires ConnInv(c) && d.core == c.core.(state := d.core.state) && d.decoder == c.decoder
    requires d.shut ==> d.core.role.Server? && d.core.state.Terminated? && d.writeBuffer == []
    ensures ConnInv(d)
  {
    hide PendingWithin;
    StateChangeKeepsCore(c.core, d.core.state);
  }

  lemma CloseConfig(c: Conn, close: Option<CloseFrame>, key: MaskKey, io: Outcomes)
    ensures var d := UserClose(c, close, key, io).after;
            d == c.(core := c.core.(state := d.core.state), writeBuffer := d.writeBuffer, shut := d.shut)
  {
    hide WriteFrame, UserFlush, CloseFrameOf, OnQueue;
    var c1 := WithState(c, ClosedByUs);
    WriteQueues(c1, CloseFrameOf(close), key, io.send);
    FlushQueuesNothing(WriteFrame(c1, CloseFrameOf(close), key, io.send).after, io);
    FlushQueuesNothing(c, io);
  }

  lemma WriteConfig(c: Conn, m: Message, key: MaskKey, io: Outcomes)
    ensures var d := UserWrite(c, m, key, io).after;
            d == c.(core := c.core.(state := d.core.state), writeBuffer := d.writeBuffer, shut := d.shut)
  {
    hide WriteFrame, UserClose, OnQueue;
    if m.CloseMessage? {
      CloseConfig(c, m.close, key, io);
    } else {
      WriteQueues(c, FrameFor(m), key, io.send);
    }
  }

  lemma AdvanceKeepsInv(h: History, e: Event)
    requires HistoryInv(h) && NoRawFrame(e)
    ensures HistoryInv(Advance(h, e))
    ensures Leads(h.conn.core.state, Advance(h, e).conn.core.state)
    ensures h.queued <= Advance(h, e).queued && h.delivered <= Advance(h, e).delivered
    ensures SameConfig(h.conn, Advance(h, e).conn)
  {
    hide Apply, ConnInv, ValidCore, ClosesLast, NoClose, SizesKept, AllCarried, AllAllowed, Disciplined, SentBy, Due,
      Subsequence, GivenClose, AllClean, StemsFromClean;
    InvIsValid(h);
    EveryStepOk(h.conn, e);
    var x := Apply(h.conn, e);
    QueueStaysDisciplined(h, e, x);
    SentIsCarried(h, e, x);
    AnsweredInOrder(h, e, x);
    UsedAreClean(h, e, x);
    CloseIsGivenLast(h, e, x);
  }

  lemma QueueStaysDisciplined(h: History, e: Event, x: Effect)
    requires HistoryInv(h) && StepOk(h.conn, e, x)
    ensures var r := Record(h, e, x);
            && ClosesLast(r.queued) && (r.conn.core.state.Active? ==> NoClose(r.queued))
            && SizesKept(r.delivered, r.conn.core.maxMessageSize)
  {
    hide ConnInv, IsClose, AllCarried, AllAllowed, SentBy, Due, Subsequence, GivenClose, AllClean, StemsFromClean;
  }

  lemma SentIsCarried(h: History, e: Event, x: Effect)
    requires HistoryInv(h) && StepOk(h.conn, e, x)
    ensures AllCarried(Record(h, e, x).queued, Record(h, e, x).sent) && AllAllowed(Record(h, e, x).replies)
    ensures |SentBy(e, x)| <= 1
  {
    hide ConnInv, ClosesLast, NoClose, SizesKept, Carries, AllowedReply, Due, Subsequence, GivenClose, AllClean,
      StemsFromClean;
  }

  lemma AnsweredInOrder(h: History, e: Event, x: Effect)
    requires Subsequence(h.due, h.replies) && |SentBy(e, x)| <= 1
    requires var due := Due(h.conn.core.state, Told(x.report)); due.Some? ==> e.Read? && SentBy(e, x) == [due.value]
    ensures Subsequence(Record(h, e, x).due, Record(h, e, x).replies)
  {
    hide Due, SentBy, Subsequence;
    assert h.due + [] == h.due && h.replies + [] == h.replies;
    if e.Read? && SentBy(e, x) != [] {
      SubsequenceAppends(h.due, h.replies, SentBy(e, x)[0]);
      assert SentBy(e, x) == [SentBy(e, x)[0]];
    }
  }

  lemma UsedAreClean(h: History, e: Event, x: Effect)
    requires HistoryInv(h) && StepOk(h.conn, e, x)
    ensures var r := Record(h, e, x);
            AllClean(r.conn.core.role, r.used) && |r.delivered| <= |r.used| && |r.replies| <= |r.used|
  {
    hide ConnInv, Leads, Carries, AllowedReply, Subsequence, DecodeOnce, ReplyMessage, CleanFrame, Due;
  }

  lemma CloseIsGivenLast(h: History, e: Event, x: Effect)
    requires HistoryInv(h) && StepOk(h.conn, e, x)
    ensures var r := Record(h, e, x); GivenClose(r.delivered) ==> !CanRead(r.conn.core.state)
  {
    hide ConnInv, Carries, AllowedReply, Subsequence, FrontFrame, CleanFrame, Due, AllClean, SentBy;
    var r := Record(h, e, x);
    if GivenClose(r.delivered) {
      var i :| 0 <= i < |r.delivered| && r.delivered[i].message.CloseMessage?;
      if i < |h.delivered| {
        assert h.delivered[i] == r.delivered[i];
      }
    }
  }

  /**
    * Against any peer and any stream: once a Close is queued, by the user or as a reply, nothing follows it; the
    * state only moves forward; and no message over the limit is handed over.
    */
  lemma {:induction false} RunIsDisciplined(h: History, events: seq<Event>)
    requires HistoryInv(h) && forall i | 0 <= i < |events| :: NoRawFrame(events[i])
    ensures HistoryInv(RunAll(h, events)) && SameConfig(h.conn, RunAll(h, events).conn)
    ensures Leads(h.conn.core.state, RunAll(h, events).conn.core.state)
    ensures h.queued <= RunAll(h, events).queued && h.delivered <= RunAll(h, events).delivered
    decreases |events|
  {
    hide Advance, HistoryInv, NoRawFrame;
    if events == [] {
    } else {
      InvIsValid(h);
      AdvanceKeepsInv(h, events[0]);
      RunIsDisciplined(Advance(h, events[0]), events[1..]);
    }
  }

  lemma InvIsValid(h: History)
    requires HistoryInv(h)
    ensures ValidCore(h.conn.core) && ConnInv(h.conn)
  {
  }

  /** Every run starts from here. */
  lemma NewHistoryInv(role: Role, config: WebSocketConfig, buffered: bytes)
    requires SizeLimit(config.maxMessageSize) <= USIZE_MAX
    ensures HistoryInv(NewHistory(NewConn(role, config, buffered)))
  {
  }

  /** The discipline, for every run of a new endpoint. */
  lemma EveryRunIsDisciplined(role: Role, config: WebSocketConfig, buffered: bytes, events: seq<Event>)
    requires SizeLimit(config.maxMessageSize) <= USIZE_MAX && forall i | 0 <= i < |events| :: NoRawFrame(events[i])
    ensures var h := RunAll(NewHistory(NewConn(role, config, buffered)), events);
            && ClosesLast(h.queued) && (h.conn.core.state.Active? ==> NoClose(h.queued))
            && AllCarried(h.queued, h.sent)
            && SizesKept(h.delivered, config.maxMessageSize)
            && (h.conn.core.incomplete.Some? ==> Within(Total(h.conn.core.incomplete.value), config.maxMessageSize))
            && AllAllowed(h.replies) && Subsequence(h.due, h.replies)
            && AllClean(role, h.used) && |h.delivered| <= |h.used| && |h.replies| <= |h.used|
            && ((forall i | 0 <= i < |events| :: SmoothRead(events[i])) ==> h.replies == h.due)
  {
    hide RunAll, NoRawFrame, SmoothRead, ClosesLast, NoClose, ValidPartial, Total, PendingWithin, AllCarried,
      AllAllowed, SizesKept, Subsequence, AllClean, GivenClose;
    var start := NewHistory(NewConn(role, config, buffered));
    NewHistoryInv(role, config, buffered);
    RunIsDisciplined(start, events);
    if forall i | 0 <= i < |events| :: SmoothRead(events[i]) {
      RepliesAreDue(start, events);
    }
  }

  predicate SmoothRead(e: Event) {
    e.Read? ==> e.io == SMOOTH
  }

  /**
    * While replies can be written, `read` sends exactly the replies due to what it handed over while active, in order:
    * a Pong with its own payload for every Ping, and for a Close the very frame shown to the user.
    */
  lemma {:induction false} RepliesAreDue(h: History, events: seq<Event>)
    requires HistoryInv(h) && h.replies == h.due
    requires forall i | 0 <= i < |events| :: NoRawFrame(events[i]) && SmoothRead(events[i])
    ensures RunAll(h, events).replies == RunAll(h, events).due
    decreases |events|
  {
    hide Advance, HistoryInv, NoRawFrame, SmoothRead;
    if events == [] {
    } else {
      InvIsValid(h);
      AdvanceKeepsInv(h, events[0]);
      DueStep(h, events[0]);
      RepliesAreDue(Advance(h, events[0]), events[1..]);
    }
  }

  lemma DueStep(h: History, e: Event)
    requires HistoryInv(h) && h.replies == h.due && NoRawFrame(e) && SmoothRead(e)
    ensures Advance(h, e).replies == Advance(h, e).due
  {
    hide UserRead, UserWrite, UserClose, UserFlush, ClosesLast, NoClose, SizesKept, ConnInv, AllCarried, AllAllowed,
      ReplyMessage, AllowedReply, OnQueue, FrameOf;
    InvIsValid(h);
    EveryStepOk(h.conn, e);
    if e.Read? {
      ReadStep(h.conn, e.arrival, e.key, e.io);
    }
  }

  // ---- after the end ----

  /** Late reads and writes are told so; nothing else is. */
  predicate RefusedLate(e: Event, r: Report) {
    r == Failed(AlreadyClosed) <==> e.Read? || e.Write?
  }

  /** Once terminated, a run changes nothing any more, and tells every read and write that it came too late. */
  lemma {:induction false} TerminatedIsFinal(h: History, events: seq<Event>)
    requires ValidCore(h.conn.core) && h.conn.core.state.Terminated?
    ensures var r := RunAll(h, events);
            && r.conn.core == h.conn.core && r.queued == h.queued && r.delivered == h.delivered
            && |r.reports| == |h.reports| + |events| && h.reports <= r.reports
            && forall i | 0 <= i < |events| :: RefusedLate(events[i], r.reports[|h.reports| + i])
    decreases |events|
  {
    hide Apply, ValidCore, RefusedLate;
    if events != [] {
      var g := Advance(h, events[0]);
      LateStep(h.conn, events[0]);
      TerminatedIsFinal(g, events[1..]);
      var r := RunAll(h, events);
      forall i | 0 <= i < |events|
        ensures RefusedLate(events[i], r.reports[|h.reports| + i])
      {
        if i > 0 {
          assert RefusedLate(events[1..][i - 1], r.reports[|g.reports| + (i - 1)]);
        } else {
          assert r.reports[|h.reports|] == g.reports[|h.reports|];
        }
      }
    }
  }

  lemma LateStep(c: Conn, e: Event)
    requires ValidCore(c.core) && c.core.state.Terminated?
    ensures var x := Apply(c, e);
            x.after.core == c.core && x.queued == [] && !x.report.Delivered? && RefusedLate(e, x.report)
  {
    hide FlushBuffer, ValidPartial;
    if e.FlushAll? || e.Shut? {
      FlushNeverLate(c, e.io.flush);
    }
  }

  lemma FlushNeverLate(c: Conn, outcome: Outcome)
    ensures FlushCodec(c, outcome).report != Failed(AlreadyClosed)
    ensures FlushCodec(c, outcome).after.core == c.core
  {
  }
}
