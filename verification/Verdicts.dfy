/**
  * What each call answers, case by case: which frames `read` refuses and how, what it says at the end or the loss of a
  * stream, what late calls are told, and what a Close and a written message look like in octets.
  */
module Verdicts {
  import opened Prelude
  import opened Coding
  import opened Errors
  import opened Mask
  import opened Frame
  import opened Decode
  import opened Message
  import opened Sender
  import opened Endpoint
  import opened Runs
  import opened Fragmentation
  import opened Wire

  // ---- frames that are refused ----

  function Sofar(p: Partial): bytes {
    match p
    case PartialText(c) => c.data + c.carry
    case PartialBinary(v) => v
  }

  /** What is wrong with a message of which these octets have arrived. */
  ghost function BodyVerdict(isText: bool, octets: bytes, isFinal: bool, limit: Option<nat>): Option<Error> {
    if limit.Some? && |octets| > limit.value then Some(MessageTooLong(|octets|, limit.value))
    else if limit.None? && |octets| > USIZE_MAX then Some(MessageTooLong(|octets|, USIZE_MAX))
    else if isText && isFinal && !Utf8.WellFormed(octets) then Some(Utf8Error)
    else if isText && forall rest: bytes :: !Utf8.WellFormed(octets + rest) then Some(Utf8Error)
    else None
  }

  /** Section 5.5.1 of RFC 6455: nothing, or a code and text. */
  function CloseVerdict(p: bytes): Option<Error> {
    if |p| == 1 then Some(Protocol(InvalidCloseSequence))
    else if |p| >= 2 && !Utf8.WellFormed(p[2..]) then Some(Utf8Error)
    else None
  }

  /** Sections 5.1, 5.2, 5.4 and 5.5 of RFC 6455: what is wrong with a frame, the first rule it breaks deciding. */
  ghost function Verdict(c: Core, f: Frame): Option<Error> {
    var h, p := f.header, f.payload;
    if c.state.ClosedByPeer? || c.state.CloseAcknowledged? then Some(Protocol(ReceivedAfterClosing))
    else if h.rsv1 || h.rsv2 || h.rsv3 then Some(Protocol(NonZeroReservedBits))
    else if c.role.Client? && h.mask.Some? then Some(Protocol(MaskedFrameFromServer))
    else match h.opcode
      case ControlOp(kind) =>
        if !h.isFinal then Some(Protocol(FragmentedControlFrame))
        else if |p| >= 126 then Some(Protocol(ControlFrameTooBig))
        else (match kind
              case Close => CloseVerdict(p)
              case Ping => None
              case Pong => None
              case ReservedControl(i) => Some(Protocol(UnknownControlFrameType(i))))
      case DataOp(kind) =>
        match kind
        case Continue =>
          if c.incomplete.None? then Some(Protocol(UnexpectedContinueFrame))
          else BodyVerdict(c.incomplete.value.PartialText?, Sofar(c.incomplete.value) + p, h.isFinal, c.maxMessageSize)
        case Text =>
          if c.incomplete.Some? then Some(Protocol(ExpectedFragment(Text)))
          else BodyVerdict(true, p, h.isFinal, c.maxMessageSize)
        case Binary =>
          if c.incomplete.Some? then Some(Protocol(ExpectedFragment(Binary)))
          else BodyVerdict(false, p, h.isFinal, c.maxMessageSize)
        case ReservedData(i) =>
          if c.incomplete.Some? then Some(Protocol(ExpectedFragment(ReservedData(i))))
          else Some(Protocol(UnknownDataFrameType(i)))
  }

  lemma SofarHolds(p: Partial)
    requires ValidPartial(p)
    ensures Holds(p, p.PartialText?, Sofar(p)) && |Sofar(p)| == Total(p)
  {
    hide Utf8.WellFormed, Utf8.IsPartial;
  }

  lemma ExtensionVerdict(p: Partial, tail: bytes, limit: Option<nat>)
    requires ValidPartial(p) && Total(p) <= SizeLimit(limit) <= USIZE_MAX
    ensures ExtendPartial(p, tail, limit).error == BodyVerdict(p.PartialText?, Sofar(p) + tail, false, limit)
  {
    hide Utf8.WellFormed, Collector.Feed, Holds, ValidPartial;
    SofarHolds(p);
    ExtendAccounting(p, tail, limit);
    ExtendFailsIffHopeless(p, p.PartialText?, Sofar(p), tail, limit);
    ExtensionErrors(p, tail, limit);
  }

  lemma ExtensionErrors(p: Partial, tail: bytes, limit: Option<nat>)
    ensures var e := ExtendPartial(p, tail, limit).error; e.Some? ==> e.value.MessageTooLong? || e.value == Utf8Error
  {
    hide Collector.Feed;
  }

  /** With the last octets in, being text decides. */
  lemma FinalVerdict(isText: bool, octets: bytes, limit: Option<nat>)
    ensures BodyVerdict(isText, octets, true, limit) ==
            var e := BodyVerdict(isText, octets, false, limit);
            if e.Some? then e else if isText && !Utf8.WellFormed(octets) then Some(Utf8Error) else None
  {
    hide Utf8.WellFormed;
    assert octets + [] == octets;
  }

  lemma ContinuationVerdict(c: Core, f: Frame)
    requires ValidCore(c) && SizedCore(c) && c.incomplete.Some?
    ensures var p := c.incomplete.value;
            var r := HandleContinue(c, f).1;
            var v := BodyVerdict(p.PartialText?, Sofar(p) + f.payload, f.header.isFinal, c.maxMessageSize);
            (r.Err? <==> v.Some?) && (r.Err? ==> r.error == v.value)
  {
    hide Utf8.WellFormed, ExtendPartial, CompletePartial, Holds, ValidPartial, BodyVerdict;
    var p, limit := c.incomplete.value, c.maxMessageSize;
    var e, all := ExtendPartial(p, f.payload, limit), Sofar(p) + f.payload;
    SofarHolds(p);
    ExtensionVerdict(p, f.payload, limit);
    FinalVerdict(p.PartialText?, all, limit);
    ExtendKeepsValid(p, f.payload, limit);
    ExtendHolds(p, p.PartialText?, Sofar(p), f.payload, limit, []);
    if e.error.None? {
      CompleteHolds(e.after, p.PartialText?, all);
      CompletionErrors(e.after);
    }
  }

  lemma CompletionErrors(p: Partial)
    requires ValidPartial(p)
    ensures CompletePartial(p).Err? ==> CompletePartial(p).error == Utf8Error
  {
    hide Utf8.WellFormed, Utf8.IsPartial;
  }

  lemma FirstFrameVerdict(c: Core, f: Frame, isText: bool)
    requires ValidCore(c) && SizedCore(c) && c.incomplete.None? && f.header.opcode == DataOp(Kind(isText))
    requires |f.payload| <= USIZE_MAX
    ensures var (after, r) := HandleData(c, f);
            var v := BodyVerdict(isText, f.payload, f.header.isFinal, c.maxMessageSize);
            && (r.Err? <==> v.Some?) && (r.Err? ==> after == c && r.error == v.value)
  {
    hide Utf8.WellFormed, ExtendPartial, ValidPartial, NewPartial;
    NewPartialIsValid(isText);
    FinalVerdict(isText, f.payload, c.maxMessageSize);
    NewIsEmpty(isText);
    assert [] + f.payload == f.payload;
    ExtensionVerdict(NewPartial(isText), f.payload, c.maxMessageSize);
    if f.header.isFinal {
      SingleFrameVerdict(isText, f.payload, c.maxMessageSize);
    }
  }

  lemma NewIsEmpty(isText: bool)
    ensures Sofar(NewPartial(isText)) == [] && Total(NewPartial(isText)) == 0
    ensures NewPartial(isText).PartialText? == isText
  {
  }

  lemma SingleFrameVerdict(isText: bool, payload: bytes, limit: Option<nat>)
    requires |payload| <= USIZE_MAX
    ensures var r := WholeMessage(payload, isText, limit);
            var v := BodyVerdict(isText, payload, true, limit);
            && (r.Err? <==> v.Some?) && (r.Err? ==> r.error == v.value)
            && (r.Ok? ==> r.value == if isText then TextMessage(payload) else BinaryMessage(payload))
  {
    hide Utf8.WellFormed;
    assert payload + [] == payload;
  }

  lemma ControlVerdict(c: Core, f: Frame)
    requires CanRead(c.state) && f.header.opcode.ControlOp?
    requires !f.header.rsv1 && !f.header.rsv2 && !f.header.rsv3 && (c.role.Client? ==> f.header.mask.None?)
    ensures var (after, r) := HandleControl(c, f);
            (r.Err? <==> Verdict(c, f).Some?) && (r.Err? ==> after == c && r.error == Verdict(c, f).value)
  {
    hide DoClose, Utf8.WellFormed;
    ClosePayloadVerdict(f.payload);
  }

  /**
    * Of every frame, `read` accepts exactly those nothing is wrong with, and refuses the others with the error the
    * table names. Only a refused continuation changes anything, and that only the message it continues.
    */
  lemma FrameVerdict(c: Core, f: Frame)
    requires ValidCore(c) && SizedCore(c) && !c.state.Terminated? && |f.payload| <= USIZE_MAX
    ensures var (after, r) := Take(c, f);
            && (r.Err? <==> Verdict(c, f).Some?) && (r.Err? ==> r.error == Verdict(c, f).value)
            && (r.Err? ==> after.(incomplete := c.incomplete) == c)
            && (r.Err? && !(f.header.opcode == DataOp(Continue) && c.incomplete.Some?) ==> after == c)
  {
    hide HandleControl, HandleContinue, HandleData, BodyVerdict, ValidPartial, CloseVerdict;
    if Refusal(c, f).None? {
      match f.header.opcode {
        case ControlOp(_) => ControlVerdict(c, f);
        case DataOp(kind) =>
          DataVerdict(c, f);
      }
    }
  }

  lemma DataVerdict(c: Core, f: Frame)
    requires ValidCore(c) && SizedCore(c) && CanRead(c.state) && f.header.opcode.DataOp? && |f.payload| <= USIZE_MAX
    requires !f.header.rsv1 && !f.header.rsv2 && !f.header.rsv3 && (c.role.Client? ==> f.header.mask.None?)
    ensures var (after, r) := HandleData(c, f);
            && (r.Err? <==> Verdict(c, f).Some?) && (r.Err? ==> r.error == Verdict(c, f).value)
            && (r.Err? ==> after.(incomplete := c.incomplete) == c)
            && (r.Err? && !(f.header.opcode == DataOp(Continue) && c.incomplete.Some?) ==> after == c)
  {
    hide BodyVerdict, ValidPartial, ExtendPartial, CompletePartial, WholeMessage, NewPartial;
    if c.incomplete.Some? {
      ContinuationVerdict(c, f);
      ExtendKeepsValid(c.incomplete.value, f.payload, c.maxMessageSize);
    } else if f.header.opcode == DataOp(Text) {
      FirstFrameVerdict(c, f, true);
    } else if f.header.opcode == DataOp(Binary) {
      FirstFrameVerdict(c, f, false);
    }
  }
  // ---- what is made of the others ----

  /** The message a whole frame shows, Close frames apart. */
  function Shows(op: OpCode, p: bytes): Option<Message> {
    match op
    case DataOp(Text) => if Utf8.WellFormed(p) then Some(TextMessage(p)) else None
    case DataOp(Binary) => Some(BinaryMessage(p))
    case ControlOp(Ping) => Some(PingMessage(p))
    case ControlOp(Pong) => Some(PongMessage(p))
    case _ => None
  }

  lemma AcceptedIsShown(c: Core, f: Frame)
    requires ValidCore(c) && SizedCore(c) && !c.state.Terminated? && |f.payload| <= USIZE_MAX
    requires Verdict(c, f).None? && f.header.isFinal && Shows(f.header.opcode, f.payload).Some?
    ensures Take(c, f) ==
            (c, Ok(Handled(Shows(f.header.opcode, f.payload),
                           if f.header.opcode == ControlOp(Ping) && c.state.Active? then Some(PongFrame(f.payload))
                           else None)))
  {
    hide Utf8.WellFormed, BodyVerdict, ValidPartial, ExtendPartial, CompletePartial, WholeMessage, IntoClose;
    if f.header.opcode == DataOp(Text) {
      SingleFrameVerdict(true, f.payload, c.maxMessageSize);
    } else if f.header.opcode == DataOp(Binary) {
      SingleFrameVerdict(false, f.payload, c.maxMessageSize);
    }
  }

  // ---- reading octets ----

  /** The frame as this side sees it: a server removes the masking. */
  function SeenBy(role: Role, s: bytes, f: Frame): Frame
    requires |f.payload| <= |s|
  {
    if role.Server? then Frame(f.header.(mask := None), f.payload) else Frame(f.header, s[|s| - |f.payload|..])
  }

  /** What is wrong with the first octets a new socket reads, if they are a frame. */
  ghost function FirstVerdict(role: Role, config: WebSocketConfig, s: bytes, f: Frame): Option<Error>
    requires |f.payload| <= |s|
  {
    if config.maxFrameSize.Some? && |f.payload| > config.maxFrameSize.value then
      Some(MessageTooLong(|f.payload|, config.maxFrameSize.value))
    else if role.Server? && f.header.mask.None? && !config.acceptUnmaskedFrames then
      Some(Protocol(UnmaskedFrameFromClient))
    else Verdict(Core(role, Active, None, config.maxMessageSize), SeenBy(role, s, f))
  }

  /**
    * From octets to messages: a new socket that finds a frame, written in any form, refuses it as the table and its
    * configuration say, and otherwise hands over what it shows.
    */
  lemma FirstRead(role: Role, config: WebSocketConfig, s: bytes, f: Frame, rest: bytes, arrival: Arrival, key: MaskKey)
    requires IsFrame(s, f) && |f.payload| <= USIZE_MAX && SizeLimit(config.maxMessageSize) <= USIZE_MAX
    ensures var x := Apply(NewConn(role, config, s + rest), Read(arrival, key, SMOOTH));
            var v := FirstVerdict(role, config, s, f);
            var seen := SeenBy(role, s, f);
            && (v.Some? ==>
                  x.report == Failed(v.value) && x.queued == [] && x.emitted == [] && x.after.core.state.Active?)
            && (v.None? && f.header.isFinal && Shows(f.header.opcode, seen.payload).Some? ==>
                  && x.report == Delivered(Shows(f.header.opcode, seen.payload).value)
                  && x.after.core.state.Active? && x.after.readBuffer == rest)
  {
    hide DecodeOnce, IsFrame, Take, Verdict, Answer, Utf8.WellFormed;
    FrameHoldsPayload(s, f);
    var c := NewConn(role, config, s + rest);
    FrameIsDecoded(c.decoder, s, f, rest);
    var seen := SeenBy(role, s, f);
    if DecodeOnce(c.decoder, c.readBuffer).out.Item? {
      FrameVerdict(c.core, seen);
      if Verdict(c.core, seen).None? && f.header.isFinal && Shows(f.header.opcode, seen.payload).Some? {
        AcceptedIsShown(c.core, seen);
        var (core, r) := Take(c.core, seen);
        SmoothAnswer(c.(readBuffer := rest), r.value, key);
      }
    }
  }

  lemma FrameHoldsPayload(s: bytes, f: Frame)
    requires IsFrame(s, f)
    ensures |f.payload| <= |s|
  {
    hide IsHeader, IsMasked;
  }

  lemma SmoothAnswer(c: Conn, h: Handled, key: MaskKey)
    requires h.message.Some?
    ensures var x := Answer(c, h, key, SMOOTH);
            x.report == Delivered(h.message.value) && x.after == c.(writeBuffer := x.after.writeBuffer)
  {
    hide SendFrame, EncodeFrame;
    if h.reply.Some? {
      WriteQueues(c, h.reply.value, key, Accepted);
      SmoothWrite(c, h.reply.value, key);
      SmoothFlush(WriteFrame(c, h.reply.value, key, Accepted).after);
    }
  }

  // ---- Close frames ----

  /** The number 1002 and the text "Protocol violation". */
  const VIOLATION: bytes := [
    0x03, 0xEA, 0x50, 0x72, 0x6F, 0x74, 0x6F, 0x63, 0x6F, 0x6C,
    0x20, 0x76, 0x69, 0x6F, 0x6C, 0x61, 0x74, 0x69, 0x6F, 0x6E]

  lemma ViolationOctets()
    ensures ClosePayload(Some(Violation())) == VIOLATION
  {
    hide ToBigEndian, CloseCodeToU16, AsciiText, Violation, Utf8.WellFormed;
    NamedCodes();
    ViolationNumber();
    ViolationText();
    assert VIOLATION == VIOLATION[..2] + VIOLATION[2..];
  }

  lemma ViolationNumber()
    ensures VIOLATION[..2] == ToBigEndian(1002, 2)
  {
    hide ToBigEndian, FromBigEndian;
    var two: bytes := [0x03, 0xEA];
    TwoOctets(two);
    BigEndianInverse(two);
    assert VIOLATION[..2] == two;
  }

  lemma ViolationText()
    ensures Violation().reason == VIOLATION[2..] && Violation().code == ProtocolViolation
  {
    hide Utf8.WellFormed, AsciiText, ToByte;
    var text := "Protocol violation";
    AsciiAt(text);
    forall i | 0 <= i < |text|
      ensures AsciiText(text)[i] == VIOLATION[2..][i]
    {
      ViolationLetters(i);
    }
  }

  lemma ViolationLetters(i: nat)
    requires i < 18
    ensures ToByte("Protocol violation"[i] as int) == VIOLATION[i + 2]
  {
    hide ToByte;
    Letter(0x50, 80);
    Letter(0x72, 114);
    Letter(0x6F, 111);
    Letter(0x74, 116);
    Letter(0x63, 99);
    Letter(0x6C, 108);
    Letter(0x20, 32);
    Letter(0x76, 118);
    Letter(0x69, 105);
    Letter(0x61, 97);
    Letter(0x6E, 110);
  }

  lemma Letter(b: byte, n: nat)
    requires b as int == n
    ensures ToByte(n) == b
  {
    hide ToByte;
    ByteInverse(b);
  }

  /** The number and the reason of a Close frame are those of these octets. */
  predicate SaysClose(close: Option<CloseFrame>, p: bytes) {
    if close.None? then p == []
    else |p| >= 2 && CloseCodeToU16(close.value.code) == CodeIn(p) && close.value.reason == p[2..]
  }

  /** The octets a Close is answered with, which the user is shown as well. */
  function CloseAnswer(p: bytes): bytes
    requires |p| != 1
  {
    if p == [] || MayBeSent(CodeIn(p)) then p else VIOLATION
  }

  /**
    * Sections 5.5.1 and 7.4 of RFC 6455, in octets: while active an acceptable Close is handed over and answered with
    * the same payload if its number may be sent, and with 1002 "Protocol violation" if not; after an own Close it is
    * handed over as it came and answered by nothing.
    */
  lemma CloseIsAnswered(c: Core, f: Frame)
    requires ValidCore(c) && SizedCore(c) && CanRead(c.state)
    requires Verdict(c, f).None? && f.header.opcode == ControlOp(Close)
    ensures |f.payload| != 1 && Take(c, f).1.Ok?
    ensures var (after, r) := Take(c, f);
            && after == c.(state := if c.state.Active? then ClosedByPeer else CloseAcknowledged)
            && r.value.message.Some? && r.value.message.value.CloseMessage?
            && var shown := r.value.message.value.close;
            if c.state.Active? then
              SaysClose(shown, CloseAnswer(f.payload))
              && r.value.reply == Some(Frame(PlainHeader(ControlOp(Close)), CloseAnswer(f.payload)))
            else SaysClose(shown, f.payload) && r.value.reply.None?
  {
    hide Utf8.WellFormed, CloseCodeToU16, CloseCodeFromU16, IntoClose, ClosePayload, ToBigEndian, CodeIn, Violation,
      MayBeSent, IsAllowed;
    var p := f.payload;
    ClosePayloadVerdict(p);
    CloseSaysPayload(p);
    ViolationOctets();
    ViolationSays();
  }

  /** What a parsed Close says, and whether it is passed on. */
  lemma CloseSaysPayload(p: bytes)
    requires IntoClose(p).Ok?
    ensures |p| != 1 && SaysClose(IntoClose(p).value, p)
    ensures ClosePayload(IntoClose(p).value) == p
    ensures IntoClose(p).value.Some? ==> (IsAllowed(IntoClose(p).value.value.code) <==> MayBeSent(CodeIn(p)))
  {
    hide Utf8.WellFormed, CloseCodeToU16, CloseCodeFromU16, ClosePayload, FromBigEndian, IsAllowed, MayBeSent;
    ClosePayloadVerdict(p);
    if |p| >= 2 {
      ParsedCloseInNumbers(p);
      AllowedNumbers(CodeIn(p));
      OnTheWireIsStable(CodeIn(p));
    }
  }

  lemma ViolationSays()
    ensures SaysClose(Some(Violation()), VIOLATION)
  {
    hide CloseCodeToU16, Utf8.WellFormed;
    NamedCodes();
    ViolationText();
  }

  // ---- messages as octets ----

  function PayloadOf(m: Message): bytes {
    match m
    case TextMessage(text) => text
    case BinaryMessage(data) => data
    case PingMessage(data) => data
    case PongMessage(data) => data
    case CloseMessage(close) => ClosePayload(close)
    case RawFrame(f) => f.payload
  }

  /** A message is one final frame, with no reserved bit, of the number of its kind. */
  function FirstOctetOf(m: Message): byte
    requires !m.RawFrame?
  {
    match m
    case TextMessage(_) => 0x81
    case BinaryMessage(_) => 0x82
    case CloseMessage(_) => 0x88
    case PingMessage(_) => 0x89
    case PongMessage(_) => 0x8A
  }

  /** The octets of one frame: its first one, a length, the key if there is one, and the payload. */
  predicate OneFrame(s: bytes, first: byte, p: bytes, mask: Option<MaskKey>) {
    |s| >= 2 &&
    var e := 2 + MarkerExtra(Marker(s[1]));
    var n := e + if mask.Some? then 4 else 0;
    && |s| == n + |p| && s[0] == first && (Has(s[1], 0x80) <==> mask.Some?)
    && LengthField(Marker(s[1]), s[2..e], |p|)
    && (mask.Some? ==> s[e..n] == mask.value && IsMasked(s[n..], p, mask.value))
    && (mask.None? ==> s[n..] == p)
  }

  /** A written message on the wire: masked by clients only, with the given key, its octets otherwise as given. */
  lemma MessageOctets(role: Role, m: Message, key: MaskKey)
    requires !m.RawFrame? && |PayloadOf(m)| < U64_LIMIT
    ensures OneFrame(EncodeFrame(OnQueue(role, FrameOf(m), key)), FirstOctetOf(m), PayloadOf(m),
                     if role.Client? then Some(key) else None)
  {
    hide EncodeFrame, IsFrame, OneFrame, ClosePayload;
    var f := OnQueue(role, FrameOf(m), key);
    EncodedIsFrame(f);
    FrameIsOne(EncodeFrame(f), f, FirstOctetOf(m));
  }

  lemma FrameIsOne(s: bytes, f: Frame, first: byte)
    requires IsFrame(s, f) && f.header.isFinal && !f.header.rsv1 && !f.header.rsv2 && !f.header.rsv3
    requires forall n: byte | Numbered(f.header.opcode, n) :: first == 0x80 | n
    ensures OneFrame(s, first, f.payload, f.header.mask)
  {
    hide IsMasked, LengthField, Marker, Numbered, Has;
    var n := |s| - |f.payload|;
    assert s[..n][0] == s[0] && s[..n][1] == s[1];
    var e := 2 + MarkerExtra(Marker(s[1]));
    SliceOfPrefix(s, n, 2, e);
    SliceOfPrefix(s, n, e, n);
    FirstOctetIs(s[0], s[0] & 0x0F);
  }

  lemma FirstOctetIs(b: byte, n: byte)
    requires b & 0x0F == n
    ensures Has(b, 0x80) && !Has(b, 0x40) && !Has(b, 0x20) && !Has(b, 0x10) ==> b == 0x80 | n
  {
  }
  // ---- after a Close ----

  /**
    * In every run of a server: once a Close has been handed over, or handled, or the connection is over, the next read
    * says `ConnectionClosed`, and every later one `AlreadyClosed`, whatever is buffered, whatever arrives and however
    * the stream behaves; it touches nothing but the state, which is `Terminated` from then on.
    */
  lemma ServerReadsNoMore(
      config: WebSocketConfig, buffered: bytes, events: seq<Event>, arrival: Arrival, key: MaskKey, io: Outcomes)
    requires SizeLimit(config.maxMessageSize) <= USIZE_MAX && forall i | 0 <= i < |events| :: NoRawFrame(events[i])
    ensures var h := RunAll(NewHistory(NewConn(Server, config, buffered)), events);
            var r := Advance(h, Read(arrival, key, io));
            var s := h.conn.core.state;
            GivenClose(h.delivered) || s.ClosedByPeer? || s.CloseAcknowledged? || s.Terminated? ==>
              && r.reports == h.reports + [Failed(if s.Terminated? then AlreadyClosed else ConnectionClosed)]
              && r.conn == h.conn.(core := h.conn.core.(state := Terminated))
              && r.queued == h.queued && r.delivered == h.delivered
  {
    hide RunAll, NoRawFrame, GivenClose, HistoryInv, Advance, Leads;
    var start := NewHistory(NewConn(Server, config, buffered));
    NewHistoryInv(Server, config, buffered);
    RunIsDisciplined(start, events);
    var h := RunAll(start, events);
    InvIsValid(h);
    if GivenClose(h.delivered) {
      NoMoreReading(h);
    }
    ReadAfterClose(h, arrival, key, io);
  }

  lemma ReadAfterClose(h: History, arrival: Arrival, key: MaskKey, io: Outcomes)
    requires ValidCore(h.conn.core) && h.conn.core.role.Server?
    ensures var r := Advance(h, Read(arrival, key, io));
            var s := h.conn.core.state;
            s.ClosedByPeer? || s.CloseAcknowledged? || s.Terminated? ==>
              && r.reports == h.reports + [Failed(if s.Terminated? then AlreadyClosed else ConnectionClosed)]
              && r.conn == h.conn.(core := h.conn.core.(state := Terminated))
              && r.queued == h.queued && r.delivered == h.delivered
  {
    hide ReadTurn, ValidCore, FrontFrame, ReplyMessage;
  }

  lemma NoMoreReading(h: History)
    requires HistoryInv(h) && GivenClose(h.delivered)
    ensures var s := h.conn.core.state; s.ClosedByPeer? || s.CloseAcknowledged? || s.Terminated?
  {
    hide GivenClose, ConnInv, ClosesLast, AllCarried, AllAllowed, AllClean, Subsequence, SizesKept;
  }

  /** `write` and `close` after closing, and what a `close` still does. */
  lemma LateCalls(c: Conn, m: Message, close: Option<CloseFrame>, key: MaskKey, io: Outcomes)
    requires ValidCore(c.core) && !c.core.state.Active?
    ensures Apply(c, Write(m, key, io)) ==
            Effect(c, [], [], Failed(if c.core.state.Terminated? then AlreadyClosed else Protocol(SendAfterClosing)))
    ensures Apply(c, Shut(close, key, io)) == Apply(c, FlushAll(io))
  {
  }

  function FailureOf(outcome: Outcome): Option<bool> {
    match outcome
    case Accepted => None
    case WriteFails(_, reset) => Some(reset)
    case FlushFails(reset) => Some(reset)
  }

  /** Writing a Close message is closing, and a raw frame goes out as it was given, masked by clients only. */
  lemma CloseMessageCloses(c: Conn, close: Option<CloseFrame>, f: Frame, key: MaskKey, io: Outcomes)
    requires ValidCore(c.core) && c.core.state.Active?
    ensures Apply(c, Write(CloseMessage(close), key, io)) == Apply(c, Shut(close, key, io))
    ensures var x := Apply(c, Write(RawFrame(f), key, io));
            x.report.Done? ==>
              x.queued == [if c.core.role.Client? then Frame(f.header.(mask := Some(key)), f.payload) else f]
  {
    hide EncodeFrame, CloseFrameOf;
  }

  /** The stream has taken and passed on all that was buffered. */
  predicate AllWritten(c: Conn, io: Outcomes) {
    io.flush.Accepted? || c.writeBuffer == []
  }

  /** A flush of a connection that goes on: it succeeds exactly when all is written, and changes nothing else. */
  lemma FlushVerdict(c: Conn, io: Outcomes)
    requires ValidCore(c.core)
    requires c.core.role.Client? || c.core.state.Active? || c.core.state.ClosedByUs?
    ensures var x := Apply(c, FlushAll(io));
            && x.after == c.(writeBuffer := x.after.writeBuffer) && x.queued == []
            && (AllWritten(c, io) ==> x.report == Done && x.after.writeBuffer == [] && x.emitted == c.writeBuffer)
            && (!AllWritten(c, io) ==> x.report == Failed(Io(FailureOf(io.flush).value)))
  {
  }

  /**
    * A flush on a server that has received a Close, or has ended: it ends the connection, shuts the stream down when
    * all is written, and says `ConnectionClosed` exactly when nothing has failed.
    */
  lemma LastFlushVerdict(c: Conn, io: Outcomes)
    requires ValidCore(c.core) && c.core.role.Server? && !c.core.state.Active? && !c.core.state.ClosedByUs?
    ensures var x := Apply(c, FlushAll(io));
            var smooth := AllWritten(c, io) && io.shutdown.None?;
            && x.after == WithState(c, Terminated).(writeBuffer := x.after.writeBuffer, shut := c.shut || smooth)
            && x.queued == []
            && (AllWritten(c, io) ==> x.after.writeBuffer == [] && x.emitted == c.writeBuffer)
            && x.report == Failed(
                 if !AllWritten(c, io) then Io(FailureOf(io.flush).value)
                 else if io.shutdown.Some? then Io(io.shutdown.value) else ConnectionClosed)
  {
  }

  // ---- the end and the loss of a stream ----

  /**
    * The end of the stream ends the connection: as it should after a Close has been received, and as a protocol error
    * before; inside a frame it is an I/O error.
    */
  lemma EndVerdict(c: Conn, key: MaskKey, io: Outcomes)
    requires ValidCore(c.core) && NeedsInput(DecodeOnce(c.decoder, c.readBuffer).out)
    ensures var x := Apply(c, Read(EndOfStream, key, io));
            var d := DecodeOnce(c.decoder, c.readBuffer);
            var s := c.core.state;
            && x.queued == [] && x.emitted == []
            && x.report == Failed(
                 if s.Terminated? then AlreadyClosed
                 else if c.core.role.Server? && (s.ClosedByPeer? || s.CloseAcknowledged?) then ConnectionClosed
                 else if d.after.header.Some? || d.rest != [] then Io(false)
                 else if s.ClosedByPeer? || s.CloseAcknowledged? then ConnectionClosed
                 else Protocol(ResetWithoutClosingHandshake))
            && (x.report != Failed(Io(false)) ==> x.after.core == c.core.(state := Terminated))
  {
    hide DecodeOnce, ReceiveFrame;
  }

  /** A reset is the normal end exactly when it comes after a Close has been received; any other failure is an error. */
  function LossSays(s: State, reset: bool): Error {
    if reset && (s.ClosedByPeer? || s.CloseAcknowledged? || s.Terminated?) then ConnectionClosed else Io(reset)
  }

  /** The stream is lost while `read` waits. */
  lemma ReadLoss(c: Conn, reset: bool, key: MaskKey, io: Outcomes)
    requires ValidCore(c.core) && !c.core.state.Terminated? && NeedsInput(DecodeOnce(c.decoder, c.readBuffer).out)
    requires c.core.role.Client? || c.core.state.Active? || c.core.state.ClosedByUs?
    ensures var x := Apply(c, Read(Lost(reset), key, io));
            x.report == Failed(LossSays(c.core.state, reset)) && x.after.core == c.core && x.queued == []
  {
    hide DecodeOnce, ReceiveFrame;
  }

  /**
    * The stream is lost while a user's frame has to be written: an I/O error, since nothing has been received that
    * would make it the normal end; nothing is queued, and `close` has closed all the same.
    */
  lemma WriteLoss(c: Conn, e: Event)
    requires ValidCore(c.core) && c.core.state.Active? && |c.writeBuffer| > c.writeLimit
    requires e.Write? || e.Shut?
    requires FailureOf(e.io.send).Some?
    ensures var x := Apply(c, e);
            && x.report == Failed(Io(FailureOf(e.io.send).value)) && x.queued == []
            && x.after.core == c.core.(state := if e.Shut? || e.message.CloseMessage? then ClosedByUs else Active)
  {
    hide EncodeFrame, CloseFrameOf, FrameFor;
  }

  /**
    * The stream is lost while `read` has to write a reply: after a Close a reset is the normal end, after a Ping it is
    * not; nothing is handed over.
    */
  lemma ReplyLoss(c: Conn, arrival: Arrival, key: MaskKey, io: Outcomes)
    requires ConnInv(c) && c.core.state.Active? && |c.writeBuffer| > c.writeLimit && FailureOf(io.send).Some?
    requires FrontFrame(c).Some? && |FrontFrame(c).value.payload| <= USIZE_MAX
    requires Verdict(c.core, FrontFrame(c).value).None?
    requires var op := FrontFrame(c).value.header.opcode; op == ControlOp(Ping) || op == ControlOp(Close)
    ensures var x := Apply(c, Read(arrival, key, io));
            var reset := FailureOf(io.send).value;
            && x.queued == []
            && x.report == Failed(if reset && IsClose(FrontFrame(c).value) then ConnectionClosed else Io(reset))
  {
    hide DecodeOnce, Take, Answer, Verdict, ValidPartial, FailureOf, SizedCore;
    var d := DecodeOnce(c.decoder, c.readBuffer);
    var f := d.out.frame;
    FrameVerdict(c.core, f);
    var (core, r) := Take(c.core, f);
    TakeOfControl(c.core, f);
    AnswerLoss(c.(decoder := d.after, readBuffer := d.rest, core := core), r.value, key, io);
  }

  lemma TakeOfControl(c: Core, f: Frame)
    requires ValidCore(c) && SizedCore(c) && c.state.Active? && Verdict(c, f).None? && |f.payload| <= USIZE_MAX
    requires f.header.opcode == ControlOp(Ping) || f.header.opcode == ControlOp(Close)
    ensures var (after, r) := Take(c, f);
            && r.Ok? && r.value.reply.Some?
            && after.state == if IsClose(f) then ClosedByPeer else Active
  {
    hide Utf8.WellFormed, IntoClose, Sanitised, ClosePayload, CloseVerdict, BodyVerdict;
    ClosePayloadVerdict(f.payload);
    CloseVerdictIs(f.payload);
  }

  lemma CloseVerdictIs(p: bytes)
    ensures CloseVerdict(p).None? <==> IntoClose(p).Ok?
  {
    hide Utf8.WellFormed;
    ClosePayloadVerdict(p);
  }

  lemma AnswerLoss(c: Conn, h: Handled, key: MaskKey, io: Outcomes)
    requires h.reply.Some? && |c.writeBuffer| > c.writeLimit && FailureOf(io.send).Some?
    ensures var x := Answer(c, h, key, io);
            x.report == Failed(LossSays(c.core.state, FailureOf(io.send).value)) && x.queued == []
  {
    hide EncodeFrame;
  }

  // ---- replies ----

  /** A message that is answered is handed over only with the answer, and everything before it, on the wire. */
  lemma RepliesAreFlushed(c: Conn, arrival: Arrival, key: MaskKey, io: Outcomes)
    requires ConnInv(c)
    ensures var x := Apply(c, Read(arrival, key, io));
            x.report.Delivered? && x.queued != [] ==>
              x.after.writeBuffer == [] && x.emitted == c.writeBuffer + EncodeFrame(x.queued[0])
  {
    hide DecodeOnce, Take, Answer, ValidPartial, EncodeFrame;
    var d := DecodeOnce(c.decoder, c.readBuffer);
    if d.out.Item? {
      var (core, r) := Take(c.core, d.out.frame);
      if r.Ok? {
        AnswerFlushes(c.(decoder := d.after, readBuffer := d.rest, core := core), r.value, key, io);
      }
    }
  }

  lemma AnswerFlushes(c: Conn, h: Handled, key: MaskKey, io: Outcomes)
    ensures var x := Answer(c, h, key, io);
            x.report.Delivered? && x.queued != [] ==>
              x.after.writeBuffer == [] && x.emitted == c.writeBuffer + EncodeFrame(x.queued[0])
  {
    hide EncodeFrame, SendFrame, FlushBuffer;
    if h.reply.Some? {
      var f := OnQueue(c.core.role, h.reply.value, key);
      SendConserves(c.writeBuffer, c.writeLimit, f, io.send);
      var s := SendFrame(c.writeBuffer, c.writeLimit, f, io.send);
      FlushConserves(s.buffer, io.flush);
      assert s.emitted + s.buffer == c.writeBuffer + EncodeFrame(f) || s.error.Some?;
    }
  }

  /** The limits of a socket that is given none. */
  lemma DefaultLimits()
    ensures DEFAULT_CONFIG.writeBufferSize == 131072 && !DEFAULT_CONFIG.acceptUnmaskedFrames
    ensures DEFAULT_CONFIG.maxMessageSize == Some(67108864) && DEFAULT_CONFIG.maxFrameSize == Some(16777216)
  {
  }
}
