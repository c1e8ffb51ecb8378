/** Messages, close frames and messages under reassembly: src/protocol/message.rs and src/protocol/frame/frame.rs. */
module Message {
  import opened Prelude
  import opened Coding
  import opened Errors
  import opened Frame
  import Utf8
  import opened Collector

  /** Bytes known to be UTF-8; every constructor of the source's type of this name checks or guarantees it. */
  type Utf8Bytes = s: bytes | Utf8.WellFormed(s) witness []

  /** The octets of a string literal. */
  function AsciiText(s: string): (r: Utf8Bytes)
    requires forall i | 0 <= i < |s| :: s[i] <= '~'
    ensures |r| == |s|
  {
    var r := seq(|s|, i requires 0 <= i < |s| => ToByte(s[i] as int));
    AsciiOctets(s, r);
    Utf8.AsciiIsWellFormed(r);
    r
  }

  lemma AsciiAt(s: string)
    requires forall i | 0 <= i < |s| :: s[i] <= '~'
    ensures forall i | 0 <= i < |s| :: AsciiText(s)[i] == ToByte(s[i] as int)
  {
  }

  lemma AsciiOctets(s: string, r: bytes)
    requires |s| == |r| && forall i | 0 <= i < |s| :: s[i] <= '~' && r[i] == ToByte(s[i] as int)
    ensures forall i | 0 <= i < |r| :: r[i] <= 0x7F
  {
    forall i | 0 <= i < |r|
      ensures r[i] <= 0x7F
    {
      AsciiOctet(s[i] as int);
    }
  }

  lemma AsciiOctet(n: nat)
    requires n <= 0x7F
    ensures ToByte(n) <= 0x7F
  {
  }

  datatype CloseFrame = CloseFrame(code: CloseCode, reason: Utf8Bytes)

  datatype Message =
    | TextMessage(text: Utf8Bytes)
    | BinaryMessage(data: bytes)
    | PingMessage(data: bytes)
    | PongMessage(data: bytes)
    | CloseMessage(close: Option<CloseFrame>)
    | RawFrame(frame: Frame)

  // ---- frames for messages ----

  function PlainHeader(opcode: OpCode): FrameHeader {
    FrameHeader(true, false, false, false, opcode, None)
  }

  function DataFrame(data: bytes, kind: Data, isFinal: bool): Frame {
    Frame(PlainHeader(DataOp(kind)).(isFinal := isFinal), data)
  }

  function PingFrame(data: bytes): Frame {
    Frame(PlainHeader(ControlOp(Ping)), data)
  }

  function PongFrame(data: bytes): Frame {
    Frame(PlainHeader(ControlOp(Pong)), data)
  }

  function ClosePayload(close: Option<CloseFrame>): bytes {
    match close
    case Some(c) => ToBigEndian(CloseCodeToU16(c.code), 2) + c.reason
    case None => []
  }

  /** `Frame::close`. */
  function CloseFrameOf(close: Option<CloseFrame>): Frame {
    Frame(PlainHeader(ControlOp(Close)), ClosePayload(close))
  }

  /** `Frame::into_close` on the payload. */
  function IntoClose(payload: bytes): Result<Option<CloseFrame>, Error> {
    if |payload| == 0 then Ok(None)
    else if |payload| == 1 then Err(Protocol(InvalidCloseSequence))
    else if !Utf8.WellFormed(payload[2..]) then Err(Utf8Error)
    else
      CodeFits(payload[..2]);
      Ok(Some(CloseFrame(CloseCodeFromU16(FromBigEndian(payload[..2])), payload[2..])))
  }

  lemma CodeFits(s: bytes)
    requires |s| == 2
    ensures FromBigEndian(s) < U16_LIMIT
  {
    BigEndianBound(s);
    Pow256Values();
  }

  /** The close frame a peer reads when `close` is written. */
  function CloseOnTheWire(close: Option<CloseFrame>): Option<CloseFrame> {
    match close
    case Some(c) => Some(CloseFrame(OnTheWire(c.code), c.reason))
    case None => None
  }

  lemma CloseRoundTrip(close: Option<CloseFrame>)
    ensures IntoClose(ClosePayload(close)) == Ok(CloseOnTheWire(close))
  {
    hide Utf8.WellFormed, CloseCodeFromU16, CloseCodeToU16, ToBigEndian, FromBigEndian;
    if close.Some? {
      var n := CloseCodeToU16(close.value.code);
      var p := ClosePayload(close);
      Pow256Values();
      BigEndianRoundTrip(n, 2);
      assert p[..2] == ToBigEndian(n, 2) && p[2..] == close.value.reason;
    }
  }

  /** A close frame that came off the wire is not changed by crossing it again. */
  lemma ParsedCloseIsStable(payload: bytes)
    requires IntoClose(payload).Ok?
    ensures CloseOnTheWire(IntoClose(payload).value) == IntoClose(payload).value
  {
    hide Utf8.WellFormed, CloseCodeFromU16, CloseCodeToU16, FromBigEndian;
    if |payload| >= 2 {
      CodeFits(payload[..2]);
      OnTheWireIsStable(FromBigEndian(payload[..2]));
    }
  }

  /**
    * A Close payload is accepted exactly when it is empty or a code and well-formed text, and says the same when sent
    * back.
    */
  lemma ClosePayloadVerdict(payload: bytes)
    ensures IntoClose(payload).Ok? <==> payload == [] || (|payload| >= 2 && Utf8.WellFormed(payload[2..]))
    ensures IntoClose(payload).Ok? ==> ClosePayload(IntoClose(payload).value) == payload
    ensures IntoClose(payload).Err? ==>
              IntoClose(payload).error == if |payload| == 1 then Protocol(InvalidCloseSequence) else Utf8Error
  {
    hide Utf8.WellFormed, CloseCodeFromU16, CloseCodeToU16, ToBigEndian, FromBigEndian;
    if |payload| >= 2 {
      CodeFits(payload[..2]);
      OnTheWireIsStable(FromBigEndian(payload[..2]));
      BigEndianInverse(payload[..2]);
      assert payload == payload[..2] + payload[2..];
    }
  }

  // ---- reassembly ----

  datatype Partial = PartialText(text: Collected) | PartialBinary(data: bytes)

  function NewPartial(isText: bool): Partial {
    if isText then PartialText(EMPTY) else PartialBinary([])
  }

  /** Octets collected so far, without the saturation of the source's `len`. */
  function Total(p: Partial): nat {
    match p
    case PartialText(c) => c.Len()
    case PartialBinary(v) => |v|
  }

  function SaturatingAdd(a: nat, b: nat): nat {
    if a + b > USIZE_MAX then USIZE_MAX else a + b
  }

  /** `IncompleteMessage::len`. */
  function PartialLen(p: Partial): nat {
    match p
    case PartialText(c) => SaturatingAdd(|c.data|, |c.carry|)
    case PartialBinary(v) => |v|
  }

  function SizeLimit(limit: Option<nat>): nat {
    if limit.Some? then limit.value else USIZE_MAX
  }

  datatype Extended = Extended(after: Partial, error: Option<Error>)

  /** `IncompleteMessage::extend`. */
  function ExtendPartial(p: Partial, tail: bytes, limit: Option<nat>): Extended {
    var maxSize, mySize := SizeLimit(limit), PartialLen(p);
    if mySize > maxSize || |tail| > maxSize - mySize then
      Extended(p, Some(MessageTooLong(mySize + |tail|, maxSize)))
    else match p
      case PartialBinary(v) => Extended(PartialBinary(v + tail), None)
      case PartialText(c) =>
        var f := Feed(c, tail);
        Extended(PartialText(f.after), if f.ok then None else Some(Utf8Error))
  }

  predicate ValidPartial(p: Partial) {
    p.PartialText? ==> p.text.Valid()
  }

  /** `IncompleteMessage::complete`. */
  function CompletePartial(p: Partial): Result<Message, Error>
    requires ValidPartial(p)
  {
    match p
    case PartialBinary(v) => Ok(BinaryMessage(v))
    case PartialText(c) => if c.carry == [] then Ok(TextMessage(c.data)) else Err(Utf8Error)
  }

  /** A successful extension adds exactly the fragment, keeps within the limit in force, and cannot overflow. */
  lemma ExtendAccounting(p: Partial, tail: bytes, limit: Option<nat>)
    requires ValidPartial(p) && Total(p) <= USIZE_MAX && SizeLimit(limit) <= USIZE_MAX
    ensures var e := ExtendPartial(p, tail, limit);
            && ValidPartial(e.after) && Total(e.after) <= USIZE_MAX
            && PartialLen(p) == Total(p)
            && (Total(p) <= SizeLimit(limit) ==> Total(e.after) <= SizeLimit(limit))
            && (e.error.None? ==>
                  Total(e.after) == Total(p) + |tail| <= SizeLimit(limit) && PartialLen(e.after) == Total(e.after))
            && (e.error.Some? && e.error.value.MessageTooLong? <==> Total(p) + |tail| > SizeLimit(limit))
            && (e.error.Some? && e.error.value.MessageTooLong? ==>
                  e.after == p && e.error.value == MessageTooLong(Total(p) + |tail|, SizeLimit(limit)))
  {
    hide Utf8.WellFormed, Feed;
    if p.PartialText? {
      FeedKeepsValid(p.text, tail);
      FeedNeverGrowsMore(p.text, tail);
    }
  }

  /** A fragment and the limit in force when it arrives. */
  datatype Portion = Portion(data: bytes, limit: Option<nat>)

  /** Extends by one portion after the other, up to the first error. */
  function ExtendAll(p: Partial, portions: seq<Portion>): Extended
    decreases |portions|
  {
    if portions == [] then Extended(p, None)
    else
      var e := ExtendPartial(p, portions[0].data, portions[0].limit);
      if e.error.Some? then e else ExtendAll(e.after, portions[1..])
  }

  function TotalLength(portions: seq<Portion>): nat {
    if portions == [] then 0 else |portions[0].data| + TotalLength(portions[1..])
  }

  /**
    * However the limit is changed between fragments: without an error `len` is the sum of all their lengths and within
    * the last limit in force, and the size named in an error fits a word if all the fragments together do.
    */
  lemma {:induction false} ReassemblyAccounting(p: Partial, portions: seq<Portion>)
    requires ValidPartial(p) && Total(p) <= USIZE_MAX
    requires forall i | 0 <= i < |portions| :: SizeLimit(portions[i].limit) <= USIZE_MAX
    ensures var e := ExtendAll(p, portions);
            && ValidPartial(e.after) && PartialLen(e.after) == Total(e.after) <= USIZE_MAX
            && (e.error.None? ==> PartialLen(e.after) == Total(p) + TotalLength(portions))
            && (e.error.None? && portions != [] ==> PartialLen(e.after) <= SizeLimit(portions[|portions| - 1].limit))
            && (e.error.Some? && e.error.value.MessageTooLong? ==>
                  e.error.value.maxSize < e.error.value.size <= Total(p) + TotalLength(portions))
    decreases |portions|
  {
    hide ExtendPartial, ValidPartial, PartialLen, Total;
    ExtendAccounting(p, [], None);
    if portions != [] {
      var first := portions[0];
      ExtendAccounting(p, first.data, first.limit);
      var e := ExtendPartial(p, first.data, first.limit);
      ExtendAccounting(e.after, [], None);
      if e.error.None? {
        ReassemblyAccounting(e.after, portions[1..]);
      }
    }
  }

  lemma FeedNeverGrowsMore(c: Collected, input: bytes)
    ensures Feed(c, input).after.Len() <= c.Len() + |input|
    ensures Feed(c, input).ok ==> Feed(c, input).after.Len() == c.Len() + |input|
  {
    hide Utf8.ErrorLen, Utf8.ValidUpTo;
  }

  datatype Collecting = TextCollecting(t: StringCollector) | BinaryCollecting(v: bytes)

  class IncompleteMessage {
    var collector: Collecting

    ghost predicate Valid()
      reads this, Repr()
    {
      collector.TextCollecting? ==> collector.t.Valid()
    }

    ghost function Repr(): set<object>
      reads this, if collector.TextCollecting? then {collector.t} else {}
    {
      {this} + if collector.TextCollecting? then collector.t.Repr() else {}
    }

    function View(): Partial
      requires Valid()
      reads this, Repr()
    {
      match collector
      case TextCollecting(t) => PartialText(t.View())
      case BinaryCollecting(v) => PartialBinary(v)
    }

    constructor (isText: bool)
      ensures Valid() && fresh(Repr()) && View() == NewPartial(isText)
    {
      if isText {
        var t := new StringCollector();
        collector := TextCollecting(t);
      } else {
        collector := BinaryCollecting([]);
      }
    }

    method Len() returns (n: nat)
      requires Valid()
      ensures n == PartialLen(View())
    {
      match collector
      case TextCollecting(t) => n := SaturatingAdd(|t.data|, t.incomplete.bufferLen);
      case BinaryCollecting(v) => n := |v|;
    }

    method Extend(tail: bytes, limit: Option<nat>) returns (error: Option<Error>)
      requires Valid()
      modifies Repr()
      ensures Valid() && fresh(Repr() - old(Repr()))
      ensures Extended(View(), error) == ExtendPartial(old(View()), tail, limit)
    {
      hide Utf8.WellFormed, Feed, Utf8.IsPartial;
      var maxSize := SizeLimit(limit);
      var mySize := Len();
      if mySize > maxSize || |tail| > maxSize - mySize {
        return Some(MessageTooLong(mySize + |tail|, maxSize));
      }
      match collector {
        case BinaryCollecting(v) =>
          collector := BinaryCollecting(v + tail);
          error := None;
        case TextCollecting(t) =>
          var ok := t.Extend(tail);
          error := if ok then None else Some(Utf8Error);
      }
    }

    method Complete() returns (r: Result<Message, Error>)
      requires Valid()
      ensures r == CompletePartial(View())
    {
      match collector
      case BinaryCollecting(v) => r := Ok(BinaryMessage(v));
      case TextCollecting(t) => r := if t.incomplete.bufferLen == 0 then Ok(TextMessage(t.data)) else Err(Utf8Error);
    }
  }
}
