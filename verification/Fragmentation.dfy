/** Section 5.4 of RFC 6455: fragmentation, with control frames in between, is invisible to the application. */
module Fragmentation {
  import opened Prelude
  import opened Coding
  import opened Errors
  import opened Mask
  import opened Frame
  import Utf8
  import opened Collector
  import opened Message
  import opened Endpoint

  // ---- receiving a list of frames ----

  /** Messages handed over and frames sent in reply, up to the first error. */
  datatype Handling = Handling(after: Core, messages: seq<Message>, replies: seq<Frame>, error: Option<Error>)

  function TakeAll(c: Core, frames: seq<Frame>): Handling
    requires ValidCore(c) && !c.state.Terminated?
    decreases |frames|
  {
    if frames == [] then Handling(c, [], [], None)
    else
      HandleKeepsValid(c, frames[0]);
      var (after, r) := Take(c, frames[0]);
      match r
      case Err(e) => Handling(after, [], [], Some(e))
      case Ok(h) =>
        var rest := TakeAll(after, frames[1..]);
        rest.(messages := Listed(h.message) + rest.messages, replies := Listed(h.reply) + rest.replies)
  }

  // ---- fragmented messages ----

  /** What may stand between the first and the last frame of a message. */
  datatype Piece = Fragment(payload: bytes) | ControlPing(payload: bytes) | ControlPong(payload: bytes)

  predicate SmallControls(pieces: seq<Piece>) {
    forall i | 0 <= i < |pieces| :: !pieces[i].Fragment? ==> |pieces[i].payload| <= 125
  }

  function PieceFrame(p: Piece): Frame {
    match p
    case Fragment(b) => DataFrame(b, Continue, false)
    case ControlPing(b) => PingFrame(b)
    case ControlPong(b) => PongFrame(b)
  }

  function PieceFrames(pieces: seq<Piece>): seq<Frame> {
    if pieces == [] then [] else [PieceFrame(pieces[0])] + PieceFrames(pieces[1..])
  }

  function Kind(isText: bool): Data {
    if isText then Text else Binary
  }

  function Fragmented(isText: bool, first: bytes, pieces: seq<Piece>, last: bytes): seq<Frame> {
    [DataFrame(first, Kind(isText), false)] + (PieceFrames(pieces) + [DataFrame(last, Continue, true)])
  }

  /** The application data carried by the pieces. */
  function Data(pieces: seq<Piece>): bytes {
    if pieces == [] then []
    else (if pieces[0].Fragment? then pieces[0].payload else []) + Data(pieces[1..])
  }

  function Controls(pieces: seq<Piece>): seq<Message> {
    if pieces == [] then []
    else
      (match pieces[0]
       case Fragment(_) => []
       case ControlPing(b) => [PingMessage(b)]
       case ControlPong(b) => [PongMessage(b)]) + Controls(pieces[1..])
  }

  function Pongs(s: State, pieces: seq<Piece>): seq<Frame> {
    if pieces == [] then []
    else (if s.Active? && pieces[0].ControlPing? then [PongFrame(pieces[0].payload)] else []) + Pongs(s, pieces[1..])
  }

  // ---- the message under reassembly stands for the octets received so far ----

  predicate Holds(p: Partial, isText: bool, sofar: bytes) {
    if isText then p.PartialText? && p.text.Valid() && p.text.data + p.text.carry == sofar
    else p == PartialBinary(sofar)
  }

  /** When a message of these octets is accepted. */
  predicate Admissible(isText: bool, whole: bytes, limit: Option<nat>) {
    |whole| <= SizeLimit(limit) && (isText ==> Utf8.WellFormed(whole))
  }

  function MessageOf(isText: bool, whole: bytes): Message
    requires isText ==> Utf8.WellFormed(whole)
  {
    if isText then TextMessage(whole) else BinaryMessage(whole)
  }

  lemma ExtendHolds(p: Partial, isText: bool, sofar: bytes, tail: bytes, limit: Option<nat>, rest: bytes)
    requires Holds(p, isText, sofar) && |sofar| <= SizeLimit(limit) <= USIZE_MAX
    ensures var e := ExtendPartial(p, tail, limit);
            && (e.error.None? ==> Holds(e.after, isText, sofar + tail) && |sofar + tail| <= SizeLimit(limit))
            && (Admissible(isText, sofar + tail + rest, limit) ==> e.error.None?)
  {
    hide Utf8.WellFormed, Utf8.IsPartial, Feed;
    if isText {
      FeedKeepsValid(p.text, tail);
      if Utf8.WellFormed(sofar + tail + rest) {
        FeedAcceptsPrefix(p.text, tail, rest);
      }
    }
  }

  lemma CompleteHolds(p: Partial, isText: bool, whole: bytes)
    requires Holds(p, isText, whole) && ValidPartial(p)
    ensures CompletePartial(p).Ok? <==> (isText ==> Utf8.WellFormed(whole))
    ensures CompletePartial(p).Ok? ==> CompletePartial(p).value == MessageOf(isText, whole)
  {
    hide Utf8.WellFormed, Utf8.IsPartial;
    if isText {
      var c := p.text;
      Utf8.WellFormedConcat(c.data, c.carry);
      if c.carry != [] {
        Utf8.PartialIsNotWellFormed(c.carry);
      } else {
        assert c.data + c.carry == c.data;
      }
    }
  }

  /** A reassembling endpoint that can still read. */
  predicate Assembling(c: Core, isText: bool, sofar: bytes) {
    && ValidCore(c) && CanRead(c.state)
    && c.incomplete.Some? && Holds(c.incomplete.value, isText, sofar)
    && |sofar| <= SizeLimit(c.maxMessageSize) <= USIZE_MAX
  }

  lemma TakeLast(c: Core, isText: bool, sofar: bytes, last: bytes)
    requires Assembling(c, isText, sofar)
    ensures var (after, r) := Take(c, DataFrame(last, Continue, true));
            var whole := sofar + last;
            && (r.Ok? <==> Admissible(isText, whole, c.maxMessageSize))
            && (r.Ok? ==> after == c.(incomplete := None) && r == Ok(Handled(Some(MessageOf(isText, whole)), None)))
  {
    hide Utf8.WellFormed, ExtendPartial, CompletePartial, Holds, ValidPartial;
    var p := c.incomplete.value;
    var e := ExtendPartial(p, last, c.maxMessageSize);
    ExtendHolds(p, isText, sofar, last, c.maxMessageSize, []);
    assert sofar + last + [] == sofar + last;
    ExtendKeepsValid(p, last, c.maxMessageSize);
    if e.error.None? {
      CompleteHolds(e.after, isText, sofar + last);
    }
  }

  lemma TakeFragment(c: Core, isText: bool, sofar: bytes, payload: bytes, rest: bytes)
    requires Assembling(c, isText, sofar)
    ensures var (after, r) := Take(c, DataFrame(payload, Continue, false));
            && (r.Ok? ==> r.value == Handled(None, None) && Assembling(after, isText, sofar + payload) &&
                          after == c.(incomplete := after.incomplete))
            && (Admissible(isText, sofar + payload + rest, c.maxMessageSize) ==> r.Ok?)
  {
    hide Utf8.WellFormed, ExtendPartial, Holds, ValidPartial;
    ExtendHolds(c.incomplete.value, isText, sofar, payload, c.maxMessageSize, rest);
    ExtendKeepsValid(c.incomplete.value, payload, c.maxMessageSize);
  }

  lemma TakeControl(c: Core, p: Piece)
    requires ValidCore(c) && CanRead(c.state) && !p.Fragment? && |p.payload| <= 125
    ensures Take(c, PieceFrame(p)) ==
            (c, Ok(Handled(Some(if p.ControlPing? then PingMessage(p.payload) else PongMessage(p.payload)),
                           if c.state.Active? && p.ControlPing? then Some(PongFrame(p.payload)) else None)))
  {
    hide ValidPartial, IntoClose;
  }

  lemma TakeAllStep(c: Core, f: Frame, rest: seq<Frame>)
    requires ValidCore(c) && !c.state.Terminated?
    ensures var (after, r) := Take(c, f);
            && ValidCore(after) && !after.state.Terminated?
            && TakeAll(c, [f] + rest) ==
               match r
               case Err(e) => Handling(after, [], [], Some(e))
               case Ok(h) =>
                 var t := TakeAll(after, rest);
                 t.(messages := Listed(h.message) + t.messages, replies := Listed(h.reply) + t.replies)
  {
    hide HandleFrame, ValidCore;
    HandleKeepsValid(c, f);
    assert ([f] + rest)[1..] == rest;
  }

  lemma TakeAllSilent(c: Core, f: Frame, rest: seq<Frame>)
    requires ValidCore(c) && !c.state.Terminated? && Take(c, f).1 == Ok(Handled(None, None))
    ensures var after := Take(c, f).0;
            ValidCore(after) && !after.state.Terminated? && TakeAll(c, [f] + rest) == TakeAll(after, rest)
  {
    hide Take, TakeAll, ValidCore;
    TakeAllStep(c, f, rest);
    var t := TakeAll(Take(c, f).0, rest);
    assert [] + t.messages == t.messages && [] + t.replies == t.replies;
  }

  /** A message of the octets `whole`, accepted or not, with these control messages and replies before it. */
  predicate Gives(r: Handling, c: Core, isText: bool, whole: bytes, controls: seq<Message>, pongs: seq<Frame>) {
    && (r.error.None? <==> Admissible(isText, whole, c.maxMessageSize))
    && (r.error.None? ==>
          && r.after == c.(incomplete := None)
          && r.messages == controls + [MessageOf(isText, whole)] && r.replies == pongs)
    && (r.error.Some? ==> r.messages <= controls)
  }

  /** What becomes of the rest of a message, from any point of its reassembly on. */
  predicate TakesRest(c: Core, isText: bool, sofar: bytes, pieces: seq<Piece>, last: bytes)
    requires ValidCore(c) && !c.state.Terminated?
  {
    Gives(TakeAll(c, PieceFrames(pieces) + [DataFrame(last, Continue, true)]), c, isText,
          sofar + (Data(pieces) + last), Controls(pieces), Pongs(c.state, pieces))
  }

  lemma TakesLast(c: Core, isText: bool, sofar: bytes, last: bytes)
    requires Assembling(c, isText, sofar)
    ensures TakesRest(c, isText, sofar, [], last)
  {
    hide Take, TakeAll, Admissible, Holds, ValidPartial;
    var final := DataFrame(last, Continue, true);
    TakeLast(c, isText, sofar, last);
    assert PieceFrames([]) + [final] == [final] + [];
    TakeAllStep(c, final, []);
    TakeNothing(c.(incomplete := None));
    assert sofar + (Data([]) + last) == sofar + last;
  }

  lemma FramesStep(pieces: seq<Piece>, final: Frame)
    requires pieces != []
    ensures PieceFrames(pieces) + [final] == [PieceFrame(pieces[0])] + (PieceFrames(pieces[1..]) + [final])
  {
    hide PieceFrame;
  }

  lemma WholeStep(sofar: bytes, payload: bytes, more: bytes, last: bytes)
    ensures sofar + ((payload + more) + last) == sofar + payload + (more + last)
  {
  }

  lemma TakesControl(c: Core, isText: bool, sofar: bytes, pieces: seq<Piece>, last: bytes)
    requires Assembling(c, isText, sofar) && pieces != [] && !pieces[0].Fragment? && |pieces[0].payload| <= 125
    requires TakesRest(c, isText, sofar, pieces[1..], last)
    ensures TakesRest(c, isText, sofar, pieces, last)
  {
    hide Take, TakeAll, Admissible, Holds, ValidPartial, DataFrame, PieceFrames, PieceFrame, PongFrame;
    var p, final := pieces[0], DataFrame(last, Continue, true);
    FramesStep(pieces, final);
    TakeAllStep(c, PieceFrame(p), PieceFrames(pieces[1..]) + [final]);
    TakeControl(c, p);
    assert Data(pieces) == Data(pieces[1..]);
  }

  lemma TakesFragment(c: Core, isText: bool, sofar: bytes, pieces: seq<Piece>, last: bytes)
    requires Assembling(c, isText, sofar) && pieces != [] && pieces[0].Fragment?
    ensures var p := pieces[0];
            var (after, r) := Take(c, PieceFrame(p));
            && (r.Ok? ==> Assembling(after, isText, sofar + p.payload))
            && (r.Ok? && TakesRest(after, isText, sofar + p.payload, pieces[1..], last) ==>
                  TakesRest(c, isText, sofar, pieces, last))
            && (r.Err? ==> TakesRest(c, isText, sofar, pieces, last))
  {
    hide Take, TakeAll, Gives, Holds, ValidPartial, DataFrame, PieceFrames, PieceFrame, Data, Controls, Pongs,
      Admissible;
    var p, final := pieces[0], DataFrame(last, Continue, true);
    var rest, whole := PieceFrames(pieces[1..]) + [final], sofar + p.payload + (Data(pieces[1..]) + last);
    var (after, r) := Take(c, PieceFrame(p));
    FragmentFrame(p);
    TakeFragment(c, isText, sofar, p.payload, Data(pieces[1..]) + last);
    FragmentParts(c.state, pieces);
    FramesStep(pieces, final);
    WholeStep(sofar, p.payload, Data(pieces[1..]), last);
    if r.Ok? {
      TakeAllSilent(c, PieceFrame(p), rest);
      GivesForgets(TakeAll(after, rest), c, after, isText, whole, Controls(pieces), Pongs(c.state, pieces));
    } else {
      TakeAllStep(c, PieceFrame(p), rest);
      GivesNothing(after, r.error, c, isText, whole, Controls(pieces), Pongs(c.state, pieces));
    }
  }

  lemma FragmentFrame(p: Piece)
    requires p.Fragment?
    ensures PieceFrame(p) == DataFrame(p.payload, Continue, false)
  {
  }

  lemma FragmentParts(s: State, pieces: seq<Piece>)
    requires pieces != [] && pieces[0].Fragment?
    ensures Data(pieces) == pieces[0].payload + Data(pieces[1..])
    ensures Controls(pieces) == Controls(pieces[1..]) && Pongs(s, pieces) == Pongs(s, pieces[1..])
  {
  }

  lemma GivesForgets(
      r: Handling, c: Core, d: Core, isText: bool, whole: bytes, controls: seq<Message>, pongs: seq<Frame>)
    requires d == c.(incomplete := d.incomplete)
    ensures Gives(r, c, isText, whole, controls, pongs) == Gives(r, d, isText, whole, controls, pongs)
  {
    hide Admissible;
  }

  lemma GivesNothing(
      after: Core, e: Error, c: Core, isText: bool, whole: bytes, controls: seq<Message>, pongs: seq<Frame>)
    requires !Admissible(isText, whole, c.maxMessageSize)
    ensures Gives(Handling(after, [], [], Some(e)), c, isText, whole, controls, pongs)
  {
    hide Admissible;
  }

  lemma {:induction false} TakePieces(c: Core, isText: bool, sofar: bytes, pieces: seq<Piece>, last: bytes)
    requires Assembling(c, isText, sofar) && SmallControls(pieces)
    ensures TakesRest(c, isText, sofar, pieces, last)
    decreases |pieces|
  {
    hide Take, TakesRest, Holds, ValidPartial, PieceFrame;
    if pieces == [] {
      TakesLast(c, isText, sofar, last);
    } else if pieces[0].Fragment? {
      TakesFragment(c, isText, sofar, pieces, last);
      var (after, r) := Take(c, PieceFrame(pieces[0]));
      if r.Ok? {
        TakePieces(after, isText, sofar + pieces[0].payload, pieces[1..], last);
      }
    } else {
      TakePieces(c, isText, sofar, pieces[1..], last);
      TakesControl(c, isText, sofar, pieces, last);
    }
  }

  lemma TakeNothing(c: Core)
    ensures ValidCore(c) && !c.state.Terminated? ==> TakeAll(c, []) == Handling(c, [], [], None)
  {
  }

  lemma TakeFirst(c: Core, isText: bool, first: bytes, rest: bytes)
    requires ValidCore(c) && CanRead(c.state) && c.incomplete.None? && SizeLimit(c.maxMessageSize) <= USIZE_MAX
    ensures var (after, r) := Take(c, DataFrame(first, Kind(isText), false));
            && (r.Ok? ==> r.value == Handled(None, None) && Assembling(after, isText, first) &&
                          after == c.(incomplete := after.incomplete))
            && (Admissible(isText, first + rest, c.maxMessageSize) ==> r.Ok?)
  {
    hide Utf8.WellFormed, ExtendPartial, Holds, ValidPartial;
    assert Holds(NewPartial(isText), isText, []) by { NewHolds(isText); }
    NewPartialIsValid(isText);
    assert [] + first == first;
    ExtendHolds(NewPartial(isText), isText, [], first, c.maxMessageSize, rest);
    ExtendKeepsValid(NewPartial(isText), first, c.maxMessageSize);
  }

  lemma NewHolds(isText: bool)
    ensures Holds(NewPartial(isText), isText, [])
  {
  }

  lemma TakeWhole(c: Core, isText: bool, whole: bytes)
    requires ValidCore(c) && CanRead(c.state) && c.incomplete.None?
    requires SizeLimit(c.maxMessageSize) <= USIZE_MAX && |whole| <= USIZE_MAX
    ensures var (after, r) := Take(c, DataFrame(whole, Kind(isText), true));
            && (r.Ok? <==> Admissible(isText, whole, c.maxMessageSize))
            && (r.Ok? ==> after == c && r.value == Handled(Some(MessageOf(isText, whole)), None))
  {
    hide Utf8.WellFormed;
  }

  /**
    * A fragmented message is accepted exactly when the same octets in one frame are, and then leads to the same
    * message and the same state; the control messages in between come out first, in order, answered as usual. A
    * rejected one never yields a data message.
    */
  lemma FragmentationIsTransparent(c: Core, isText: bool, first: bytes, pieces: seq<Piece>, last: bytes)
    requires ValidCore(c) && CanRead(c.state) && c.incomplete.None? && SmallControls(pieces)
    requires SizeLimit(c.maxMessageSize) <= USIZE_MAX && |first + (Data(pieces) + last)| <= USIZE_MAX
    ensures var r := TakeAll(c, Fragmented(isText, first, pieces, last));
            var (after, single) := Take(c, DataFrame(first + (Data(pieces) + last), Kind(isText), true));
            && (r.error.None? <==> single.Ok?)
            && (r.error.None? ==>
                  && r.after == after && single.value.message.Some?
                  && r.messages == Controls(pieces) + [single.value.message.value]
                  && r.replies == Pongs(c.state, pieces))
            && (r.error.Some? ==> r.messages <= Controls(pieces))
  {
    hide Take, Admissible, Holds, ValidPartial, PieceFrames;
    var frames := Fragmented(isText, first, pieces, last);
    var rest := Data(pieces) + last;
    TakeWhole(c, isText, first + rest);
    TakeFirst(c, isText, first, rest);
    assert frames[0] == DataFrame(first, Kind(isText), false);
    assert frames[1..] == PieceFrames(pieces) + [DataFrame(last, Continue, true)];
    var (after, r) := Take(c, frames[0]);
    if r.Ok? {
      TakePieces(after, isText, first, pieces, last);
    }
  }

  /** Ping, Pong and Close sizes are not checked when written: exactly those of at most 125 octets are accepted. */
  lemma ControlAcceptedIffSmall(c: Core, f: Frame, close: Option<CloseFrame>)
    requires ValidCore(c) && CanRead(c.state)
    requires f == PingFrame(f.payload) || f == PongFrame(f.payload) || f == CloseFrameOf(close)
    ensures Take(c, f).1.Ok? <==> |f.payload| <= 125
    ensures Take(c, f).1.Err? ==> Take(c, f) == (c, Err(Protocol(ControlFrameTooBig)))
  {
    hide IntoClose, OnTheWire, ClosePayload, Sanitised, ValidPartial;
    CloseRoundTrip(close);
  }

  /** An oversized Ping is queued without complaint and refused by its receiver. */
  lemma OversizedPing(sender: Conn, receiver: Core, key: MaskKey, data: bytes)
    requires sender.core.state.Active? && ValidCore(receiver) && CanRead(receiver.state)
    requires data == seq(126, i => 0)
    ensures |UserWrite(sender, PingMessage(data), key, SMOOTH).queued| == 1
    ensures Take(receiver, PingFrame(data)).1 == Err(Protocol(ControlFrameTooBig))
  {
    hide EncodeFrame, ValidPartial, IntoClose;
    ControlAcceptedIffSmall(receiver, PingFrame(data), None);
  }

  /** No message that starts with these octets can be accepted: they are too many, or hopeless as text. */
  ghost predicate Hopeless(isText: bool, sofar: bytes, limit: Option<nat>) {
    |sofar| > SizeLimit(limit) || (isText && forall rest: bytes :: !Utf8.WellFormed(sofar + rest))
  }

  lemma ExtendFailsIffHopeless(p: Partial, isText: bool, sofar: bytes, tail: bytes, limit: Option<nat>)
    requires Holds(p, isText, sofar) && |sofar| <= SizeLimit(limit) <= USIZE_MAX
    ensures ExtendPartial(p, tail, limit).error.Some? <==> Hopeless(isText, sofar + tail, limit)
  {
    hide Utf8.WellFormed, Utf8.IsPartial, Feed;
    ExtendAccounting(p, tail, limit);
    if isText {
      RejectedIffHopeless(p.text, tail);
    }
  }

  /**
    * A continuation is refused exactly when the octets so far are hopeless, or when it is final and they are not
    * text. In the first case, and only then, the message stays under reassembly, so that every new text or binary
    * frame is refused as well.
    */
  lemma RejectedContinuation(c: Core, isText: bool, sofar: bytes, f: Frame)
    requires Assembling(c, isText, sofar) && f.header.opcode == DataOp(Continue) && Refusal(c, f).None?
    ensures var (after, r) := Take(c, f);
            var all := sofar + f.payload;
            var hopeless := Hopeless(isText, all, c.maxMessageSize);
            && (r.Err? <==> hopeless || (f.header.isFinal && isText && !Utf8.WellFormed(all)))
            && (r.Err? ==> (after.incomplete.Some? <==> hopeless))
            && (hopeless ==> forall g: Frame, k: bool ::
                  Refusal(after, g).None? && g.header.opcode == DataOp(Kind(k)) ==>
                  ValidCore(after) && Take(after, g).1 == Err(Protocol(ExpectedFragment(Kind(k)))))
  {
    hide Utf8.WellFormed, ExtendPartial, CompletePartial, Holds, ValidPartial, Refusal, Hopeless;
    var p, limit := c.incomplete.value, c.maxMessageSize;
    var e := ExtendPartial(p, f.payload, limit);
    ExtendFailsIffHopeless(p, isText, sofar, f.payload, limit);
    ExtendHolds(p, isText, sofar, f.payload, limit, []);
    ExtendKeepsValid(p, f.payload, limit);
    if e.error.None? {
      CompleteHolds(e.after, isText, sofar + f.payload);
    }
  }

  /** One octet too many: with a limit of zero the message stays open after its only, final, continuation is refused. */
  lemma StuckAfterRejection(c: Core)
    requires c == Core(Server, Active, Some(PartialBinary([])), Some(0))
    ensures var (after, r) := Take(c, DataFrame([0], Continue, true)); r.Err? && after == c
  {
  }
}
