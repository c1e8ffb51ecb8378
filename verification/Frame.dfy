/** Frames and their headers: src/protocol/frame/frame.rs and sections 5.2 and 5.3 of RFC 6455. */
module Frame {
  import opened Prelude
  import opened Coding
  import opened Errors
  import opened Mask

  datatype FrameHeader = FrameHeader(
    isFinal: bool, rsv1: bool, rsv2: bool, rsv3: bool, opcode: OpCode, mask: Option<MaskKey>)

  datatype Frame = Frame(header: FrameHeader, payload: bytes)

  const MAX_HEADER_SIZE: nat := 14

  datatype LengthFormat = U8(length: byte) | U16 | U64

  function ForLength(length: nat): LengthFormat {
    if length < 126 then U8(ToByte(length)) else if length < U16_LIMIT then U16 else U64
  }

  function ExtraBytes(f: LengthFormat): (n: nat)
    ensures n <= 8
  {
    match f
    case U8(_) => 0
    case U16 => 2
    case U64 => 8
  }

  function LengthByte(f: LengthFormat): byte {
    match f
    case U8(b) => b
    case U16 => 126
    case U64 => 127
  }

  function ForByte(b: byte): LengthFormat {
    var low := Low7(b);
    if low == 126 then U16 else if low == 127 then U64 else U8(low)
  }

  // ---- bits of the first two octets ----

  predicate Bit7(b: byte) { b & 0x80 != 0 }

  predicate Bit6(b: byte) { b & 0x40 != 0 }

  predicate Bit5(b: byte) { b & 0x20 != 0 }

  predicate Bit4(b: byte) { b & 0x10 != 0 }

  function Low4(b: byte): (r: byte)
    ensures r <= 15
  {
    b & 0x0F
  }

  function Low7(b: byte): (r: byte)
    ensures r <= 127
  {
    b & 0x7F
  }

  function PackFirst(code: byte, isFinal: bool, rsv1: bool, rsv2: bool, rsv3: bool): byte {
    code | (if isFinal then 0x80 else 0) | (if rsv1 then 0x40 else 0)
         | (if rsv2 then 0x20 else 0) | (if rsv3 then 0x10 else 0)
  }

  function PackSecond(lengthByte: byte, masked: bool): byte {
    lengthByte | (if masked then 0x80 else 0)
  }

  lemma UnpackFirst(code: byte, isFinal: bool, rsv1: bool, rsv2: bool, rsv3: bool)
    requires code <= 15
    ensures var b := PackFirst(code, isFinal, rsv1, rsv2, rsv3);
            Low4(b) == code && Bit7(b) == isFinal && Bit6(b) == rsv1 && Bit5(b) == rsv2 && Bit4(b) == rsv3
  {
  }

  lemma UnpackSecond(lengthByte: byte, masked: bool)
    requires lengthByte <= 127
    ensures var b := PackSecond(lengthByte, masked); Low7(b) == lengthByte && Bit7(b) == masked
  {
  }

  // ---- formatting ----

  /** `FrameHeader::len`. */
  function HeaderLen(h: FrameHeader, length: nat): nat {
    2 + ExtraBytes(ForLength(length)) + if h.mask.Some? then 4 else 0
  }

  function LengthExtension(length: nat): (s: bytes)
    ensures |s| == ExtraBytes(ForLength(length))
  {
    match ForLength(length)
    case U8(_) => []
    case U16 => ToBigEndian(length % U16_LIMIT, 2)
    case U64 => ToBigEndian(length, 8)
  }

  function FirstByte(h: FrameHeader): byte {
    PackFirst(OpCodeToByte(h.opcode), h.isFinal, h.rsv1, h.rsv2, h.rsv3)
  }

  function SecondByte(h: FrameHeader, length: nat): byte {
    PackSecond(LengthByte(ForLength(length)), h.mask.Some?)
  }

  function MaskBytes(h: FrameHeader): bytes {
    if h.mask.Some? then h.mask.value else []
  }

  function EncodeHeader(h: FrameHeader, length: nat): (s: bytes)
    ensures |s| == HeaderLen(h, length)
  {
    [FirstByte(h), SecondByte(h, length)] + LengthExtension(length) + MaskBytes(h)
  }

  function MaskedPayload(f: Frame): (s: bytes)
    ensures |s| == |f.payload|
  {
    if f.header.mask.Some? then Masked(f.payload, f.header.mask.value) else f.payload
  }

  /** The octets of a frame on the wire. */
  function EncodeFrame(f: Frame): (s: bytes)
    ensures |s| == FrameLen(f)
  {
    EncodeHeader(f.header, |f.payload|) + MaskedPayload(f)
  }

  /** `Frame::len`. */
  function FrameLen(f: Frame): nat {
    HeaderLen(f.header, |f.payload|) + |f.payload|
  }

  function EncodeAll(frames: seq<Frame>): bytes {
    if frames == [] then [] else EncodeFrame(frames[0]) + EncodeAll(frames[1..])
  }

  // ---- parsing ----

  datatype Parsed =
    | NeedMore
    | BadOpcode(code: byte, used: nat)
    | Header(header: FrameHeader, length: nat, used: nat)

  /** Octets of the length field plus the mask announced by the second octet. */
  function Announced(second: byte): (n: nat)
    ensures n <= 12
  {
    ExtraBytes(ForByte(second)) + if Bit7(second) then 4 else 0
  }

  function ParseLength(s: bytes): nat
    requires |s| >= 2 && |s| >= 2 + ExtraBytes(ForByte(s[1]))
  {
    var n := ExtraBytes(ForByte(s[1]));
    if n > 0 then FromBigEndian(s[2..2 + n]) else ToInt(Low7(s[1]))
  }

  function ParseMask(s: bytes): Option<MaskKey>
    requires |s| >= 2 && |s| >= 2 + Announced(s[1])
  {
    var at := 2 + ExtraBytes(ForByte(s[1]));
    if Bit7(s[1]) then Some(s[at..at + 4]) else None
  }

  /** What a complete header at the start of `s` says; octets after the header play no part. */
  function ParseHeader(s: bytes): Parsed {
    if |s| < 2 || |s| < 2 + Announced(s[1]) then NeedMore
    else
      var op := OpCodeFromByte(Low4(s[0]));
      var used := 2 + Announced(s[1]);
      if IsReserved(op) then BadOpcode(Low4(s[0]), used)
      else Header(FrameHeader(Bit7(s[0]), Bit6(s[0]), Bit5(s[0]), Bit4(s[0]), op, ParseMask(s)), ParseLength(s), used)
  }

  lemma ParseBounds(s: bytes)
    ensures !ParseHeader(s).NeedMore? ==> 2 <= ParseHeader(s).used <= MAX_HEADER_SIZE && ParseHeader(s).used <= |s|
  {
    hide Bit7, Bit6, Bit5, Bit4, Low4, Low7, FromBigEndian, OpCodeFromByte, ForByte;
  }

  lemma SliceOfPrefix(s: bytes, n: nat, i: nat, j: nat)
    requires i <= j <= n <= |s|
    ensures s[i..j] == s[..n][i..j]
  {
  }

  /** Two inputs that agree on the whole of a header parse alike. */
  lemma ParseOfSamePrefix(s: bytes, u: bytes, n: nat)
    requires 2 <= n <= |s| && n <= |u| && s[..n] == u[..n] && n == 2 + Announced(s[1])
    ensures ParseHeader(u) == ParseHeader(s)
  {
    hide Bit7, Bit6, Bit5, Bit4, Low4, Low7, FromBigEndian, OpCodeFromByte, ForByte;
    var e := ExtraBytes(ForByte(s[1]));
    assert s[0] == s[..n][0] && s[1] == s[..n][1] && u[0] == u[..n][0] && u[1] == u[..n][1];
    SliceOfPrefix(s, n, 2, 2 + e);
    SliceOfPrefix(u, n, 2, 2 + e);
    if Bit7(s[1]) {
      SliceOfPrefix(s, n, 2 + e, 2 + e + 4);
      SliceOfPrefix(u, n, 2 + e, 2 + e + 4);
    }
  }

  /** A strict prefix of a complete header is not enough, and octets after it change nothing. */
  lemma ParseIsPrefixStable(s: bytes)
    requires !ParseHeader(s).NeedMore?
    ensures ParseHeader(s).used <= MAX_HEADER_SIZE && ParseHeader(s).used <= |s|
    ensures forall k | 0 <= k < ParseHeader(s).used :: ParseHeader(s[..k]).NeedMore?
    ensures forall t: bytes :: ParseHeader(s[..ParseHeader(s).used] + t) == ParseHeader(s)
  {
    hide Bit7, Bit6, Bit5, Bit4, Low4, Low7, FromBigEndian, OpCodeFromByte, ForByte;
    var n := ParseHeader(s).used;
    forall t: bytes
      ensures ParseHeader(s[..n] + t) == ParseHeader(s)
    {
      var u := s[..n] + t;
      assert u[..n] == s[..n];
      ParseOfSamePrefix(s, u, n);
    }
  }

  /** More input never changes a header that has been recognised. */
  lemma ParseExtends(s: bytes, t: bytes)
    requires !ParseHeader(s).NeedMore?
    ensures ParseHeader(s + t) == ParseHeader(s)
  {
    hide ParseHeader;
    var n := ParseHeader(s).used;
    ParseIsPrefixStable(s);
    assert s + t == s[..n] + (s[n..] + t);
  }

  lemma OpCodeRoundTrip(op: OpCode)
    requires !IsReserved(op)
    ensures OpCodeToByte(op) <= 10 && OpCodeFromByte(OpCodeToByte(op)) == op
  {
  }

  lemma LengthByteRoundTrip(length: nat, masked: bool)
    ensures var b := PackSecond(LengthByte(ForLength(length)), masked);
            ForByte(b) == ForLength(length) && Bit7(b) == masked
    ensures length < 126 ==> ToInt(Low7(PackSecond(LengthByte(ForLength(length)), masked))) == length
  {
    hide Bit7, Low7, PackSecond;
    if length < 126 {
      ShortLength(length);
    }
    UnpackSecond(LengthByte(ForLength(length)), masked);
  }

  lemma ShortLength(length: nat)
    requires length < 126
    ensures ToByte(length) < 126 && ToInt(ToByte(length)) == length
  {
    ByteRoundTrip(length);
  }

  lemma LengthRoundTrip(length: nat)
    requires 126 <= length < U64_LIMIT
    ensures FromBigEndian(LengthExtension(length)) == length
  {
    hide FromBigEndian, ToBigEndian, Pow256;
    Pow256Values();
    if length < U16_LIMIT {
      BigEndianRoundTrip(length, 2);
    } else {
      BigEndianRoundTrip(length, 8);
    }
  }

  lemma EncodedLayout(h: FrameHeader, length: nat, rest: bytes)
    ensures var s := EncodeHeader(h, length) + rest;
            var e := ExtraBytes(ForLength(length));
            && |s| >= HeaderLen(h, length)
            && s[0] == FirstByte(h) && s[1] == SecondByte(h, length)
            && s[2..2 + e] == LengthExtension(length)
            && (h.mask.Some? ==> s[2 + e..2 + e + 4] == h.mask.value)
  {
    hide FirstByte, SecondByte, ForLength, LengthExtension;
    var front := [FirstByte(h), SecondByte(h, length)];
    FourParts(front, LengthExtension(length), MaskBytes(h), rest);
  }

  /** Where the parts of a concatenation are. */
  lemma FourParts(a: bytes, b: bytes, c: bytes, d: bytes)
    requires |a| == 2
    ensures var s := a + b + c + d;
            && s[0] == a[0] && s[1] == a[1]
            && s[2..2 + |b|] == b && s[2 + |b|..2 + |b| + |c|] == c
  {
    assert (a + b)[2..2 + |b|] == b;
    assert (a + b + c)[2 + |b|..] == c;
  }

  lemma SecondByteRoundTrip(h: FrameHeader, length: nat)
    ensures var b := SecondByte(h, length);
            && ForByte(b) == ForLength(length) && Bit7(b) == h.mask.Some?
            && (length < 126 ==> ToInt(Low7(b)) == length)
            && 2 + Announced(b) == HeaderLen(h, length)
  {
    hide Bit7, Low7, PackSecond;
    LengthByteRoundTrip(length, h.mask.Some?);
  }

  lemma FirstByteRoundTrip(h: FrameHeader)
    requires !IsReserved(h.opcode)
    ensures var b := FirstByte(h);
            && OpCodeFromByte(Low4(b)) == h.opcode
            && Bit7(b) == h.isFinal && Bit6(b) == h.rsv1 && Bit5(b) == h.rsv2 && Bit4(b) == h.rsv3
  {
    hide Bit7, Bit6, Bit5, Bit4, Low4, PackFirst, OpCodeToByte, OpCodeFromByte;
    OpCodeRoundTrip(h.opcode);
    UnpackFirst(OpCodeToByte(h.opcode), h.isFinal, h.rsv1, h.rsv2, h.rsv3);
  }

  /** Parsing undoes formatting, in all three length formats, masked or not. */
  lemma ParseOfEncode(h: FrameHeader, length: nat, rest: bytes)
    requires !IsReserved(h.opcode) && length < U64_LIMIT
    ensures ParseHeader(EncodeHeader(h, length) + rest) == Header(h, length, HeaderLen(h, length))
  {
    hide FirstByte, SecondByte, LengthExtension, ForLength, ForByte, FromBigEndian, OpCodeFromByte, EncodeHeader,
      Bit7, Bit6, Bit5, Bit4, Low4, Low7;
    EncodedLayout(h, length, rest);
    FirstByteRoundTrip(h);
    SecondByteRoundTrip(h, length);
    ForLengthExtra(length);
    if length >= 126 {
      LengthRoundTrip(length);
    }
  }

  lemma ForLengthExtra(length: nat)
    ensures ExtraBytes(ForLength(length)) > 0 <==> length >= 126
  {
  }

  /** Whatever encoding of the length arrived, formatting the parsed header again is never longer. */
  lemma ParsedIsCanonicalisable(s: bytes)
    requires ParseHeader(s).Header?
    ensures var p := ParseHeader(s);
            && !IsReserved(p.header.opcode) && p.length < U64_LIMIT
            && HeaderLen(p.header, p.length) <= p.used
            && ParseHeader(EncodeHeader(p.header, p.length)) == p.(used := HeaderLen(p.header, p.length))
  {
    hide Bit7, Bit6, Bit5, Bit4, Low4, FromBigEndian, ToBigEndian, OpCodeToByte, OpCodeFromByte;
    var p := ParseHeader(s);
    var e := ExtraBytes(ForByte(s[1]));
    BigEndianBound(s[2..2 + e]);
    Pow256Values();
    assert p.length < U64_LIMIT && HeaderLen(p.header, p.length) <= p.used;
    ParseOfEncode(p.header, p.length, []);
    assert EncodeHeader(p.header, p.length) + [] == EncodeHeader(p.header, p.length);
  }

  lemma RepackFirst(b: byte)
    ensures PackFirst(Low4(b), Bit7(b), Bit6(b), Bit5(b), Bit4(b)) == b
  {
  }

  lemma RepackSecond(b: byte)
    ensures PackSecond(Low7(b), Bit7(b)) == b
  {
  }

  lemma OpCodeInverse(b: byte)
    requires b <= 15
    ensures OpCodeToByte(OpCodeFromByte(b)) == b
  {
  }

  /** A length field that is as short as it can be has the length byte formatting would choose. */
  lemma MinimalLengthByte(s: bytes)
    requires |s| >= 2 && |s| >= 2 + ExtraBytes(ForByte(s[1]))
    requires ExtraBytes(ForLength(ParseLength(s))) == ExtraBytes(ForByte(s[1]))
    ensures LengthByte(ForLength(ParseLength(s))) == Low7(s[1])
    ensures var e := ExtraBytes(ForByte(s[1])); LengthExtension(ParseLength(s)) == s[2..2 + e]
  {
    hide Low7, ToInt, ToByte, FromBigEndian, ToBigEndian;
    var e := ExtraBytes(ForByte(s[1]));
    BigEndianBound(s[2..2 + e]);
    BigEndianInverse(s[2..2 + e]);
    Pow256Values();
    ByteInverse(Low7(s[1]));
  }

  /**
    * Formatting a parsed header gives back the very octets that were read exactly when the length was written
    * minimally.
    */
  lemma ReformatsIffMinimal(s: bytes)
    requires ParseHeader(s).Header?
    ensures var p := ParseHeader(s);
            EncodeHeader(p.header, p.length) == s[..p.used] <==> HeaderLen(p.header, p.length) == p.used
  {
    hide ParseHeader, EncodeHeader, HeaderLen;
    var p := ParseHeader(s);
    ParseBounds(s);
    if HeaderLen(p.header, p.length) == p.used {
      MinimalParts(s);
      PartsOfHeader(p.header, p.length, s[..p.used]);
    }
  }

  /** A header written minimally consists of the parts formatting would write. */
  lemma MinimalParts(s: bytes)
    requires ParseHeader(s).Header? && HeaderLen(ParseHeader(s).header, ParseHeader(s).length) == ParseHeader(s).used
    ensures var p := ParseHeader(s);
            p.used <= |s| && HasParts(p.header, p.length, s[..p.used])
  {
    hide Bit7, Bit6, Bit5, Bit4, Low4, Low7, PackFirst, PackSecond, OpCodeToByte, OpCodeFromByte, ForLength, ForByte,
      LengthExtension, LengthByte, FromBigEndian;
    var p := ParseHeader(s);
    var e := ExtraBytes(ForByte(s[1]));
    MinimalLengthByte(s);
    RepackFirst(s[0]);
    RepackSecond(s[1]);
    OpCodeInverse(Low4(s[0]));
    assert FirstByte(p.header) == s[0] && SecondByte(p.header, p.length) == s[1];
    SliceOfPrefix(s, p.used, 2, 2 + e);
    SliceOfPrefix(s, p.used, 2 + e, p.used);
    assert MaskBytes(p.header) == s[2 + e..p.used];
  }

  predicate HasParts(h: FrameHeader, length: nat, s: bytes) {
    var a := 2 + |LengthExtension(length)|;
    && a <= |s| && s[0] == FirstByte(h) && s[1] == SecondByte(h, length)
    && s[2..a] == LengthExtension(length) && s[a..|s|] == MaskBytes(h)
  }

  lemma PartsOfHeader(h: FrameHeader, length: nat, s: bytes)
    requires HasParts(h, length, s)
    ensures s == EncodeHeader(h, length)
  {
    hide FirstByte, SecondByte, LengthExtension, MaskBytes;
    var a := 2 + |LengthExtension(length)|;
    assert s == s[..2] + s[2..a] + s[a..|s|];
    assert s[..2] == [FirstByte(h), SecondByte(h, length)];
  }

  // ---- the cursor forms ----

  /** `std::io::Cursor` over a byte slice. */
  class Cursor {
    const data: bytes
    var pos: nat

    ghost predicate Valid()
      reads this
    {
      pos <= |data|
    }

    constructor (data: bytes)
      ensures Valid() && this.data == data && pos == 0
    {
      this.data := data;
      pos := 0;
    }

    /** Reads up to `n` octets. */
    method Read(n: nat) returns (s: bytes)
      requires Valid()
      modifies this
      ensures Valid() && pos == old(pos) + |s| && s == data[old(pos)..pos]
      ensures |s| == if n <= |data| - old(pos) then n else |data| - old(pos)
    {
      var k := if n <= |data| - pos then n else |data| - pos;
      s := data[pos..pos + k];
      pos := pos + k;
    }

    /** Reads exactly `n` octets; `None` is `ErrorKind::UnexpectedEof`. */
    method ReadExact(n: nat) returns (s: Option<bytes>)
      requires Valid()
      modifies this
      ensures Valid()
      ensures s.Some? <==> n <= |data| - old(pos)
      ensures s.Some? ==> pos == old(pos) + n && s.value == data[old(pos)..pos]
    {
      if n <= |data| - pos {
        s := Some(data[pos..pos + n]);
        pos := pos + n;
      } else {
        s := None;
        pos := |data|;
      }
    }
  }

  lemma SliceOfRest(data: bytes, start: nat, i: nat, j: nat)
    requires start <= |data| && i <= j <= |data| - start
    ensures data[start..][i..j] == data[start + i..start + j]
  {
  }

  /** `parse_internal`: may leave the cursor anywhere when input is missing. */
  method ParseInternal(cursor: Cursor) returns (r: Result<Option<(FrameHeader, nat)>, Error>)
    requires cursor.Valid()
    modifies cursor
    ensures cursor.Valid()
    ensures var start := old(cursor.pos);
            match ParseHeader(cursor.data[start..])
            case NeedMore => r == Ok(None)
            case BadOpcode(code, used) => r == Err(Protocol(InvalidOpcode(code))) && cursor.pos == start + used
            case Header(h, length, used) => r == Ok(Some((h, length))) && cursor.pos == start + used
  {
    hide Bit7, Bit6, Bit5, Bit4, Low4, Low7, FromBigEndian, OpCodeFromByte, ForByte;
    ghost var s, start := cursor.data[cursor.pos..], cursor.pos;
    var head := cursor.Read(2);
    if |head| != 2 {
      return Ok(None);
    }
    var first, second := head[0], head[1];
    assert first == s[0] && second == s[1];
    var opcode := OpCodeFromByte(Low4(first));
    var masked := Bit7(second);
    var extra := ExtraBytes(ForByte(second));
    var length := ToInt(Low7(second));
    if extra > 0 {
      var field := cursor.ReadExact(extra);
      if field.None? {
        return Ok(None);
      }
      SliceOfRest(cursor.data, start, 2, 2 + extra);
      assert field.value == s[2..2 + extra];
      length := FromBigEndian(field.value);
    }
    var mask: Option<MaskKey> := None;
    if masked {
      var key := cursor.Read(4);
      if |key| != 4 {
        return Ok(None);
      }
      SliceOfRest(cursor.data, start, 2 + extra, 2 + extra + 4);
      assert key == s[2 + extra..2 + extra + 4];
      mask := Some(key);
    }
    if IsReserved(opcode) {
      return Err(Protocol(InvalidOpcode(Low4(first))));
    }
    r := Ok(Some((FrameHeader(Bit7(first), Bit6(first), Bit5(first), Bit4(first), opcode, mask), length)));
  }

  /** `parse`: consumes nothing when input is missing. */
  method Parse(cursor: Cursor) returns (r: Result<Option<(FrameHeader, nat)>, Error>)
    requires cursor.Valid()
    modifies cursor
    ensures cursor.Valid()
    ensures var start := old(cursor.pos);
            match ParseHeader(cursor.data[start..])
            case NeedMore => r == Ok(None) && cursor.pos == start
            case BadOpcode(code, used) => r == Err(Protocol(InvalidOpcode(code))) && cursor.pos == start + used
            case Header(h, length, used) => r == Ok(Some((h, length))) && cursor.pos == start + used
  {
    var initial := cursor.pos;
    r := ParseInternal(cursor);
    if r == Ok(None) {
      cursor.pos := initial;
    }
  }
}
