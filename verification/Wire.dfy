/**
  * What stands on the wire, in numbers: sections 5.2, 5.3, 5.7 and 7.4 of RFC 6455. Nothing here is defined through the
  * functions that write and read frames, so that it pins the octets they agree on.
  */
module Wire {
  import opened Prelude
  import opened Coding
  import opened Errors
  import opened Mask
  import opened Frame
  import opened Decode
  import opened Message

  // ---- section 5.2: the header ----

  /** All bits of `flag` are set. */
  predicate Has(b: byte, flag: byte) {
    b & flag == flag
  }

  /** The opcode numbers. */
  predicate Numbered(op: OpCode, n: byte) {
    || (n == 0x0 && op == DataOp(Continue))
    || (n == 0x1 && op == DataOp(Text))
    || (n == 0x2 && op == DataOp(Binary))
    || (n == 0x8 && op == ControlOp(Close))
    || (n == 0x9 && op == ControlOp(Ping))
    || (n == 0xA && op == ControlOp(Pong))
  }

  /** The seven-bit length marker. */
  function Marker(second: byte): nat {
    (second & 0x7F) as int
  }

  function MarkerExtra(marker: nat): nat {
    if marker == 126 then 2 else if marker == 127 then 8 else 0
  }

  /** The length is the marker itself or follows it in two or eight octets, the most significant one first. */
  predicate LengthField(marker: nat, e: bytes, length: nat) {
    if marker <= 125 then length == marker
    else if marker == 126 then |e| == 2 && length == 0x100 * (e[0] as int) + (e[1] as int)
    else
      && |e| == 8
      && length ==
         0x100_0000_0000_0000 * (e[0] as int) + 0x1_0000_0000_0000 * (e[1] as int) + 0x100_0000_0000 * (e[2] as int)
         + 0x1_0000_0000 * (e[3] as int) + 0x100_0000 * (e[4] as int) + 0x1_0000 * (e[5] as int)
         + 0x100 * (e[6] as int) + (e[7] as int)
  }

  /** The octets `s` are a header that announces a payload of this length. */
  predicate IsHeader(s: bytes, h: FrameHeader, length: nat) {
    |s| >= 2 &&
    var marker := Marker(s[1]);
    var e := 2 + MarkerExtra(marker);
    && |s| == e + (if h.mask.Some? then 4 else 0)
    && (h.isFinal <==> Has(s[0], 0x80))
    && (h.rsv1 <==> Has(s[0], 0x40)) && (h.rsv2 <==> Has(s[0], 0x20)) && (h.rsv3 <==> Has(s[0], 0x10))
    && Numbered(h.opcode, s[0] & 0x0F)
    && (h.mask.Some? <==> Has(s[1], 0x80))
    && (h.mask.Some? ==> h.mask.value == s[e..])
    && LengthField(marker, s[2..e], length)
  }

  lemma FirstOctetBits(b: byte)
    ensures Bit7(b) == Has(b, 0x80) && Bit6(b) == Has(b, 0x40) && Bit5(b) == Has(b, 0x20) && Bit4(b) == Has(b, 0x10)
  {
  }

  lemma OpcodeNumbers(op: OpCode)
    ensures !IsReserved(op) ==> Numbered(op, OpCodeToByte(op))
    ensures forall n: byte | n <= 15 :: OpCodeFromByte(n) == op && !IsReserved(op) <==> Numbered(op, n)
  {
  }

  lemma TwoOctets(e: bytes)
    requires |e| == 2
    ensures FromBigEndian(e) == 0x100 * (e[0] as int) + (e[1] as int)
  {
    assert e[..1][..0] == [];
    assert FromBigEndian(e[..1]) == 256 * FromBigEndian([]) + ToInt(e[0]);
  }

  lemma LastOctet(e: bytes, k: nat)
    requires 0 < k <= |e|
    ensures FromBigEndian(e[..k]) == 256 * FromBigEndian(e[..k - 1]) + (e[k - 1] as int)
  {
    assert e[..k][..k - 1] == e[..k - 1];
  }

  lemma EightOctets(e: bytes)
    requires |e| == 8
    ensures LengthField(127, e, FromBigEndian(e))
  {
    hide FromBigEndian;
    LastOctet(e, 1);
    LastOctet(e, 2);
    LastOctet(e, 3);
    LastOctet(e, 4);
    LastOctet(e, 5);
    LastOctet(e, 6);
    LastOctet(e, 7);
    LastOctet(e, 8);
    assert e[..8] == e && e[..0] == [];
    NoOctets();
  }

  lemma NoOctets()
    ensures FromBigEndian([]) == 0
  {
  }

  lemma FormatOfMarker(second: byte)
    ensures ExtraBytes(ForByte(second)) == MarkerExtra(Marker(second)) && ToInt(Low7(second)) == Marker(second)
  {
  }

  /** The parser's length is the field's. */
  lemma LengthIsField(s: bytes)
    requires |s| >= 2 && |s| >= 2 + ExtraBytes(ForByte(s[1]))
    ensures LengthField(Marker(s[1]), s[2..2 + MarkerExtra(Marker(s[1]))], ParseLength(s))
    ensures MarkerExtra(Marker(s[1])) == ExtraBytes(ForByte(s[1]))
  {
    hide FromBigEndian, ToInt, ForByte, Low7;
    FormatOfMarker(s[1]);
    var e := s[2..2 + ExtraBytes(ForByte(s[1]))];
    if |e| == 2 {
      TwoOctets(e);
    } else if |e| == 8 {
      EightOctets(e);
    }
  }

  /** A length field has one value only. */
  lemma FieldHasOneValue(marker: nat, e: bytes, a: nat, b: nat)
    requires LengthField(marker, e, a) && LengthField(marker, e, b)
    ensures a == b
  {
  }

  /** What the parser takes for a header is one, as it says. */
  lemma ParsedIsHeader(s: bytes)
    requires ParseHeader(s).Header?
    ensures var p := ParseHeader(s); p.used <= |s| && IsHeader(s[..p.used], p.header, p.length)
  {
    hide Bit7, Bit6, Bit5, Bit4, ForByte, ParseLength, LengthField, Has, Marker, Numbered, OpCodeFromByte;
    var p := ParseHeader(s);
    var e := ExtraBytes(ForByte(s[1]));
    LengthIsField(s);
    FirstOctetBits(s[0]);
    FirstOctetBits(s[1]);
    OpcodeNumbers(p.header.opcode);
    SliceOfPrefix(s, p.used, 2, 2 + e);
    if Bit7(s[1]) {
      SliceOfPrefix(s, p.used, 2 + e, 2 + e + 4);
    }
  }

  /** The parser takes every header for one, whatever follows it. */
  lemma HeaderIsParsed(s: bytes, h: FrameHeader, length: nat, n: nat)
    requires n <= |s| && IsHeader(s[..n], h, length)
    ensures ParseHeader(s) == Header(h, length, n)
  {
    hide Bit7, Bit6, Bit5, Bit4, ForByte, ParseLength, LengthField, Has, Marker, Numbered, OpCodeFromByte;
    assert s[..n][0] == s[0] && s[..n][1] == s[1];
    var e := ExtraBytes(ForByte(s[1]));
    FirstOctetBits(s[0]);
    FirstOctetBits(s[1]);
    OpcodeNumbers(h.opcode);
    FormatOfMarker(s[1]);
    LengthIsField(s);
    SliceOfPrefix(s, n, 2, 2 + e);
    FieldHasOneValue(Marker(s[1]), s[2..2 + e], length, ParseLength(s));
    if Bit7(s[1]) {
      SliceOfPrefix(s, n, 2 + e, 2 + e + 4);
    }
  }

  /** Parsing as defined by the standard: a header is found exactly when one stands in front, and it is that one. */
  lemma ParsesHeaders(s: bytes, h: FrameHeader, length: nat, n: nat)
    ensures ParseHeader(s) == Header(h, length, n) <==> n <= |s| && IsHeader(s[..n], h, length)
  {
    hide ParseHeader, IsHeader;
    if n <= |s| && IsHeader(s[..n], h, length) {
      HeaderIsParsed(s, h, length, n);
    }
    if ParseHeader(s) == Header(h, length, n) {
      ParsedIsHeader(s);
    }
  }

  /** Octets the header needs, as far as the first two say. */
  function Needed(s: bytes): nat
    requires |s| >= 2
  {
    2 + MarkerExtra(Marker(s[1])) + if Has(s[1], 0x80) then 4 else 0
  }

  /** When no header is found: octets are missing, or the number is one of 3 to 7 and 11 to 15. */
  lemma ParseVerdict(s: bytes)
    ensures ParseHeader(s).NeedMore? <==> |s| < 2 || |s| < Needed(s)
    ensures ParseHeader(s).BadOpcode? <==>
              |s| >= 2 && |s| >= Needed(s) && (0x3 <= s[0] & 0x0F <= 0x7 || 0xB <= s[0] & 0x0F <= 0xF)
    ensures ParseHeader(s).BadOpcode? ==> ParseHeader(s).code == s[0] & 0x0F
  {
    hide Bit7, Has, ForByte, Marker, FromBigEndian;
    if |s| >= 2 {
      FirstOctetBits(s[1]);
      FormatOfMarker(s[1]);
    }
  }

  /** What is written is a header, with the length in the shortest of its three forms. */
  lemma EncodedIsHeader(h: FrameHeader, length: nat)
    requires !IsReserved(h.opcode) && length < U64_LIMIT
    ensures var s := EncodeHeader(h, length);
            && IsHeader(s, h, length)
            && Marker(s[1]) == if length <= 125 then length else if length <= 0xFFFF then 126 else 127
  {
    hide ParseHeader, EncodeHeader, IsHeader;
    var s := EncodeHeader(h, length);
    ParseOfEncode(h, length, []);
    assert s + [] == s;
    ParsedIsHeader(s);
    assert s[..|s|] == s;
    ShortestForm(h, length);
  }

  lemma ShortestForm(h: FrameHeader, length: nat)
    ensures Marker(EncodeHeader(h, length)[1]) ==
            if length <= 125 then length else if length <= 0xFFFF then 126 else 127
  {
    hide Bit7, Low7, Marker, PackSecond, FirstByte;
    var b := SecondByte(h, length);
    assert EncodeHeader(h, length)[1] == b;
    SecondByteRoundTrip(h, length);
    FormatOfMarker(b);
    MarkerOfFormat(b);
  }

  lemma MarkerOfFormat(second: byte)
    ensures ForByte(second).U16? <==> Marker(second) == 126
    ensures ForByte(second).U64? <==> Marker(second) == 127
  {
  }
  // ---- section 5.3: masking ----

  /** The octet in which bit `k` alone is set. */
  function Single(k: nat): byte
    requires k < 8
  {
    if k == 0 then 0x01 else if k == 1 then 0x02 else if k == 2 then 0x04 else if k == 3 then 0x08
    else if k == 4 then 0x10 else if k == 5 then 0x20 else if k == 6 then 0x40 else 0x80
  }

  predicate Bit(b: byte, k: nat)
    requires k < 8
  {
    Has(b, Single(k))
  }

  lemma SameBitsSameOctet(a: byte, b: byte)
    requires forall k: nat | k < 8 :: Bit(a, k) == Bit(b, k)
    ensures a == b
  {
    assert Bit(a, 0) == Bit(b, 0) && Bit(a, 1) == Bit(b, 1) && Bit(a, 2) == Bit(b, 2) && Bit(a, 3) == Bit(b, 3);
    assert Bit(a, 4) == Bit(b, 4) && Bit(a, 5) == Bit(b, 5) && Bit(a, 6) == Bit(b, 6) && Bit(a, 7) == Bit(b, 7);
    EightBits(a, b);
  }

  lemma EightBits(a: byte, b: byte)
    requires Has(a, 0x01) == Has(b, 0x01) && Has(a, 0x02) == Has(b, 0x02)
    requires Has(a, 0x04) == Has(b, 0x04) && Has(a, 0x08) == Has(b, 0x08)
    requires Has(a, 0x10) == Has(b, 0x10) && Has(a, 0x20) == Has(b, 0x20)
    requires Has(a, 0x40) == Has(b, 0x40) && Has(a, 0x80) == Has(b, 0x80)
    ensures a == b
  {
  }

  lemma XorBit(a: byte, b: byte, k: nat)
    requires k < 8
    ensures Bit(Xor(a, b), k) <==> Bit(a, k) != Bit(b, k)
  {
    hide Xor, Has;
    XorFlags(a, b);
  }

  lemma XorFlags(a: byte, b: byte)
    ensures Has(Xor(a, b), 0x01) <==> Has(a, 0x01) != Has(b, 0x01)
    ensures Has(Xor(a, b), 0x02) <==> Has(a, 0x02) != Has(b, 0x02)
    ensures Has(Xor(a, b), 0x04) <==> Has(a, 0x04) != Has(b, 0x04)
    ensures Has(Xor(a, b), 0x08) <==> Has(a, 0x08) != Has(b, 0x08)
    ensures Has(Xor(a, b), 0x10) <==> Has(a, 0x10) != Has(b, 0x10)
    ensures Has(Xor(a, b), 0x20) <==> Has(a, 0x20) != Has(b, 0x20)
    ensures Has(Xor(a, b), 0x40) <==> Has(a, 0x40) != Has(b, 0x40)
    ensures Has(Xor(a, b), 0x80) <==> Has(a, 0x80) != Has(b, 0x80)
  {
  }

  /** Bit by bit, `w` is `s` with every octet XORed with its key octet, the four key octets taking turns. */
  predicate IsMasked(w: bytes, s: bytes, key: MaskKey) {
    && |w| == |s|
    && forall i, k: nat | 0 <= i < |w| && k < 8 :: Bit(w[i], k) <==> Bit(s[i], k) != Bit(key[i % 4], k)
  }

  /** Masking is exclusive or, and nothing else is. */
  lemma MaskingIsXor(w: bytes, s: bytes, key: MaskKey)
    ensures w == Masked(s, key) <==> IsMasked(w, s, key)
  {
    hide Xor, Bit;
    var m := Masked(s, key);
    forall i, k: nat | 0 <= i < |m| && k < 8
      ensures Bit(m[i], k) <==> Bit(s[i], k) != Bit(key[i % 4], k)
    {
      XorBit(s[i], key[i % 4], k);
    }
    if IsMasked(w, s, key) {
      forall i | 0 <= i < |w|
        ensures w[i] == m[i]
      {
        SameBitsSameOctet(w[i], m[i]);
      }
    }
  }

  lemma ZeroKeyMasksNothing(s: bytes)
    ensures Masked(s, [0, 0, 0, 0]) == s
  {
    hide Masked, Bit;
    var key: MaskKey := [0, 0, 0, 0];
    forall i, k: nat | 0 <= i < |s| && k < 8
      ensures Bit(s[i], k) <==> Bit(s[i], k) != Bit(key[i % 4], k)
    {
      ZeroBit(k);
    }
    MaskingIsXor(s, s, key);
  }

  lemma ZeroBit(k: nat)
    requires k < 8
    ensures !Bit(0, k)
  {
  }

  lemma MaskedZerosAreTheKey(n: nat, key: MaskKey)
    ensures Masked(seq(n, i => 0), key) == seq(n, i requires 0 <= i < n => key[i % 4])
  {
    hide Masked, Bit;
    var zeros, keys: bytes := seq(n, i => 0), seq(n, i requires 0 <= i < n => key[i % 4]);
    forall i, k: nat | 0 <= i < n && k < 8
      ensures Bit(keys[i], k) <==> Bit(zeros[i], k) != Bit(key[i % 4], k)
    {
      ZeroBit(k);
    }
    MaskingIsXor(keys, zeros, key);
  }

  // ---- whole frames ----

  predicate IsPayload(w: bytes, payload: bytes, mask: Option<MaskKey>) {
    if mask.Some? then IsMasked(w, payload, mask.value) else w == payload
  }

  /** The octets `s` are the frame `f`. */
  predicate IsFrame(s: bytes, f: Frame) {
    var n := |s| - |f.payload|;
    n >= 0 && IsHeader(s[..n], f.header, |f.payload|) && IsPayload(s[n..], f.payload, f.header.mask)
  }

  lemma EncodedIsFrame(f: Frame)
    requires !IsReserved(f.header.opcode) && |f.payload| < U64_LIMIT
    ensures IsFrame(EncodeFrame(f), f)
  {
    hide EncodeHeader, HeaderLen, IsHeader, Masked, IsMasked;
    var s, n := EncodeFrame(f), HeaderLen(f.header, |f.payload|);
    EncodedIsHeader(f.header, |f.payload|);
    assert s[..n] == EncodeHeader(f.header, |f.payload|) && s[n..] == MaskedPayload(f);
    if f.header.mask.Some? {
      MaskingIsXor(MaskedPayload(f), f.payload, f.header.mask.value);
    }
  }

  /** What the decoder makes of a frame, of the limit and of the masking rules of its side. */
  function DecodedAs(d: Decoder, s: bytes, f: Frame): Decoded {
    if d.maxFrameSize.Some? && |f.payload| > d.maxFrameSize.value then
      Failure(MessageTooLong(|f.payload|, d.maxFrameSize.value))
    else if !d.unmask then Item(Frame(f.header, s))
    else if f.header.mask.Some? || d.acceptUnmasked then Item(Frame(f.header.(mask := None), f.payload))
    else Failure(Protocol(UnmaskedFrameFromClient))
  }

  /** Decoding as defined by the standard: any frame in front, its length written in any form, is decoded so. */
  lemma FrameIsDecoded(d: Decoder, s: bytes, f: Frame, rest: bytes)
    requires d.header.None? && IsFrame(s, f)
    ensures var n := |s| - |f.payload|;
            var r := DecodeOnce(d, s + rest);
            && r.after == d && r.out == DecodedAs(d, s[n..], f)
            && r.rest == if r.out.Failure? && r.out.error.MessageTooLong? then s[n..] + rest else rest
  {
    hide ParseHeader, IsHeader, Masked, IsMasked;
    var n := |s| - |f.payload|;
    var w, all := s[n..], s + rest;
    assert all[..n] == s[..n] && all[n..] == w + rest;
    HeaderIsParsed(all, f.header, |f.payload|, n);
    assert (w + rest)[..|f.payload|] == w && (w + rest)[|f.payload|..] == rest;
    if f.header.mask.Some? {
      var key := f.header.mask.value;
      MaskingIsXor(w, f.payload, key);
      MaskedTwice(f.payload, key);
    }
  }

  // ---- section 7.4: close codes ----

  /** The numbers that may stand in a Close frame. */
  predicate MayBeSent(n: nat) {
    1000 <= n <= 1003 || 1007 <= n <= 1013 || 3000 <= n <= 4999
  }

  lemma AllowedNumbers(n: u16)
    ensures IsAllowed(CloseCodeFromU16(n)) <==> MayBeSent(n)
  {
  }

  /** Section 7.4.1: the numbers behind the names. */
  lemma NamedCodes()
    ensures CloseCodeToU16(Normal) == 1000 && CloseCodeToU16(Away) == 1001
    ensures CloseCodeToU16(ProtocolViolation) == 1002 && CloseCodeToU16(Unsupported) == 1003
    ensures CloseCodeToU16(Status) == 1005 && CloseCodeToU16(Abnormal) == 1006
    ensures CloseCodeToU16(Invalid) == 1007 && CloseCodeToU16(Policy) == 1008 && CloseCodeToU16(Size) == 1009
    ensures CloseCodeToU16(Extension) == 1010 && CloseCodeToU16(InternalError) == 1011
    ensures CloseCodeToU16(Restart) == 1012 && CloseCodeToU16(Again) == 1013 && CloseCodeToU16(Tls) == 1015
    ensures forall n: u16 :: CloseCodeToU16(Reserved(n)) == CloseCodeToU16(Iana(n)) == n
    ensures forall n: u16 :: CloseCodeToU16(Library(n)) == CloseCodeToU16(Bad(n)) == n
  {
  }

  /** The number in a Close payload. */
  function CodeIn(payload: bytes): nat
    requires |payload| >= 2
  {
    0x100 * (payload[0] as int) + (payload[1] as int)
  }

  /** A Close payload is the number of its code, the more significant octet first, and its reason. */
  lemma CloseInNumbers(close: CloseFrame)
    ensures var p := ClosePayload(Some(close));
            |p| >= 2 && CodeIn(p) == CloseCodeToU16(close.code) && p[2..] == close.reason
  {
    hide ToBigEndian, FromBigEndian, CloseCodeToU16, Utf8.WellFormed;
    var n := CloseCodeToU16(close.code);
    Pow256Values();
    BigEndianRoundTrip(n, 2);
    TwoOctets(ToBigEndian(n, 2));
  }

  lemma ParsedCloseInNumbers(payload: bytes)
    requires |payload| >= 2 && Utf8.WellFormed(payload[2..])
    ensures IntoClose(payload).Ok? && IntoClose(payload).value.Some?
    ensures var close := IntoClose(payload).value.value;
            && CodeIn(payload) < U16_LIMIT && close.code == CloseCodeFromU16(CodeIn(payload))
            && close.reason == payload[2..]
  {
    hide FromBigEndian, CloseCodeFromU16, Utf8.WellFormed;
    TwoOctets(payload[..2]);
    CodeFits(payload[..2]);
  }
  // ---- section 5.7: the examples ----

  const HELLO: bytes := [0x48, 0x65, 0x6C, 0x6C, 0x6F]

  const EXAMPLE_KEY: MaskKey := [0x37, 0xFA, 0x21, 0x3D]

  lemma MaskedHello()
    ensures Masked(HELLO, EXAMPLE_KEY) == [0x7F, 0x9F, 0x4D, 0x51, 0x58]
  {
  }

  lemma DataHeadersOfExamples()
    ensures EncodeHeader(PlainHeader(DataOp(Text)), 5) == [0x81, 0x05]
    ensures EncodeHeader(PlainHeader(DataOp(Text)).(mask := Some(EXAMPLE_KEY)), 5) == [0x81, 0x85] + EXAMPLE_KEY
    ensures EncodeHeader(PlainHeader(DataOp(Text)).(isFinal := false), 3) == [0x01, 0x03]
    ensures EncodeHeader(PlainHeader(DataOp(Continue)), 2) == [0x80, 0x02]
  {
  }

  lemma ControlHeadersOfExamples()
    ensures EncodeHeader(PlainHeader(ControlOp(Ping)), 5) == [0x89, 0x05]
    ensures EncodeHeader(PlainHeader(ControlOp(Pong)).(mask := Some(EXAMPLE_KEY)), 5) == [0x8A, 0x85] + EXAMPLE_KEY
  {
  }

  lemma LongHeadersOfExamples()
    ensures EncodeHeader(PlainHeader(DataOp(Binary)), 256) == [0x82, 0x7E, 0x01, 0x00]
    ensures EncodeHeader(PlainHeader(DataOp(Binary)), 65536) ==
            [0x82, 0x7F, 0x00, 0x00, 0x00, 0x00, 0x00, 0x01, 0x00, 0x00]
  {
    hide ToBigEndian, FromBigEndian;
    var two: bytes := [0x01, 0x00];
    TwoOctets(two);
    BigEndianInverse(two);
    var eight: bytes := [0x00, 0x00, 0x00, 0x00, 0x00, 0x01, 0x00, 0x00];
    EightOctets(eight);
    BigEndianInverse(eight);
  }

  /** Every frame of the examples is written as printed there. */
  lemma Examples()
    ensures EncodeFrame(DataFrame(HELLO, Text, true)) == [0x81, 0x05, 0x48, 0x65, 0x6C, 0x6C, 0x6F]
    ensures EncodeFrame(Frame(PlainHeader(DataOp(Text)).(mask := Some(EXAMPLE_KEY)), HELLO)) ==
            [0x81, 0x85, 0x37, 0xFA, 0x21, 0x3D, 0x7F, 0x9F, 0x4D, 0x51, 0x58]
    ensures EncodeFrame(DataFrame(HELLO[..3], Text, false)) == [0x01, 0x03, 0x48, 0x65, 0x6C]
    ensures EncodeFrame(DataFrame(HELLO[3..], Continue, true)) == [0x80, 0x02, 0x6C, 0x6F]
    ensures EncodeFrame(PingFrame(HELLO)) == [0x89, 0x05, 0x48, 0x65, 0x6C, 0x6C, 0x6F]
    ensures EncodeFrame(Frame(PlainHeader(ControlOp(Pong)).(mask := Some(EXAMPLE_KEY)), HELLO)) ==
            [0x8A, 0x85, 0x37, 0xFA, 0x21, 0x3D, 0x7F, 0x9F, 0x4D, 0x51, 0x58]
    ensures EncodeHeader(PlainHeader(DataOp(Binary)), 256) == [0x82, 0x7E, 0x01, 0x00]
    ensures EncodeHeader(PlainHeader(DataOp(Binary)), 65536) ==
            [0x82, 0x7F, 0x00, 0x00, 0x00, 0x00, 0x00, 0x01, 0x00, 0x00]
  {
    hide EncodeHeader, Masked;
    MaskedHello();
    DataHeadersOfExamples();
    ControlHeadersOfExamples();
    LongHeadersOfExamples();
  }
}
