/**
  * The in-place forms: a growable byte buffer, the frame encoder (src/protocol/frame/codec/encode.rs), the copying
  * formatter (`format` in src/protocol/frame/frame.rs) and the frame decoder (src/protocol/frame/codec/decode.rs).
  */
module Buffers {
  import opened Prelude
  import opened Coding
  import opened Errors
  import opened Mask
  import opened Frame
  import opened Decode

  /** `BytesMut`. */
  class BytesMut {
    var data: array<byte>

    function Contents(): bytes
      reads this, data
    {
      data[..]
    }

    constructor ()
      ensures fresh(data) && Contents() == []
    {
      data := new byte[0];
    }

    constructor From(s: bytes)
      ensures fresh(data) && Contents() == s
    {
      data := new byte[|s|](i requires 0 <= i < |s| => s[i]);
    }

    method Extend(s: bytes)
      modifies this
      ensures fresh(data) && Contents() == old(Contents()) + s
    {
      var all := data[..] + s;
      data := new byte[|all|](i requires 0 <= i < |all| => all[i]);
    }

    /** Drops the first `n` octets. */
    method Advance(n: nat)
      requires n <= data.Length
      modifies this
      ensures fresh(data) && Contents() == old(Contents())[n..]
    {
      var rest := data[n..];
      data := new byte[|rest|](i requires 0 <= i < |rest| => rest[i]);
    }

    /** Moves the first `n` octets into a buffer of their own. */
    method SplitTo(n: nat) returns (head: BytesMut)
      requires n <= data.Length
      modifies this
      ensures fresh(data) && fresh(head) && fresh(head.data) && head.data != data
      ensures head.Contents() == old(Contents())[..n] && Contents() == old(Contents())[n..]
    {
      var start := data[..n];
      head := new BytesMut();
      head.Extend(start);
      Advance(n);
    }

    method Clear()
      modifies this
      ensures fresh(data) && Contents() == []
    {
      data := new byte[0];
    }
  }

  // ---- encoding ----

  /** `FrameEncoder::write_header`. */
  method WriteHeader(header: FrameHeader, length: nat, dst: BytesMut)
    modifies dst
    ensures fresh(dst.data) && dst.Contents() == old(dst.Contents()) + EncodeHeader(header, length)
  {
    hide PackFirst, PackSecond, OpCodeToByte, ToBigEndian, ForLength, LengthByte;
    var first := PackFirst(OpCodeToByte(header.opcode), header.isFinal, header.rsv1, header.rsv2, header.rsv3);
    var format := ForLength(length);
    var second := PackSecond(LengthByte(format), header.mask.Some?);
    dst.Extend([first, second]);
    ghost var start := dst.Contents();
    match format {
      case U8(_) => assert start + [] == start;
      case U16 => dst.Extend(ToBigEndian(length % U16_LIMIT, 2));
      case U64 => dst.Extend(ToBigEndian(length, 8));
    }
    assert dst.Contents() == start + LengthExtension(length);
    if header.mask.Some? {
      dst.Extend(header.mask.value);
    }
    ThreeParts(old(dst.Contents()), [first, second], LengthExtension(length), MaskBytes(header));
  }

  lemma ThreeParts(a: bytes, b: bytes, c: bytes, d: bytes)
    ensures a + b + c + d == a + (b + c + d)
    ensures a + b + [] == a + b
    ensures a + b + c + [] == a + b + c
  {
  }

  /** `FrameEncoder::encode`: appends the payload, then masks the tail of the buffer where it lies. */
  method Encode(frame: Frame, dst: BytesMut)
    modifies dst
    ensures fresh(dst.data) && dst.Contents() == old(dst.Contents()) + EncodeFrame(frame)
  {
    hide EncodeHeader, Masked;
    WriteHeader(frame.header, |frame.payload|, dst);
    var start := dst.data.Length;
    ghost var before := dst.Contents();
    dst.Extend(frame.payload);
    assert dst.data[..start] == before && dst.data[start..] == frame.payload;
    if frame.header.mask.Some? {
      MaskTail(dst, start, frame.header.mask.value);
    }
    assert dst.Contents() == before + MaskedPayload(frame);
    assert old(dst.Contents()) + (EncodeHeader(frame.header, |frame.payload|) + MaskedPayload(frame))
        == before + MaskedPayload(frame);
  }

  method MaskTail(dst: BytesMut, start: nat, key: MaskKey)
    requires start <= dst.data.Length
    modifies dst.data
    ensures dst.Contents() == old(dst.data[..start]) + Masked(old(dst.data[start..]), key)
  {
    hide Masked;
    var end := dst.data.Length;
    assert dst.data[start..end] == dst.data[start..];
    ApplyMask(dst.data, start, end, key);
    assert dst.data[..start] == old(dst.data[..start]);
    assert dst.Contents() == dst.data[..start] + dst.data[start..end];
  }

  /** `FrameHeader::format`. */
  method FormatHeader(header: FrameHeader, length: nat, output: BytesMut)
    modifies output
    ensures fresh(output.data) && output.Contents() == old(output.Contents()) + EncodeHeader(header, length)
  {
    hide FirstByte, SecondByte, LengthExtension;
    output.Extend([FirstByte(header), SecondByte(header, length)]);
    output.Extend(LengthExtension(length));
    output.Extend(MaskBytes(header));
    ghost var was, front := old(output.Contents()), [FirstByte(header), SecondByte(header, length)];
    assert was + front + LengthExtension(length) + MaskBytes(header)
        == was + (front + LengthExtension(length) + MaskBytes(header));
  }

  /** `Frame::format`: masks a copy of the payload, then appends it. The octets are those `Encode` appends. */
  method Format(frame: Frame, output: BytesMut)
    modifies output
    ensures fresh(output.data) && output.Contents() == old(output.Contents()) + EncodeFrame(frame)
  {
    hide EncodeHeader, MaskedPayload;
    ghost var was := output.Contents();
    FormatHeader(frame.header, |frame.payload|, output);
    var payload := frame.payload;
    if frame.header.mask.Some? {
      payload := MaskedCopy(payload, frame.header.mask.value);
    }
    MaskedPayloadIs(frame);
    output.Extend(payload);
    assert was + (EncodeHeader(frame.header, |frame.payload|) + payload)
        == was + EncodeHeader(frame.header, |frame.payload|) + payload;
  }

  lemma MaskedPayloadIs(frame: Frame)
    ensures MaskedPayload(frame) ==
            if frame.header.mask.Some? then Masked(frame.payload, frame.header.mask.value) else frame.payload
  {
    hide Masked;
  }

  /** Masks a copy of the payload. */
  method MaskedCopy(payload: bytes, key: MaskKey) returns (masked: bytes)
    ensures masked == Masked(payload, key)
  {
    hide Masked;
    var copy := new BytesMut.From(payload);
    assert copy.data[0..] == payload && copy.data[..0] == [];
    MaskTail(copy, 0, key);
    assert [] + Masked(payload, key) == Masked(payload, key);
    masked := copy.data[..];
  }

  // ---- decoding ----

  class FrameDecoder {
    var header: Option<(FrameHeader, nat)>
    var maxFrameSize: Option<nat>
    var unmask: bool
    var acceptUnmasked: bool

    function View(): Decoder
      reads this
    {
      Decoder(header, maxFrameSize, unmask, acceptUnmasked)
    }

    constructor ()
      ensures View() == Decoder(None, None, false, false)
    {
      header := None;
      maxFrameSize := None;
      unmask := false;
      acceptUnmasked := false;
    }

    method Configure(unmask: bool, acceptUnmasked: bool, maxFrameSize: Option<nat>)
      modifies this
      ensures View() == Decoder(old(header), maxFrameSize, unmask, acceptUnmasked)
    {
      this.unmask := unmask;
      this.acceptUnmasked := acceptUnmasked;
      this.maxFrameSize := maxFrameSize;
    }

    method Decode(src: BytesMut) returns (out: Decoded)
      modifies this, src
      ensures src.data == old(src.data) || fresh(src.data)
      ensures Decoding(View(), src.Contents(), out) == DecodeOnce(old(View()), old(src.Contents()))
    {
      hide ParseHeader, TakePayload;
      if header.None? {
        var stop := TakeHeader(src);
        if stop.Some? {
          return stop.value;
        }
      }
      out := FinishFrame(src);
    }

    /** The first half of `decode`: a complete header within the limit is taken off the buffer and remembered. */
    method TakeHeader(src: BytesMut) returns (stop: Option<Decoded>)
      requires header.None?
      modifies this, src
      ensures src.data == old(src.data) || fresh(src.data)
      ensures var d := DecodeOnce(old(View()), old(src.Contents()));
              if stop.Some? then Decoding(View(), src.Contents(), stop.value) == d
              else header.Some? && TakePayload(View(), src.Contents()) == d
    {
      hide ParseHeader, TakePayload;
      ghost var octets := src.Contents();
      var parsed, used := ParseFront(src);
      if parsed.Err? {
        return Some(Failure(parsed.error));
      }
      if parsed.value.None? {
        return Some(Insufficient);
      }
      var (h, length) := parsed.value.value;
      src.Advance(used);
      if maxFrameSize.Some? && length > maxFrameSize.value {
        return Some(Failure(MessageTooLong(length, maxFrameSize.value)));
      }
      header := Some((h, length));
      stop := None;
    }

    /** Parses at the front of the buffer through a cursor. */
    method ParseFront(src: BytesMut) returns (r: Result<Option<(FrameHeader, nat)>, Error>, used: nat)
      ensures used <= src.data.Length
      ensures match ParseHeader(src.Contents())
              case NeedMore => r == Ok(None)
              case BadOpcode(code, _) => r == Err(Protocol(InvalidOpcode(code)))
              case Header(h, length, n) => r == Ok(Some((h, length))) && used == n
    {
      hide ParseHeader;
      var cursor := new Cursor(src.data[..]);
      assert cursor.data[0..] == src.Contents();
      r := Parse(cursor);
      used := cursor.pos;
    }

    /** The second half of `decode`: the header is known and the payload is taken off the buffer. */
    method FinishFrame(src: BytesMut) returns (out: Decoded)
      requires header.Some?
      modifies this, src
      ensures src.data == old(src.data) || fresh(src.data)
      ensures Decoding(View(), src.Contents(), out) == TakePayload(old(View()), old(src.Contents()))
    {
      hide Open;
      var (h, length) := header.value;
      if src.data.Length < length {
        return InsufficientAtLeast(length);
      }
      ghost var d := View();
      var payload := src.SplitTo(length);
      OpenIgnoresHeader(d, h, payload.Contents());
      header := None;
      out := OpenInPlace(h, payload);
    }

    /** Checks the masking and unmasks the payload where it is. */
    method OpenInPlace(h: FrameHeader, payload: BytesMut) returns (out: Decoded)
      modifies payload.data
      ensures out == Open(View(), h, old(payload.Contents()))
    {
      hide Masked;
      if !unmask {
        return Item(Frame(h, payload.data[..]));
      }
      if h.mask.None? {
        return if acceptUnmasked then Item(Frame(h, payload.data[..]))
               else Failure(Protocol(UnmaskedFrameFromClient));
      }
      assert payload.data[0..] == payload.Contents() && payload.data[..0] == [];
      MaskTail(payload, 0, h.mask.value);
      out := Item(Frame(h.(mask := None), payload.data[..]));
    }
  }

  lemma OpenIgnoresHeader(d: Decoder, h: FrameHeader, payload: bytes)
    ensures Open(d.(header := None), h, payload) == Open(d, h, payload)
  {
    hide Masked;
  }
}
