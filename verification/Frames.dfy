/** `WebSocketFrame`: the frame constructor, the accessors and `decode`. */
module Frames {
  import opened Bytes
  import opened Buffers
  import opened ByteOrder
  import opened Rfc6455

  /** A value, or the standard exception that is thrown instead. */
  datatype Result<+T> = Ok(value: T) | InvalidArgument | RuntimeError

  const OPCODE_CONTINUATION := 0x00
  const OPCODE_TEXT := 0x01
  const OPCODE_BINARY := 0x02
  const OPCODE_CONNECTION_CLOSE := 0x08
  const OPCODE_CONNECTION_PING := 0x09
  const OPCODE_CONNECTION_PONG := 0x0A

  const UINT16_MAX := 65535

  datatype WebSocketFrame = WebSocketFrame(data: seq<Byte>) {
    predicate HeaderPresent()
    {
      |data| >= 2 && (And(data[1], 0x7f) == 126 ==> |data| >= 4)
    }

    predicate Fin()
      requires HeaderPresent()
    {
      And(data[0], 0x80) == 0x80
    }

    predicate HasMask()
      requires HeaderPresent()
    {
      And(data[1], 0x80) == 0x80
    }

    function PayloadLength(): (r: Result<nat>)
      requires HeaderPresent()
    {
      var frameLen := And(data[1], 0x7f);
      if frameLen == 127 then RuntimeError
      else if frameLen == 126 then Ok(BigEndian(data[2..4]))
      else Ok(frameLen)
    }

    /** Where `payload()` points: chosen by the decoded length, not by the 7-bit field. */
    function PayloadOffset(): (r: Result<nat>)
      requires HeaderPresent()
    {
      match PayloadLength()
      case Ok(n) => Ok(if n < 126 then 2 else 4)
      case InvalidArgument => InvalidArgument
      case RuntimeError => RuntimeError
    }
  }

  /**
   The accessors read the header as RFC 6455 lays it down, as far as they support it; `payload` finds the payload
   of an unmasked frame exactly if a 16-bit length is not used for fewer than 126 octets.
   */
  lemma {:induction false} AccessorsReadHeader(w: WebSocketFrame)
    requires ReadHeader(w.data).Some? && FormOf(w.data[1] % 128) != Long
    ensures w.HeaderPresent() && w.Fin() == (w.data[0] >= 128) && w.HasMask() == (w.data[1] >= 128)
    ensures w.PayloadLength() == Ok(ReadHeader(w.data).value.length)
    ensures w.PayloadOffset() == Ok(ReadHeader(w.data).value.offset) <==>
            FormOf(w.data[1] % 128) == Short || ReadHeader(w.data).value.length >= 126
  {
    HeaderMasks(w.data[0]);
    HeaderMasks(w.data[1]);
  }

  /** On a constructed frame every accessor reports what went into the constructor. */
  lemma {:induction false} AccessorsOfBuilt(f: Frame)
    requires Sendable(f)
    ensures var w := WebSocketFrame(Encode(f));
      && w.HeaderPresent() && w.Fin() == f.fin && !w.HasMask()
      && w.PayloadLength() == Ok(|f.payload|)
      && w.PayloadOffset().Ok? && w.PayloadOffset().value <= |w.data|
      && w.data[w.PayloadOffset().value..] == f.payload
  {
    var e, w := Encode(f), ServerWire(|f.payload|);
    Pow256Two();
    SerializedIsLaidOut(f, w, []);
    assert e + [] == e;
    HeaderLaidOut(e, f, w);
    FirstFields(f, w);
    assert e[1] == e[..2][1];
    AccessorsReadHeader(WebSocketFrame(e));
  }

  /** `WebSocketFrame(payload, payloadLength, fin, opcode)`; throws on a wide opcode or a long payload. */
  method Build(payload: seq<Byte>, fin: bool, opcode: Byte) returns (r: Result<WebSocketFrame>)
    ensures r == if opcode > 15 || |payload| > UINT16_MAX then InvalidArgument
                 else Ok(WebSocketFrame(Encode(Frame(fin, opcode, payload))))
  {
    hide And;
    hide Or;
    hide Encode;
    hide ToBigEndian;
    var data := new ByteBuffer(2);
    if opcode > 15 {
      return InvalidArgument;
    }
    var first := FirstOctet(fin, opcode);
    data.Set(0, first);
    if |payload| > UINT16_MAX {
      return InvalidArgument;
    }
    var headerSize := BuildLength(data, |payload|);
    ghost var head := data.bytes;
    BuiltHead(head, Frame(fin, opcode, payload));
    data.Resize(headerSize + |payload|);
    CopyInto(data, headerSize, payload);
    assert data.bytes == head + [] + payload;
    r := Ok(WebSocketFrame(data.bytes));
  }

  /** The part of the constructor that combines FIN bit and opcode. */
  method FirstOctet(fin: bool, opcode: Byte) returns (b: Byte)
    requires opcode <= 15
    ensures b == (if fin then 128 else 0) + opcode
  {
    b := 0;
    if fin {
      b := 0x80;
    }
    HeaderMasks(opcode);
    b := Or(b, opcode);
  }

  /** The part of the constructor that writes the length field. */
  method BuildLength(data: ByteBuffer, payloadLength: nat) returns (headerSize: nat)
    requires |data.bytes| == 2 && data.bytes[1] == 0 && payloadLength <= UINT16_MAX
    modifies data
    ensures var form := Minimal(payloadLength);
      && headerSize == 2 + ExtraBytes(form)
      && data.bytes == [old(data.bytes)[0], Len7(form, payloadLength)] + ToBigEndian(payloadLength, ExtraBytes(form))
  {
    hide And;
    hide Or;
    headerSize := 2;
    Pow256Two();
    if payloadLength < 126 {
      HeaderMasks(payloadLength);
      data.Set(1, Or(data.bytes[1], payloadLength));
    } else {
      HeaderMasks(126);
      data.Set(1, Or(data.bytes[1], 126));
      headerSize := headerSize + 2;
      data.Resize(headerSize);
      Hton(data, 2, payloadLength, 2);
    }
  }

  lemma {:induction false} BuiltHead(head: seq<Byte>, f: Frame)
    requires Sendable(f)
    requires var form := Minimal(|f.payload|);
      && var first := (if f.fin then 128 else 0) + f.opcode;
      head == [first, Len7(form, |f.payload|)] + ToBigEndian(|f.payload|, ExtraBytes(form))
    ensures head + [] + f.payload == Encode(f)
  {
  }

  /** `std::memcpy` into a buffer. */
  method CopyInto(data: ByteBuffer, at: nat, source: seq<Byte>)
    requires at + |source| <= |data.bytes|
    modifies data
    ensures data.bytes == old(data.bytes)[..at] + source + old(data.bytes)[at + |source|..]
  {
    ghost var was := data.bytes;
    var i := 0;
    while i < |source|
      invariant 0 <= i <= |source|
      invariant data.bytes == was[..at] + source[..i] + was[at + i..]
    {
      data.Set(at + i, source[i]);
      assert source[..i + 1] == source[..i] + [source[i]];
      i := i + 1;
    }
    assert source[..i] == source;
  }

  function CloseFrame(reasonCode: nat): (f: Frame)
    ensures Sendable(f)
  {
    Frame(true, OPCODE_CONNECTION_CLOSE, ToBigEndian(reasonCode, 2))
  }

  /** The four octets of a Close frame: FIN and opcode 8, length 2, the reason code. */
  lemma {:induction false} CloseFrameOctets(reasonCode: nat)
    requires reasonCode <= UINT16_MAX
    ensures Encode(CloseFrame(reasonCode)) == [0x88, 2, reasonCode / 256, reasonCode % 256]
  {
    Pow256Two();
    assert ToBigEndian(reasonCode / 256, 1) == [reasonCode / 256];
    assert ToBigEndian(2, 0) == [];
  }

  method CreateConnectionClose(reasonCode: nat) returns (r: WebSocketFrame)
    requires reasonCode <= UINT16_MAX
    ensures r == WebSocketFrame(Encode(CloseFrame(reasonCode)))
  {
    var payload := new ByteBuffer(2);
    Pow256Two();
    Hton(payload, 0, reasonCode, 2);
    assert payload.bytes == ToBigEndian(reasonCode, 2);
    var built := Build(payload.bytes, true, OPCODE_CONNECTION_CLOSE);
    r := built.value;
  }

  method CreatePong(payload: seq<Byte>) returns (r: Result<WebSocketFrame>)
    ensures r == if |payload| > UINT16_MAX then InvalidArgument
                 else Ok(WebSocketFrame(Encode(Frame(true, OPCODE_CONNECTION_PONG, payload))))
  {
    r := Build(payload, true, OPCODE_CONNECTION_PONG);
  }

  /** The buffer after `decode`: an unmasked payload is copied to the start of the grown buffer. */
  function AfterDecode(buffer: seq<Byte>, inc: Incoming): (r: seq<Byte>)
    ensures |r| == |buffer| + |inc.frame.payload|
  {
    var p := inc.frame.payload;
    if inc.masked then buffer + p else p + (buffer + Zeros(|p|))[|p|..]
  }

  /**
   Appending is what the callers of `decode` rely on. Without a mask it happens for every payload of a given
   length only if there is nothing to append to or nothing to append.
   */
  lemma {:induction false} UnmaskedAppendsIff(buffer: seq<Byte>, n: nat, fin: bool, opcode: nat, used: nat)
    ensures (forall p: seq<Byte> :: |p| == n ==>
               AfterDecode(buffer, Incoming(Frame(fin, opcode, p), false, used)) == buffer + p)
            <==> (buffer == [] || n == 0)
  {
    if buffer != [] && n != 0 {
      var p: seq<Byte> := seq(n, _ => if buffer[0] == 0 then 1 else 0);
      assert AfterDecode(buffer, Incoming(Frame(fin, opcode, p), false, used))[0] == p[0] != (buffer + p)[0];
    } else {
      forall p: seq<Byte> | |p| == n
        ensures AfterDecode(buffer, Incoming(Frame(fin, opcode, p), false, used)) == buffer + p
      {
      }
    }
  }

  /** An octet with those bits flipped that the key octet has. */
  ghost predicate Flipped(now: Byte, raw: Byte, key: Byte)
  {
    forall k: nat :: Bit(now, k) <==> Bit(raw, k) != Bit(key, k)
  }

  /** From a place in the buffer on, octet i is raw octet i after the key, flipped by key octet i mod 4. */
  ghost predicate FlippedByKey(raw: seq<Byte>, offset: nat, now: seq<Byte>, at: nat, n: nat)
  {
    && offset + 4 + n <= |raw| && |now| == at + n
    && forall j :: at <= j < |now| ==> Flipped(now[j], raw[offset + 4 + (j - at)], raw[offset + (j - at) % 4])
  }

  /** What unmasking does to the octets of a read (section 5.3 of RFC 6455), bit by bit. */
  lemma {:induction false} UnmaskedBits(raw: seq<Byte>, buffer: seq<Byte>)
    requires Read(raw).Some? && Read(raw).value.masked
    ensures var h := ReadHeader(raw).value;
      FlippedByKey(raw, h.offset, AfterDecode(buffer, Read(raw).value), |buffer|, h.length)
  {
    hide Flipped;
    hide Xor;
    hide ReadHeader;
    var Header(masked, n, offset) := ReadHeader(raw).value;
    var now := AfterDecode(buffer, Read(raw).value);
    forall j | |buffer| <= j < |now|
      ensures Flipped(now[j], raw[offset + 4 + (j - |buffer|)], raw[offset + (j - |buffer|) % 4])
    {
      var i := j - |buffer|;
      assert now[j] == XorByte(raw[offset + 4 + i], raw[offset + i % 4]);
      XorFlips(raw[offset + 4 + i], raw[offset + i % 4]);
    }
  }

  lemma {:induction false} XorFlips(raw: Byte, key: Byte)
    ensures Flipped(XorByte(raw, key), raw, key)
  {
    hide Xor;
    hide Bit;
    forall k: nat
      ensures Bit(XorByte(raw, key), k) <==> Bit(raw, k) != Bit(key, k)
    {
      OperatorBits(raw, key, k);
    }
  }

  lemma {:induction false} MaskBit(raw: seq<Byte>)
    requires Read(raw).Some?
    ensures Read(raw).value.masked == ReadHeader(raw).value.masked == (raw[1] >= 128)
  {
  }

  /**
   `decode`. The header is trusted: the caller must hand over at least the announced number of octets
   (anything after them is ignored), or fewer than two.
   */
  method Decode(buf: seq<Byte>, payloadBuf: ByteBuffer) returns (r: Result<(nat, bool)>)
    requires |buf| < 2 || Read(buf).Some?
    modifies payloadBuf
    ensures |buf| < 2 ==> r == InvalidArgument && payloadBuf.bytes == old(payloadBuf.bytes)
    ensures |buf| >= 2 ==> r == Ok((Read(buf).value.frame.opcode, Read(buf).value.frame.fin))
    ensures |buf| >= 2 ==> payloadBuf.bytes == AfterDecode(old(payloadBuf.bytes), Read(buf).value)
    ensures |buf| >= 2 && buf[1] >= 128 ==>
              && old(payloadBuf.bytes) <= payloadBuf.bytes
              && FlippedByKey(buf, ReadHeader(buf).value.offset, payloadBuf.bytes, |old(payloadBuf.bytes)|,
                              ReadHeader(buf).value.length)
  {
    hide FlippedByKey;
    hide And;
    hide Xor;
    hide ReadHeader;
    if |buf| < 2 {
      return InvalidArgument;
    }
    var mask, frameLen, payloadOffset := DecodeHeader(buf);
    HeaderMasks(buf[0]);
    var opcode := And(buf[0], 0x0f);
    StorePayload(buf, mask, frameLen, payloadOffset, payloadBuf);
    MaskBit(buf);
    if mask { UnmaskedBits(buf, old(payloadBuf.bytes)); }
    r := Ok((opcode, And(buf[0], 0x80) == 0x80));
  }

  /** The part of `decode` that fills the buffer. */
  method StorePayload(buf: seq<Byte>, mask: bool, frameLen: nat, payloadOffset: nat, payloadBuf: ByteBuffer)
    requires Read(buf).Some? && ReadHeader(buf).value == Header(mask, frameLen, payloadOffset)
    modifies payloadBuf
    ensures payloadBuf.bytes == AfterDecode(old(payloadBuf.bytes), Read(buf).value)
  {
    hide ReadHeader;
    var oldPayloadSize := |payloadBuf.bytes|;
    payloadBuf.Resize(oldPayloadSize + frameLen);
    if mask {
      var key := buf[payloadOffset..payloadOffset + 4];
      Unmask(buf[payloadOffset + 4..payloadOffset + 4 + frameLen], key, payloadBuf, oldPayloadSize);
      assert payloadBuf.bytes == old(payloadBuf.bytes) + Read(buf).value.frame.payload;
    } else {
      CopyInto(payloadBuf, 0, buf[payloadOffset..payloadOffset + frameLen]);
    }
  }

  /** The part of `decode` that reads mask bit and length. */
  method DecodeHeader(buf: seq<Byte>) returns (mask: bool, frameLen: nat, payloadOffset: nat)
    requires ReadHeader(buf).Some?
    ensures ReadHeader(buf).value == Header(mask, frameLen, payloadOffset)
  {
    HeaderMasks(buf[1]);
    frameLen := And(buf[1], 0x7f);
    mask := And(buf[1], 0x80) == 0x80;
    payloadOffset := 2;
    if frameLen == 126 {
      assert buf[2..][..2] == buf[2..4];
      frameLen := Ntoh(buf[2..], 2);
      payloadOffset := payloadOffset + 2;
    } else if frameLen == 127 {
      assert buf[2..][..8] == buf[2..10];
      frameLen := Ntoh(buf[2..], 8);
      payloadOffset := payloadOffset + 8;
    }
  }

  /** The unmasking loop of `decode`. */
  method Unmask(body: seq<Byte>, key: Key, payloadBuf: ByteBuffer, at: nat)
    requires at + |body| == |payloadBuf.bytes|
    modifies payloadBuf
    ensures payloadBuf.bytes == old(payloadBuf.bytes)[..at] + Mask(key, body)
  {
    ghost var was, out := payloadBuf.bytes, Mask(key, body);
    var cnt := 0;
    while cnt < |body|
      invariant 0 <= cnt <= |body|
      invariant payloadBuf.bytes == was[..at] + out[..cnt] + was[at + cnt..]
    {
      payloadBuf.Set(at + cnt, XorByte(body[cnt], key[cnt % 4]));
      assert out[..cnt + 1] == out[..cnt] + [out[cnt]];
      cnt := cnt + 1;
    }
    assert out[..cnt] == out;
  }

  /** A masked frame in any legal shape, followed by anything, is appended unmasked to what was there. */
  lemma {:induction false} MaskedDecodeAppends(buffer: seq<Byte>, f: Frame, w: Wire, tail: seq<Byte>)
    requires Legal(f, w) && w.key.Some?
    ensures var r := Read(Serialize(f, w) + tail);
      r.Some? && r.value.frame == f && AfterDecode(buffer, r.value) == buffer + f.payload
  {
    ReadSerialized(f, w, tail);
  }

  /** Encoding and then decoding into an empty buffer gives back FIN bit, opcode and payload. */
  lemma {:induction false} CodecRoundTrip(f: Frame)
    requires Sendable(f)
    ensures var r := Read(Encode(f));
      r.Some? && r.value.frame == f && AfterDecode([], r.value) == f.payload
  {
    ReadEncoded(f, []);
    assert Encode(f) + [] == Encode(f);
  }
}
