/**
 The WebSocket wire format of sections 5.2 and 5.3 of RFC 6455, written down without reference to the
 implementation: how a frame may be serialized, how one is read off the front of a byte stream, and how a
 stream of frames is split.
 */
module Rfc6455 {
  import opened Bytes
  import opened ByteOrder

  datatype Option<+T> = None | Some(value: T)

  datatype Frame = Frame(fin: bool, opcode: nat, payload: seq<Byte>)

  type Key = k: seq<Byte> | |k| == 4 witness [0, 0, 0, 0]

  /** The three ways to announce a payload length. */
  datatype LengthForm = Short | Medium | Long

  /** The sender's freedom: reserved bits, length form and masking key. */
  datatype Wire = Wire(rsv: nat, form: LengthForm, key: Option<Key>)

  function ExtraBytes(form: LengthForm): nat
  {
    match form case Short => 0 case Medium => 2 case Long => 8
  }

  predicate Fits(form: LengthForm, n: nat)
  {
    match form case Short => n < 126 case Medium => n < 65536 case Long => n < Pow256(8)
  }

  function Len7(form: LengthForm, n: nat): (b: nat)
    requires Fits(form, n)
    ensures b < 128
  {
    match form case Short => n case Medium => 126 case Long => 127
  }

  function FormOf(len7: nat): LengthForm
  {
    if len7 == 126 then Medium else if len7 == 127 then Long else Short
  }

  /** Octet i of the payload is XOR-ed with octet i modulo 4 of the key. */
  function Mask(key: Key, data: seq<Byte>): (r: seq<Byte>)
    ensures |r| == |data|
  {
    seq(|data|, i requires 0 <= i < |data| => XorByte(data[i], key[i % 4]))
  }

  lemma {:induction false} MaskTwice(key: Key, data: seq<Byte>)
    ensures Mask(key, Mask(key, data)) == data
  {
    forall i | 0 <= i < |data|
      ensures Mask(key, Mask(key, data))[i] == data[i]
    {
      XorByteTwice(data[i], key[i % 4]);
    }
  }

  predicate Legal(f: Frame, w: Wire)
  {
    f.opcode < 16 && w.rsv < 8 && Fits(w.form, |f.payload|)
  }

  // The four parts of a frame: two header octets, extended length, masking key, masked payload.

  function First(f: Frame, w: Wire): (h: seq<Byte>)
    requires Legal(f, w)
    ensures |h| == 2
  {
    [(if f.fin then 128 else 0) + 16 * w.rsv + f.opcode,
     (if w.key.Some? then 128 else 0) + Len7(w.form, |f.payload|)]
  }

  function KeyPart(w: Wire): seq<Byte>
  {
    if w.key.Some? then w.key.value else []
  }

  function Body(f: Frame, w: Wire): (b: seq<Byte>)
    ensures |b| == |f.payload|
  {
    if w.key.Some? then Mask(w.key.value, f.payload) else f.payload
  }

  function Serialize(f: Frame, w: Wire): (s: seq<Byte>)
    requires Legal(f, w)
    ensures |s| == 2 + ExtraBytes(w.form) + |KeyPart(w)| + |f.payload|
  {
    First(f, w) + ToBigEndian(|f.payload|, ExtraBytes(w.form)) + KeyPart(w) + Body(f, w)
  }

  /** A parsed header: payload length and the offset just after the length field. */
  datatype Header = Header(masked: bool, length: nat, offset: nat)

  function ReadHeader(s: seq<Byte>): (r: Option<Header>)
    ensures r.Some? ==> 2 <= r.value.offset <= |s|
  {
    if |s| < 2 then None else
      var ext := ExtraBytes(FormOf(s[1] % 128));
      if |s| < 2 + ext then None else
        Some(Header(s[1] >= 128, if ext == 0 then s[1] % 128 else BigEndian(s[2..2 + ext]), 2 + ext))
  }

  datatype Incoming = Incoming(frame: Frame, masked: bool, used: nat)

  /** Reads one frame off the front of a byte string; None when the frame is not complete. */
  function Read(s: seq<Byte>): (r: Option<Incoming>)
    ensures r.Some? ==> 2 <= r.value.used <= |s|
    ensures r.Some? ==> ReadHeader(s).Some? && |r.value.frame.payload| == ReadHeader(s).value.length
  {
    var h := ReadHeader(s);
    if h.None? then None else
      var Header(masked, n, offset) := h.value;
      var start := offset + (if masked then 4 else 0);
      if |s| < start + n then None else
        var body := s[start..start + n];
        var payload := if masked then Mask(s[offset..start], body) else body;
        Some(Incoming(Frame(s[0] >= 128, s[0] % 16, payload), masked, start + n))
  }

  lemma {:induction false} Slices(a: seq<Byte>, b: seq<Byte>, c: seq<Byte>, d: seq<Byte>, tail: seq<Byte>)
    ensures var s, i, j, k := a + b + c + d + tail, |a|, |a| + |b|, |a| + |b| + |c|;
      s[..i] == a && s[i..j] == b && s[j..k] == c && s[k..k + |d|] == d
  {
    var s := a + b + c + d + tail;
    assert s == a + b + (c + d + tail);
    assert s == a + b + c + (d + tail);
  }

  /** The parts of a serialized frame, found at their places in a byte string. */
  ghost predicate LaidOut(s: seq<Byte>, f: Frame, w: Wire)
    requires Legal(f, w)
  {
    var n, j := |f.payload|, 2 + ExtraBytes(w.form);
    var k := j + |KeyPart(w)|;
    |s| >= k + n && s[..2] == First(f, w) && s[2..j] == ToBigEndian(n, j - 2) && s[j..k] == KeyPart(w)
    && s[k..k + n] == Body(f, w)
  }

  lemma {:induction false} FirstFields(f: Frame, w: Wire)
    requires Legal(f, w)
    ensures var h := First(f, w);
      && (h[0] >= 128 <==> f.fin) && h[0] % 16 == f.opcode
      && (h[1] >= 128 <==> w.key.Some?) && h[1] % 128 == Len7(w.form, |f.payload|)
      && FormOf(h[1] % 128) == w.form
  {
  }

  lemma {:induction false} Pow256Two()
    ensures Pow256(2) == 65536
  {
    assert Pow256(1) == 256;
  }

  lemma {:induction false} HeaderLaidOut(s: seq<Byte>, f: Frame, w: Wire)
    requires Legal(f, w) && LaidOut(s, f, w)
    ensures ReadHeader(s) == Some(Header(w.key.Some?, |f.payload|, 2 + ExtraBytes(w.form)))
    ensures (s[0] >= 128 <==> f.fin) && s[0] % 16 == f.opcode
  {
    assert s[0] == s[..2][0] && s[1] == s[..2][1];
    FirstFields(f, w);
    Pow256Two();
    if w.form != Short { ReadAfterWrite(|f.payload|, ExtraBytes(w.form)); }
  }

  lemma {:induction false} ReadLaidOut(s: seq<Byte>, f: Frame, w: Wire)
    requires Legal(f, w) && LaidOut(s, f, w)
    ensures Read(s) == Some(Incoming(f, w.key.Some?, 2 + ExtraBytes(w.form) + |KeyPart(w)| + |f.payload|))
  {
    HeaderLaidOut(s, f, w);
    if w.key.Some? { MaskTwice(w.key.value, f.payload); }
  }

  lemma {:induction false} SerializedIsLaidOut(f: Frame, w: Wire, tail: seq<Byte>)
    requires Legal(f, w)
    ensures LaidOut(Serialize(f, w) + tail, f, w)
  {
    Slices(First(f, w), ToBigEndian(|f.payload|, ExtraBytes(w.form)), KeyPart(w), Body(f, w), tail);
  }

  /** The sender's freedom can be read back too: reserved bits, length form, and the key in its place. */
  lemma {:induction false} ShapeRead(f: Frame, w: Wire, tail: seq<Byte>)
    requires Legal(f, w)
    ensures var s, j := Serialize(f, w) + tail, 2 + ExtraBytes(w.form);
      && s[0] / 16 % 8 == w.rsv && FormOf(s[1] % 128) == w.form
      && (w.key.Some? ==> j + 4 <= |s| && s[j..j + 4] == w.key.value)
  {
    var s := Serialize(f, w) + tail;
    SerializedIsLaidOut(f, w, tail);
    FirstFields(f, w);
    assert s[0] == s[..2][0] && s[1] == s[..2][1];
    assert (16 * w.rsv + f.opcode) / 16 == w.rsv;
  }

  /** Whatever freedom the sender uses and whatever follows, a reader recovers exactly the frame sent. */
  lemma {:induction false} ReadSerialized(f: Frame, w: Wire, tail: seq<Byte>)
    requires Legal(f, w)
    ensures Read(Serialize(f, w) + tail) == Some(Incoming(f, w.key.Some?, |Serialize(f, w)|))
  {
    SerializedIsLaidOut(f, w, tail);
    ReadLaidOut(Serialize(f, w) + tail, f, w);
  }

  /** The shortest form that holds a length. */
  function Minimal(n: nat): LengthForm
  {
    if n < 126 then Short else if n < 65536 then Medium else Long
  }

  /** What a server writes: no reserved bits, no mask, shortest length. */
  function ServerWire(n: nat): Wire
  {
    Wire(0, Minimal(n), None)
  }

  predicate Sendable(f: Frame)
  {
    f.opcode < 16 && |f.payload| < 65536
  }

  function Encode(f: Frame): (s: seq<Byte>)
    requires Sendable(f)
    ensures |s| >= 2
  {
    Serialize(f, ServerWire(|f.payload|))
  }

  lemma {:induction false} ReadEncoded(f: Frame, tail: seq<Byte>)
    requires Sendable(f)
    ensures Read(Encode(f) + tail) == Some(Incoming(f, false, |Encode(f)|))
  {
    ReadSerialized(f, ServerWire(|f.payload|), tail);
  }

  /** No legal serialization of a frame is shorter than the one a server writes. */
  lemma {:induction false} EncodeIsShortest(f: Frame, w: Wire)
    requires Sendable(f) && Legal(f, w)
    ensures |Encode(f)| <= |Serialize(f, w)|
  {
  }

  /** No encoded frame is a proper prefix of another. */
  lemma {:induction false} PrefixFree(f: Frame, g: Frame, tail: seq<Byte>)
    requires Sendable(f) && Sendable(g) && Encode(f) + tail == Encode(g)
    ensures f == g && tail == []
  {
    ReadEncoded(f, tail);
    ReadEncoded(g, []);
    assert Encode(g) + [] == Encode(g);
  }

  // Streams of frames

  predicate AllSendable(fs: seq<Frame>)
  {
    forall i :: 0 <= i < |fs| ==> Sendable(fs[i])
  }

  function EncodeAll(fs: seq<Frame>): (s: seq<Byte>)
    requires AllSendable(fs)
  {
    if fs == [] then [] else Encode(fs[0]) + EncodeAll(fs[1..])
  }

  /** Splits a whole byte stream into frames; None when it ends inside one. */
  function ReadAll(s: seq<Byte>): (r: Option<seq<Frame>>)
    decreases |s|
  {
    if s == [] then Some([]) else
      var first := Read(s);
      if first.None? then None else
        var rest := ReadAll(s[first.value.used..]);
        if rest.None? then None else Some([first.value.frame] + rest.value)
  }

  lemma {:induction false} ReadAllCons(f: Frame, rest: seq<Byte>, fs: seq<Frame>)
    requires Sendable(f) && ReadAll(rest) == Some(fs)
    ensures ReadAll(Encode(f) + rest) == Some([f] + fs)
  {
    var e := Encode(f);
    ReadEncoded(f, rest);
    assert (e + rest)[|e|..] == rest;
  }

  /** A stream of encoded frames splits into exactly those frames. */
  lemma {:induction false} ReadAllEncoded(fs: seq<Frame>)
    requires AllSendable(fs)
    ensures ReadAll(EncodeAll(fs)) == Some(fs)
  {
    if fs != [] {
      hide Read;
      hide Encode;
      ReadAllEncoded(fs[1..]);
      ReadAllCons(fs[0], EncodeAll(fs[1..]), fs[1..]);
      assert [fs[0]] + fs[1..] == fs;
    }
  }

  /** Two frame lists with the same bytes are the same list: a stream splits in only one way. */
  lemma {:induction false} UniquelyDecodable(fs: seq<Frame>, gs: seq<Frame>)
    requires AllSendable(fs) && AllSendable(gs) && EncodeAll(fs) == EncodeAll(gs)
    ensures fs == gs
  {
    ReadAllEncoded(fs);
    ReadAllEncoded(gs);
  }

  lemma {:induction false} EncodeAllAppend(fs: seq<Frame>, gs: seq<Frame>)
    requires AllSendable(fs) && AllSendable(gs)
    ensures AllSendable(fs + gs) && EncodeAll(fs + gs) == EncodeAll(fs) + EncodeAll(gs)
  {
    if fs == [] {
      assert fs + gs == gs;
    } else {
      assert (fs + gs)[1..] == fs[1..] + gs;
      EncodeAllAppend(fs[1..], gs);
      var e := Encode(fs[0]);
      assert e + (EncodeAll(fs[1..]) + EncodeAll(gs)) == (e + EncodeAll(fs[1..])) + EncodeAll(gs);
    }
  }
}
