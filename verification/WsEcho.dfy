/** The echo handler: from the fragments a client sends to the frames it reads back. */
module WsEcho {
  import opened Bytes
  import opened Delimited
  import opened Rfc6455
  import opened Frames
  import opened Reassembly

  /** `WsEchoHandler`: text is sent back as text, binary as binary. */
  function Echo(calls: seq<Callback>): Reaction
  {
    if calls == [] then Reaction([], Returns)
    else match calls[|calls| - 1]
      case OnData(b) => Reaction([SendBinary(b)], Returns)
      case OnText(t) => Reaction([SendText(t)], Returns)
  }

  function FrameFor(m: Message): Frame
  {
    Frame(true, m.opcode, m.payload)
  }

  /** What an echo can carry: 16-bit lengths, and no NUL in text. */
  predicate Echoable(m: Message)
  {
    DataOpcode(m.opcode) && |m.payload| <= UINT16_MAX && (m.opcode == OPCODE_TEXT ==> 0 !in m.payload)
  }

  /** The session after a faithful echo: the message's frame on the wire, buffer empty, ready for the next. */
  function AfterEcho(s: Session, m: Message): Session
    requires Sendable(FrameFor(m))
  {
    s.(opcode := m.opcode, inBuf := [], link := s.link.(wire := s.link.wire + Encode(FrameFor(m))),
       calls := s.calls + [CallFor(m.opcode, m.payload)])
  }

  lemma {:induction false} EncodeInjective(f: Frame, g: Frame)
    requires Sendable(f) && Sendable(g) && Encode(f) == Encode(g)
    ensures f == g
  {
    hide Encode;
    assert Encode(f) + [] == Encode(f);
    PrefixFree(f, g, []);
  }

  /** The octets an echo of the message carries: a text ends at its first NUL. */
  function Sent(m: Message): seq<Byte>
  {
    if m.opcode == OPCODE_TEXT then CString(m.payload) else m.payload
  }

  /** What stays in the buffer when the frame constructor throws. */
  function Kept(m: Message): seq<Byte>
  {
    if m.opcode == OPCODE_TEXT then m.payload + [0] else m.payload
  }

  /** The session after the echo handler has seen a message, in every case. */
  function EchoResult(s: Session, m: Message): Session
    requires DataOpcode(m.opcode)
  {
    var called := s.(opcode := m.opcode, calls := s.calls + [CallFor(m.opcode, m.payload)]);
    if |Sent(m)| > UINT16_MAX then called.(inBuf := Kept(m))
    else called.(inBuf := [], link := Transmit(s.link, Encode(Frame(true, m.opcode, Sent(m)))))
  }

  /** A handler that makes one request and returns. */
  lemma {:induction false} InvokeOne(h: Handler, s: Session, call: Callback, request: Request)
    requires h(s.calls + [call]) == Reaction([request], Returns)
    ensures var (link, threw) := Perform(s.link, request);
      Invoke(h, s, call) == s.(calls := s.calls + [call], link := link, inBuf := if threw then s.inBuf else [])
  {
    hide Perform;
    assert [request][1..] == [];
    var (link, threw) := Perform(s.link, request);
    assert PerformAll(link, []) == (link, false);
  }

  lemma {:induction false} EchoBinary(s: Session, m: Message)
    requires m.opcode == OPCODE_BINARY
    ensures Dispatch(Echo, s.(opcode := m.opcode, inBuf := m.payload)) == EchoResult(s, m)
  {
    hide Encode;
    hide Invoke;
    hide PerformAll;
    InvokeOne(Echo, s.(opcode := m.opcode, inBuf := m.payload), OnData(m.payload), SendBinary(m.payload));
  }

  lemma {:induction false} EchoText(s: Session, m: Message)
    requires m.opcode == OPCODE_TEXT
    ensures Dispatch(Echo, s.(opcode := m.opcode, inBuf := m.payload)) == EchoResult(s, m)
  {
    hide Encode;
    hide Invoke;
    hide PerformAll;
    CStringTerminated(m.payload);
    var text := CString(m.payload);
    assert CString(text) == text;
    hide UpTo;
    InvokeOne(Echo, s.(opcode := m.opcode, inBuf := m.payload + [0]), OnText(text), SendText(text));
  }

  lemma {:induction false} EchoDispatch(s: Session, m: Message)
    requires DataOpcode(m.opcode)
    ensures Dispatch(Echo, s.(opcode := m.opcode, inBuf := m.payload)) == EchoResult(s, m)
  {
    hide Dispatch;
    hide EchoResult;
    if m.opcode == OPCODE_TEXT { EchoText(s, m); } else { EchoBinary(s, m); }
  }

  lemma {:induction false} WireDiffers(wire: seq<Byte>, f: Frame, g: Frame)
    requires Sendable(f) && Sendable(g) && f != g
    ensures wire + Encode(f) != wire + Encode(g)
  {
    hide Encode;
    if Encode(f) == Encode(g) { EncodeInjective(f, g); }
    assert (wire + Encode(f))[|wire|..] == Encode(f);
    assert (wire + Encode(g))[|wire|..] == Encode(g);
  }

  /** A delivered message is echoed faithfully exactly when it is echoable. */
  lemma {:induction false} EchoExactIff(s: Session, m: Message)
    requires DataOpcode(m.opcode) && !s.link.closed
    ensures Echoable(m) <==>
            Sendable(FrameFor(m)) && Dispatch(Echo, s.(opcode := m.opcode, inBuf := m.payload)) == AfterEcho(s, m)
  {
    hide Dispatch;
    hide Encode;
    hide UpTo;
    EchoDispatch(s, m);
    if m.opcode == OPCODE_TEXT && 0 in m.payload && |m.payload| <= UINT16_MAX {
      WireDiffers(s.link.wire, Frame(true, m.opcode, CString(m.payload)), FrameFor(m));
    }
  }

  // Oversized messages

  /** A session whose buffer can no longer be echoed. */
  predicate Stuck(s: Session)
  {
    && DataOpcode(s.opcode) && s.inBuf != [] && !s.link.closed && !s.escaped
    && |Sent(Message(s.opcode, s.inBuf))| > UINT16_MAX
  }

  lemma {:induction false} SentGrows(opcode: nat, a: seq<Byte>, b: seq<Byte>)
    ensures |Sent(Message(opcode, a))| <= |Sent(Message(opcode, a + b))|
  {
    hide UpTo;
    UpToGrows(a, b, 0);
  }

  /** After a terminated text, whatever is appended, the string is that text. */
  lemma {:induction false} KeptText(payload: seq<Byte>, more: seq<Byte>)
    ensures CString(payload + [0] + more) == CString(payload)
  {
    hide UpTo;
    UpToTerminated(payload, 0, more);
  }

  lemma {:induction false} EchoStuck(s: Session, m: Message)
    requires DataOpcode(m.opcode) && |Sent(m)| > UINT16_MAX && !s.link.closed && !s.escaped
    ensures var r := Dispatch(Echo, s.(opcode := m.opcode, inBuf := m.payload));
      r == EchoResult(s, m) && Stuck(r) && r.link == s.link
  {
    hide Dispatch;
    hide UpTo;
    EchoDispatch(s, m);
    SentGrows(m.opcode, m.payload, [0]);
    assert m.opcode != OPCODE_TEXT ==> Sent(m) == m.payload;
  }

  lemma {:induction false} StuckStays(s: Session, inc: Incoming)
    requires Stuck(s) && inc.masked
    ensures Stuck(Take(Echo, s, inc)) && Take(Echo, s, inc).link == s.link
  {
    hide Dispatch;
    hide Sent;
    hide EchoResult;
    SentGrows(s.opcode, s.inBuf, inc.frame.payload);
    EchoStuck(s, Message(s.opcode, s.inBuf + inc.frame.payload));
  }

  predicate AllMasked(chunks: seq<seq<Byte>>)
    requires AllAcceptable(chunks)
  {
    forall i :: 0 <= i < |chunks| && |chunks[i]| >= 2 ==> Read(chunks[i]).value.masked
  }

  /** From then on the connection is mute: whatever frames the client sends, a Close included, nothing comes back. */
  lemma {:induction false} MuteForever(s: Session, chunks: seq<seq<Byte>>)
    requires Stuck(s) && AllAcceptable(chunks) && AllMasked(chunks)
    ensures Run(Echo, s, chunks).link == s.link
    decreases |chunks|
  {
    hide Stuck;
    hide Take;
    hide Read;
    if chunks != [] && !s.link.closed && !s.escaped {
      if |chunks[0]| >= 2 { StuckStays(s, Read(chunks[0]).value); }
      MuteForever(Receive(Echo, s, chunks[0]), chunks[1..]);
    }
  }

  /**
   What an oversized message leaves behind. Nothing is sent and the buffer is not cleared. The next message, in
   whatever pieces it comes, is glued to a binary one; after a text, the handler gets the old text again and the
   next message is lost. And nothing is ever echoed again.
   */
  lemma {:induction false} OversizedSpoilsNext(s: Session, m: Message, opcode: nat, cut: seq<Fragment>)
    requires DataOpcode(m.opcode) && |Sent(m)| > UINT16_MAX && !s.link.closed && !s.escaped
    requires DataOpcode(opcode) && LegalCut(cut) && cut != []
    ensures var left := Dispatch(Echo, s.(opcode := m.opcode, inBuf := m.payload));
      var call := if m.opcode == OPCODE_TEXT then OnText(CString(m.payload)) else OnData(m.payload + Joined(cut));
      && left.link == s.link && left.inBuf == Kept(m) && Stuck(left)
      && Run(Echo, left, Chunks(opcode, cut, true)).calls == left.calls + [call]
  {
    hide Dispatch;
    hide Chunks;
    hide Run;
    hide UpTo;
    EchoStuck(s, m);
    var left := EchoResult(s, m);
    KeptText(m.payload, Joined(cut));
    hide Stuck;
    hide Sent;
    Reassemble(Echo, left, opcode, cut, true);
    DispatchCalls(Echo, left.(inBuf := Kept(m) + Joined(cut)));
  }

  predicate AllEchoable(ts: seq<Transfer>)
  {
    AllLegal(ts) && forall i :: 0 <= i < |ts| ==> Echoable(ts[i].message)
  }

  function FramesOf(ts: seq<Transfer>): (fs: seq<Frame>)
    requires AllEchoable(ts)
    ensures AllSendable(fs) && |fs| == |ts|
    ensures forall i :: 0 <= i < |ts| ==> fs[i] == FrameFor(ts[i].message)
  {
    if ts == [] then [] else [FrameFor(ts[0].message)] + FramesOf(ts[1..])
  }

  lemma {:induction false} EchoOne(s: Session, t: Transfer)
    requires LegalTransfer(t) && Echoable(t.message) && s.inBuf == [] && !s.link.closed && !s.escaped
    ensures Run(Echo, s, Chunks(t.message.opcode, t.cut, true)) == AfterEcho(s, t.message)
  {
    hide Dispatch;
    hide Run;
    hide Chunks;
    DeliveredIffWhole(Echo, s, t.message.opcode, t.cut);
    EchoExactIff(s, t.message);
  }

  lemma {:induction false} EchoStream(s: Session, ts: seq<Transfer>)
    requires AllEchoable(ts) && s.inBuf == [] && !s.link.closed && !s.escaped
    ensures var r := Run(Echo, s, AllChunks(ts));
      r.link == Link(s.link.wire + EncodeAll(FramesOf(ts)), false) && r.inBuf == [] && !r.escaped
    decreases |ts|
  {
    hide Receive;
    hide Chunks;
    hide Encode;
    hide Acceptable;
    hide LegalCut;
    hide Joined;
    if ts == [] {
      assert s.link.wire + [] == s.link.wire;
    } else {
      var t := ts[0];
      var s1 := AfterEcho(s, t.message);
      EchoOne(s, t);
      RunAppend(Echo, s, Chunks(t.message.opcode, t.cut, true), AllChunks(ts[1..]));
      EchoStream(s1, ts[1..]);
      assert FramesOf(ts)[1..] == FramesOf(ts[1..]);
      assert s.link.wire + Encode(FrameFor(t.message)) + EncodeAll(FramesOf(ts[1..]))
          == s.link.wire + EncodeAll(FramesOf(ts));
    }
  }

  /**
   Echo, end to end. For every list of echoable messages, every legal cut of each, every masking key, reserved
   bit and length form, and short reads inserted anywhere, the octets written from then on split, by section 5.2
   of RFC 6455, into exactly those messages with their opcodes, in order.
   */
  lemma {:induction false} EchoEndToEnd(s: Session, ts: seq<Transfer>, chunks: seq<seq<Byte>>)
    requires AllEchoable(ts) && s.inBuf == [] && !s.link.closed && !s.escaped
    requires AllAcceptable(chunks) && WithoutShort(chunks) == AllChunks(ts)
    ensures var r := Run(Echo, s, chunks);
      && r.link.wire == s.link.wire + EncodeAll(FramesOf(ts))
      && ReadAll(r.link.wire[|s.link.wire|..]) == Some(FramesOf(ts))
      && r.inBuf == [] && !r.link.closed && !r.escaped
  {
    hide Run;
    hide AllChunks;
    hide EncodeAll;
    hide ReadAll;
    ShortReadsIgnored(Echo, s, chunks);
    EchoStream(s, ts);
    ReadAllEncoded(FramesOf(ts));
    var out := EncodeAll(FramesOf(ts));
    assert (s.link.wire + out)[|s.link.wire|..] == out;
  }
}
