/**
 The WebSocket side of one connection: what `HttpWsState::onReceive` does to the reassembly buffer, the sticky
 opcode, the handler and the connection, as a function of the state before and the bytes of one read.
 */
module Reassembly {
  import opened Bytes
  import opened Delimited
  import opened Rfc6455
  import opened Frames

  /** A message handed to the application: a buffer with a length, or a NUL-terminated string. */
  datatype Callback = OnData(bytes: seq<Byte>) | OnText(text: seq<Byte>)

  /** What an application does through its `WsConnection`. */
  datatype Request = SendBinary(bytes: seq<Byte>) | SendText(text: seq<Byte>) | CloseConnection

  datatype Ending = Returns | ThrowsInvalidArgument | ThrowsOther

  datatype Reaction = Reaction(requests: seq<Request>, ending: Ending)

  /** A handler: how it reacts to the latest callback, given all callbacks so far. */
  type Handler = seq<Callback> -> Reaction

  /** A connection as its peer sees it. */
  datatype Link = Link(wire: seq<Byte>, closed: bool)

  /** State of `HttpWsState`; `escaped` records an exception that left `onReceive`. */
  datatype Session = Session(opcode: nat, inBuf: seq<Byte>, link: Link, calls: seq<Callback>, escaped: bool)

  /** The string a `char const*` denotes. */
  function CString(s: seq<Byte>): seq<Byte>
  {
    UpTo(s, 0)
  }

  function Transmit(link: Link, bytes: seq<Byte>): Link
  {
    if link.closed then link else link.(wire := link.wire + bytes)
  }

  /** One request; the flag tells that the frame constructor threw `invalid_argument`. */
  function Perform(link: Link, request: Request): (Link, bool)
  {
    match request
    case SendBinary(b) =>
      if |b| > UINT16_MAX then (link, true) else (Transmit(link, Encode(Frame(true, OPCODE_BINARY, b))), false)
    case SendText(t) =>
      var s := CString(t);
      if |s| > UINT16_MAX then (link, true) else (Transmit(link, Encode(Frame(true, OPCODE_TEXT, s))), false)
    case CloseConnection =>
      (Transmit(link, Encode(CloseFrame(0))).(closed := true), false)
  }

  /** Requests in order; the first one that throws ends the handler. */
  function PerformAll(link: Link, requests: seq<Request>): (Link, bool)
    decreases |requests|
  {
    if requests == [] then (link, false) else
      var (l, threw) := Perform(link, requests[0]);
      if threw then (l, true) else PerformAll(l, requests[1..])
  }

  /** Requests take effect in their order; those after one that throws have none. */
  lemma {:induction false} PerformInOrder(link: Link, a: seq<Request>, b: seq<Request>)
    ensures var (l, threw) := PerformAll(link, a);
      PerformAll(link, a + b) == if threw then (l, true) else PerformAll(l, b)
    decreases |a|
  {
    hide Perform;
    if a == [] {
      assert a + b == b;
    } else {
      assert (a + b)[1..] == a[1..] + b;
      PerformInOrder(Perform(link, a[0]).0, a[1..], b);
    }
  }

  /** The frame of a request to send. */
  function FrameOf(request: Request): Frame
  {
    match request
    case SendBinary(b) => Frame(true, OPCODE_BINARY, b)
    case SendText(t) => Frame(true, OPCODE_TEXT, CString(t))
    case CloseConnection => CloseFrame(0)
  }

  /**
   Any number of sends that fit put their frames on the wire in their order, and a close at the end puts a Close
   frame last.
   */
  lemma {:induction false} FramesInOrder(link: Link, requests: seq<Request>)
    requires !link.closed && forall i :: 0 <= i < |requests| ==> Sendable(FrameOf(requests[i]))
    requires forall i :: 0 <= i < |requests| - 1 ==> !requests[i].CloseConnection?
    ensures var frames := seq(|requests|, i requires 0 <= i < |requests| => FrameOf(requests[i]));
      && AllSendable(frames)
      && PerformAll(link, requests) ==
         (Link(link.wire + EncodeAll(frames), requests != [] && requests[|requests| - 1].CloseConnection?), false)
    decreases |requests|
  {
    hide Encode;
    var frames := seq(|requests|, i requires 0 <= i < |requests| => FrameOf(requests[i]));
    if requests == [] {
      assert link.wire + EncodeAll(frames) == link.wire;
    } else {
      var (l, threw) := Perform(link, requests[0]);
      var rest := requests[1..];
      assert l.wire == link.wire + Encode(frames[0]) && !threw;
      assert frames[1..] == seq(|rest|, i requires 0 <= i < |rest| => FrameOf(rest[i]));
      assert link.wire + EncodeAll(frames) == l.wire + EncodeAll(frames[1..]);
      if rest == [] {
        assert PerformAll(l, []) == (l, false);
        assert l.wire + EncodeAll([]) == l.wire;
      } else {
        FramesInOrder(l, rest);
      }
    }
  }

  /** Calls the handler. Only a normal return clears the buffer. */
  function Invoke(h: Handler, s: Session, call: Callback): Session
  {
    var calls := s.calls + [call];
    var reaction := h(calls);
    var (link, threw) := PerformAll(s.link, reaction.requests);
    var t := s.(calls := calls, link := link);
    if threw || reaction.ending == ThrowsInvalidArgument then t
    else if reaction.ending == ThrowsOther then t.(escaped := true)
    else t.(inBuf := [])
  }

  /** The switch on the sticky opcode, once a final frame is in. */
  function Dispatch(h: Handler, s: Session): Session
  {
    if s.opcode == OPCODE_CONTINUATION then s.(escaped := true)
    else if s.opcode == OPCODE_CONNECTION_CLOSE then
      s.(link := Perform(s.link, CloseConnection).0, inBuf := [])
    else if s.opcode == OPCODE_CONNECTION_PING then
      if |s.inBuf| > UINT16_MAX then s else s.(link := Transmit(s.link, s.inBuf), inBuf := [])
    else if s.opcode == OPCODE_BINARY then Invoke(h, s, OnData(s.inBuf))
    else if s.opcode == OPCODE_TEXT then
      Invoke(h, s.(inBuf := s.inBuf + [0]), OnText(CString(s.inBuf + [0])))
    else s.(inBuf := [])
  }

  predicate Acceptable(chunk: seq<Byte>)
  {
    |chunk| < 2 || Read(chunk).Some?
  }

  /** The effect of one decoded frame. */
  function Take(h: Handler, s: Session, inc: Incoming): Session
  {
    var t := s.(opcode := if s.inBuf == [] then inc.frame.opcode else s.opcode, inBuf := AfterDecode(s.inBuf, inc));
    if inc.frame.fin then Dispatch(h, t) else t
  }

  /** `HttpWsState::onReceive`. */
  function Receive(h: Handler, s: Session, chunk: seq<Byte>): Session
    requires Acceptable(chunk)
  {
    if |chunk| < 2 then s else Take(h, s, Read(chunk).value)
  }

  predicate AllAcceptable(chunks: seq<seq<Byte>>)
  {
    forall i :: 0 <= i < |chunks| ==> Acceptable(chunks[i])
  }

  /** The worker hands over chunk after chunk until the connection is closed or an exception escapes. */
  function Run(h: Handler, s: Session, chunks: seq<seq<Byte>>): Session
    requires AllAcceptable(chunks)
    decreases |chunks|
  {
    if chunks == [] || s.link.closed || s.escaped then s
    else Run(h, Receive(h, s, chunks[0]), chunks[1..])
  }

  lemma {:induction false} RunAppend(h: Handler, s: Session, a: seq<seq<Byte>>, b: seq<seq<Byte>>)
    requires AllAcceptable(a) && AllAcceptable(b)
    ensures AllAcceptable(a + b) && Run(h, s, a + b) == Run(h, Run(h, s, a), b)
    decreases |a|
  {
    if a == [] {
      assert a + b == b;
    } else if !(s.link.closed || s.escaped) {
      assert (a + b)[1..] == a[1..] + b;
      RunAppend(h, Receive(h, s, a[0]), a[1..], b);
    }
  }

  // Reads shorter than a frame header

  function WithoutShort(chunks: seq<seq<Byte>>): (r: seq<seq<Byte>>)
    ensures AllAcceptable(chunks) ==> AllAcceptable(r)
  {
    if chunks == [] then []
    else (if |chunks[0]| < 2 then [] else [chunks[0]]) + WithoutShort(chunks[1..])
  }

  /** Inserting reads of fewer than two octets anywhere changes nothing at all. */
  lemma {:induction false} ShortReadsIgnored(h: Handler, s: Session, chunks: seq<seq<Byte>>)
    requires AllAcceptable(chunks)
    ensures Run(h, s, chunks) == Run(h, s, WithoutShort(chunks))
    decreases |chunks|
  {
    if chunks != [] && !s.link.closed && !s.escaped {
      ShortReadsIgnored(h, Receive(h, s, chunks[0]), chunks[1..]);
      if |chunks[0]| >= 2 {
        assert WithoutShort(chunks)[1..] == WithoutShort(chunks[1..]);
      } else {
        assert WithoutShort(chunks) == WithoutShort(chunks[1..]);
      }
    }
  }

  // Fragmented messages

  /** One fragment: its payload and the way the client puts it on the wire (always masked). */
  datatype Fragment = Fragment(payload: seq<Byte>, wire: Wire)

  predicate LegalCut(cut: seq<Fragment>)
  {
    forall i :: 0 <= i < |cut| ==> cut[i].wire.key.Some? && Legal(Frame(true, 0, cut[i].payload), cut[i].wire)
  }

  function Joined(cut: seq<Fragment>): (p: seq<Byte>)
  {
    if cut == [] then [] else cut[0].payload + Joined(cut[1..])
  }

  function Chunk(f: Fragment, fin: bool, opcode: nat): (c: seq<Byte>)
    requires f.wire.key.Some? && Legal(Frame(true, 0, f.payload), f.wire) && opcode < 16
    ensures Acceptable(c) && |c| >= 2
  {
    var c := Serialize(Frame(fin, opcode, f.payload), f.wire);
    ReadSerialized(Frame(fin, opcode, f.payload), f.wire, []);
    assert c + [] == c;
    c
  }

  lemma {:induction false} PrependFrame(first: seq<Byte>, rest: seq<seq<Byte>>)
    requires Acceptable(first) && |first| >= 2
    requires AllAcceptable(rest) && forall i :: 0 <= i < |rest| ==> |rest[i]| >= 2
    ensures AllAcceptable([first] + rest) && forall i :: 0 <= i < |[first] + rest| ==> |([first] + rest)[i]| >= 2
  {
    hide Acceptable;
  }

  /** The reads of fragments cut from a message: opcode on the first, FIN on the last if the message ends there. */
  function Chunks(opcode: nat, cut: seq<Fragment>, ends: bool): (cs: seq<seq<Byte>>)
    requires opcode < 16 && LegalCut(cut)
    ensures AllAcceptable(cs) && forall i :: 0 <= i < |cs| ==> |cs[i]| >= 2
  {
    if cut == [] then []
    else
      var first, rest := Chunk(cut[0], ends && |cut| == 1, opcode), Chunks(OPCODE_CONTINUATION, cut[1..], ends);
      PrependFrame(first, rest);
      [first] + rest
  }

  lemma {:induction false} ReceiveFragment(h: Handler, s: Session, f: Fragment, fin: bool, opcode: nat)
    requires f.wire.key.Some? && Legal(Frame(true, 0, f.payload), f.wire) && opcode < 16
    ensures var t := s.(opcode := if s.inBuf == [] then opcode else s.opcode, inBuf := s.inBuf + f.payload);
      Receive(h, s, Chunk(f, fin, opcode)) == if fin then Dispatch(h, t) else t
  {
    var frame := Frame(fin, opcode, f.payload);
    ReadSerialized(frame, f.wire, []);
    assert Serialize(frame, f.wire) + [] == Serialize(frame, f.wire);
  }

  /** The opcode in force after the fragments: it sticks once the buffer holds something. */
  function Sticky(s: Session, opcode: nat, cut: seq<Fragment>): nat
  {
    if s.inBuf != [] then s.opcode
    else if |cut| == 1 || cut == [] || cut[0].payload != [] then opcode
    else OPCODE_CONTINUATION
  }

  /**
   Every cut of a message has the effect of the joined payload arriving at once, except that the opcode is lost
   when a first fragment of several is empty. For fragments without a final one this is the buffer's invariant.
   */
  lemma {:induction false} Reassemble(h: Handler, s: Session, opcode: nat, cut: seq<Fragment>, ends: bool)
    requires opcode < 16 && LegalCut(cut) && cut != [] && !s.link.closed && !s.escaped
    ensures var t := s.(opcode := Sticky(s, opcode, cut), inBuf := s.inBuf + Joined(cut));
      Run(h, s, Chunks(opcode, cut, ends)) == if ends then Dispatch(h, t) else t
    decreases |cut|
  {
    hide Dispatch;
    hide Chunk;
    hide Receive;
    hide Acceptable;
    var cs := Chunks(opcode, cut, ends);
    var last := |cut| == 1;
    ReceiveFragment(h, s, cut[0], ends && last, opcode);
    var s1 := Receive(h, s, cs[0]);
    assert cs[1..] == Chunks(OPCODE_CONTINUATION, cut[1..], ends);
    if last {
      assert Joined(cut) == cut[0].payload;
      assert cs[1..] == [];
      assert Run(h, s1, []) == s1;
    } else {
      Reassemble(h, s1, OPCODE_CONTINUATION, cut[1..], ends);
      assert s.inBuf + cut[0].payload + Joined(cut[1..]) == s.inBuf + Joined(cut);
    }
  }

  predicate Whole(cut: seq<Fragment>)
  {
    |cut| == 1 || (|cut| > 1 && cut[0].payload != [])
  }

  predicate DataOpcode(opcode: nat)
  {
    opcode == OPCODE_TEXT || opcode == OPCODE_BINARY
  }

  function CallFor(opcode: nat, payload: seq<Byte>): Callback
  {
    if opcode == OPCODE_TEXT then OnText(CString(payload)) else OnData(payload)
  }

  lemma {:induction false} CStringTerminated(p: seq<Byte>)
    ensures CString(p + [0]) == CString(p)
  {
    UpToTerminated(p, 0, []);
    assert p + [0] + [] == p + [0];
  }

  /** A data opcode makes exactly one callback; opcode 0 makes none and lets an exception escape. */
  lemma {:induction false} DispatchCalls(h: Handler, s: Session)
    ensures DataOpcode(s.opcode) ==> Dispatch(h, s).calls == s.calls + [CallFor(s.opcode, s.inBuf)]
    ensures s.opcode == OPCODE_CONTINUATION ==> Dispatch(h, s) == s.(escaped := true)
  {
    hide PerformAll;
    hide CString;
    hide Encode;
    CStringTerminated(s.inBuf);
  }

  /**
   Fragmentation transparency. A text or binary message reaches the handler, once, with its own opcode and its
   whole payload, exactly when it came in one piece or its first fragment is not empty. Otherwise no callback is
   made and an exception ends the connection. Which cut was used leaves no other trace.
   */
  lemma {:induction false} DeliveredIffWhole(h: Handler, s: Session, opcode: nat, cut: seq<Fragment>)
    requires DataOpcode(opcode) && LegalCut(cut) && cut != []
    requires s.inBuf == [] && !s.link.closed && !s.escaped
    ensures var r, p := Run(h, s, Chunks(opcode, cut, true)), Joined(cut);
      && (r.calls == s.calls + [CallFor(opcode, p)] <==> Whole(cut))
      && (Whole(cut) ==> r == Dispatch(h, s.(opcode := opcode, inBuf := p)))
      && (!Whole(cut) ==> r.escaped && r.calls == s.calls && r.link == s.link)
  {
    Reassemble(h, s, opcode, cut, true);
    assert s.inBuf + Joined(cut) == Joined(cut);
    DispatchCalls(h, s.(opcode := Sticky(s, opcode, cut), inBuf := Joined(cut)));
    hide Dispatch;
    hide Run;
    hide Chunks;
  }

  /** Two cuts of the same message are indistinguishable to the handler and to the peer. */
  lemma {:induction false} CutsAreEquivalent(h: Handler, s: Session, opcode: nat, a: seq<Fragment>, b: seq<Fragment>)
    requires DataOpcode(opcode) && LegalCut(a) && LegalCut(b) && Whole(a) && Whole(b) && Joined(a) == Joined(b)
    requires s.inBuf == [] && !s.link.closed && !s.escaped
    ensures Run(h, s, Chunks(opcode, a, true)) == Run(h, s, Chunks(opcode, b, true))
  {
    DeliveredIffWhole(h, s, opcode, a);
    DeliveredIffWhole(h, s, opcode, b);
  }

  // Whole streams of messages

  datatype Message = Message(opcode: nat, payload: seq<Byte>)

  /** A message and the way a client cuts it. */
  datatype Transfer = Transfer(message: Message, cut: seq<Fragment>)

  predicate LegalTransfer(t: Transfer)
  {
    DataOpcode(t.message.opcode) && LegalCut(t.cut) && Whole(t.cut) && Joined(t.cut) == t.message.payload
  }

  predicate AllLegal(ts: seq<Transfer>)
  {
    forall i :: 0 <= i < |ts| ==> LegalTransfer(ts[i])
  }

  function AllChunks(ts: seq<Transfer>): (cs: seq<seq<Byte>>)
    requires AllLegal(ts)
    ensures AllAcceptable(cs)
  {
    if ts == [] then [] else Chunks(ts[0].message.opcode, ts[0].cut, true) + AllChunks(ts[1..])
  }

  function MessagesOf(ts: seq<Transfer>): (ms: seq<Message>)
    ensures |ms| == |ts| && forall i :: 0 <= i < |ts| ==> ms[i] == ts[i].message
  {
    seq(|ts|, i requires 0 <= i < |ts| => ts[i].message)
  }

  /** The bare messages, each appended to what the one before left in the buffer. */
  function Glue(h: Handler, s: Session, ms: seq<Message>): Session
    decreases |ms|
  {
    if ms == [] || s.link.closed || s.escaped then s
    else
      var opcode := if s.inBuf == [] then ms[0].opcode else s.opcode;
      Glue(h, Dispatch(h, s.(opcode := opcode, inBuf := s.inBuf + ms[0].payload)), ms[1..])
  }

  /**
   For every handler, whatever it throws or closes, what a stream of cut messages does, short reads included,
   depends on the messages only: the same callbacks, the same octets sent, the same end. No cut can be told from
   another.
   */
  lemma {:induction false} StreamTransparency(h: Handler, s: Session, ts: seq<Transfer>, chunks: seq<seq<Byte>>)
    requires AllLegal(ts) && AllAcceptable(chunks) && WithoutShort(chunks) == AllChunks(ts)
    ensures Run(h, s, chunks) == Glue(h, s, MessagesOf(ts))
  {
    hide AllChunks;
    ShortReadsIgnored(h, s, chunks);
    CutsGlued(h, s, ts);
  }

  lemma {:induction false} CutsGlued(h: Handler, s: Session, ts: seq<Transfer>)
    requires AllLegal(ts)
    ensures Run(h, s, AllChunks(ts)) == Glue(h, s, MessagesOf(ts))
    decreases |ts|
  {
    hide Dispatch;
    hide Receive;
    hide Chunks;
    if ts != [] && !s.link.closed && !s.escaped {
      var m := ts[0].message;
      var opcode := if s.inBuf == [] then m.opcode else s.opcode;
      Reassemble(h, s, m.opcode, ts[0].cut, true);
      RunAppend(h, s, Chunks(m.opcode, ts[0].cut, true), AllChunks(ts[1..]));
      CutsGlued(h, Dispatch(h, s.(opcode := opcode, inBuf := s.inBuf + m.payload)), ts[1..]);
      assert MessagesOf(ts)[1..] == MessagesOf(ts[1..]);
    }
  }

  /** Messages handed over one by one, each on its own. */
  function Deliver(h: Handler, s: Session, ms: seq<Message>): Session
    decreases |ms|
  {
    if ms == [] || s.link.closed || s.escaped then s
    else Deliver(h, Dispatch(h, s.(opcode := ms[0].opcode, inBuf := ms[0].payload)), ms[1..])
  }

  /** A handler that neither throws `invalid_argument` nor makes a frame constructor throw it. It may close. */
  ghost predicate Tame(h: Handler)
  {
    forall history: seq<Callback> ::
      h(history).ending != ThrowsInvalidArgument
      && forall link: Link :: !PerformAll(link, h(history).requests).1
  }

  lemma {:induction false} TameClears(h: Handler, s: Session)
    requires Tame(h) && DataOpcode(s.opcode)
    ensures Dispatch(h, s).inBuf == [] || Dispatch(h, s).escaped
  {
    hide PerformAll;
    hide CString;
  }

  /** Under a tame handler nothing is ever carried over from one message to the next. */
  lemma {:induction false} TameKeepsApart(h: Handler, s: Session, ms: seq<Message>)
    requires Tame(h) && forall i :: 0 <= i < |ms| ==> DataOpcode(ms[i].opcode)
    requires s.inBuf == [] || s.link.closed || s.escaped
    ensures Glue(h, s, ms) == Deliver(h, s, ms)
    decreases |ms|
  {
    hide Dispatch;
    hide Tame;
    if ms != [] && !s.link.closed && !s.escaped {
      var t := s.(opcode := ms[0].opcode, inBuf := ms[0].payload);
      assert s.inBuf + ms[0].payload == ms[0].payload;
      TameClears(h, t);
      TameKeepsApart(h, Dispatch(h, t), ms[1..]);
    }
  }

  // What falls outside the promise, and what happens then

  /** Two frames that arrive in one read: the second is lost. */
  lemma {:induction false} CoalescedFrameIsLost(h: Handler, s: Session, f: Frame, w: Wire, next: seq<Byte>)
    requires Legal(f, w)
    ensures Acceptable(Serialize(f, w) + next) && Acceptable(Serialize(f, w))
    ensures Receive(h, s, Serialize(f, w) + next) == Receive(h, s, Serialize(f, w))
  {
    ReadSerialized(f, w, next);
    ReadSerialized(f, w, []);
    assert Serialize(f, w) + [] == Serialize(f, w);
  }

  /** A buffer that holds something holds part of a text or binary message. */
  predicate InMessage(s: Session)
  {
    s.inBuf != [] ==> DataOpcode(s.opcode)
  }

  /**
   A frame of a control opcode, or of a reserved one, makes no callback exactly when it does not come inside a
   fragmented message. Inside, it is taken for the message's last fragment.
   */
  lemma {:induction false} ControlFrameHandledIff(h: Handler, s: Session, f: Fragment, opcode: nat)
    requires f.wire.key.Some? && Legal(Frame(true, 0, f.payload), f.wire) && 2 < opcode < 16 && InMessage(s)
    ensures var r := Receive(h, s, Chunk(f, true, opcode));
      && (r.calls == s.calls <==> s.inBuf == [])
      && (s.inBuf != [] ==> r.calls == s.calls + [CallFor(s.opcode, s.inBuf + f.payload)])
  {
    hide Dispatch;
    hide Chunk;
    ReceiveFragment(h, s, f, true, opcode);
    DispatchCalls(h, s.(inBuf := s.inBuf + f.payload));
    DispatchControl(h, s.(opcode := opcode, inBuf := s.inBuf + f.payload));
  }

  lemma {:induction false} DispatchControl(h: Handler, s: Session)
    requires 2 < s.opcode < 16
    ensures var r := Dispatch(h, s);
      && r.calls == s.calls && r.opcode == s.opcode && r.escaped == s.escaped
      && (s.opcode == OPCODE_CONNECTION_CLOSE ==>
            r.inBuf == [] && r.link == Transmit(s.link, Encode(CloseFrame(0))).(closed := true))
      && (s.opcode == OPCODE_CONNECTION_PING && |s.inBuf| <= UINT16_MAX ==>
            r.inBuf == [] && r.link == Transmit(s.link, s.inBuf))
      && (s.opcode !in {OPCODE_CONNECTION_CLOSE, OPCODE_CONNECTION_PING} ==> r.inBuf == [] && r.link == s.link)
  {
    hide Encode;
  }

  /**
   Between messages such a frame acts by its own opcode: a close answers and closes, a ping is answered with its
   payload, anything else is dropped; and the session is ready for the next message.
   */
  lemma {:induction false} ControlFrameBetween(h: Handler, s: Session, f: Fragment, opcode: nat)
    requires f.wire.key.Some? && Legal(Frame(true, 0, f.payload), f.wire) && 2 < opcode < 16
    requires s.inBuf == [] && |f.payload| <= UINT16_MAX
    ensures var r := Receive(h, s, Chunk(f, true, opcode));
      && r.inBuf == [] && r.calls == s.calls && r.escaped == s.escaped
      && r.link == if opcode == OPCODE_CONNECTION_CLOSE then Transmit(s.link, Encode(CloseFrame(0))).(closed := true)
                   else if opcode == OPCODE_CONNECTION_PING then Transmit(s.link, f.payload)
                   else s.link
  {
    hide Dispatch;
    hide Chunk;
    hide Encode;
    ReceiveFragment(h, s, f, true, opcode);
    assert s.inBuf + f.payload == f.payload;
    DispatchControl(h, s.(opcode := opcode, inBuf := f.payload));
  }

  /** The answer to a ping is the ping's payload without a header: never a Pong frame (section 5.5.3). */
  lemma {:induction false} PingIsNotAnsweredByPong(h: Handler, s: Session, f: Fragment)
    requires f.wire.key.Some? && Legal(Frame(true, 0, f.payload), f.wire) && |f.payload| <= UINT16_MAX
    requires s.inBuf == [] && !s.link.closed
    ensures var r := Receive(h, s, Chunk(f, true, OPCODE_CONNECTION_PING));
      && r.link.wire == s.link.wire + f.payload && r.inBuf == []
      && r.link.wire != s.link.wire + Encode(Frame(true, OPCODE_CONNECTION_PONG, f.payload))
  {
    ReceiveFragment(h, s, f, true, OPCODE_CONNECTION_PING);
    assert s.inBuf + f.payload == f.payload;
    var pong := Encode(Frame(true, OPCODE_CONNECTION_PONG, f.payload));
    assert |pong| >= 2 + |f.payload|;
    assert |s.link.wire + f.payload| != |s.link.wire + pong|;
  }
}
