/** Closing a WebSocket connection is final (section 5.5.1 of RFC 6455). */
module CloseFinal {
  import opened Bytes
  import opened Delimited
  import opened Rfc6455
  import opened Frames
  import opened Reassembly

  /** One thing a session writes: a frame, or the bare payload with which it answers a ping. */
  datatype Item = Framed(frame: Frame) | Bare(bytes: seq<Byte>)

  predicate Fit(item: Item)
  {
    item.Framed? ==> Sendable(item.frame)
  }

  predicate AllFit(items: seq<Item>)
  {
    forall i :: 0 <= i < |items| ==> Fit(items[i])
  }

  function ItemOctets(item: Item): seq<Byte>
    requires Fit(item)
  {
    match item case Framed(f) => Encode(f) case Bare(b) => b
  }

  function AllOctets(items: seq<Item>): (s: seq<Byte>)
    requires AllFit(items)
  {
    if items == [] then [] else AllOctets(items[..|items| - 1]) + ItemOctets(items[|items| - 1])
  }

  lemma {:induction false} OctetsSnoc(items: seq<Item>, item: Item)
    requires AllFit(items) && Fit(item)
    ensures AllFit(items + [item]) && AllOctets(items + [item]) == AllOctets(items) + ItemOctets(item)
  {
    assert (items + [item])[..|items|] == items;
  }

  predicate IsClose(item: Item)
  {
    item.Framed? && item.frame.opcode == OPCODE_CONNECTION_CLOSE
  }

  /** The bare payloads among the items. */
  function Bares(items: seq<Item>): (bs: seq<seq<Byte>>)
  {
    if items == [] then []
    else Bares(items[..|items| - 1]) + (if items[|items| - 1].Bare? then [items[|items| - 1].bytes] else [])
  }

  lemma {:induction false} BaresSnoc(items: seq<Item>, item: Item)
    ensures Bares(items + [item]) == Bares(items) + (if item.Bare? then [item.bytes] else [])
  {
    assert (items + [item])[..|items|] == items;
  }

  lemma {:induction false} NoBares(items: seq<Item>)
    requires Bares(items) == []
    ensures forall i :: 0 <= i < |items| ==> items[i].Framed?
  {
    if items != [] { NoBares(items[..|items| - 1]); }
  }

  /**
   What a link has sent since some point is a list of items in which a Close frame can only be the last, and is
   there exactly when the link is closed.
   */
  ghost predicate Clean(base: seq<Byte>, link: Link, items: seq<Item>)
  {
    && AllFit(items) && link.wire == base + AllOctets(items)
    && (forall i :: 0 <= i < |items| - 1 ==> !IsClose(items[i]))
    && (link.closed <==> items != [] && IsClose(items[|items| - 1]))
  }

  lemma {:induction false} NothingSentIsClean(link: Link)
    requires !link.closed
    ensures Clean(link.wire, link, []) && Bares([]) == []
  {
    assert link.wire == link.wire + AllOctets([]);
  }

  /** A closed link accepts nothing. */
  lemma {:induction false} ClosedIsInert(link: Link, requests: seq<Request>)
    requires link.closed
    ensures PerformAll(link, requests).0 == link
    decreases |requests|
  {
    hide Encode;
    if requests != [] {
      assert Perform(link, requests[0]).0 == link;
      ClosedIsInert(link, requests[1..]);
    }
  }

  lemma {:induction false} SendKeepsClean(base: seq<Byte>, link: Link, items: seq<Item>, item: Item)
    requires Clean(base, link, items) && !link.closed && Fit(item)
    ensures Clean(base, Link(link.wire + ItemOctets(item), IsClose(item)), items + [item])
    ensures Bares(items + [item]) == Bares(items) + (if item.Bare? then [item.bytes] else [])
  {
    hide AllOctets;
    hide ItemOctets;
    hide Bares;
    hide IsClose;
    hide Fit;
    OctetsSnoc(items, item);
    BaresSnoc(items, item);
    assert forall i :: 0 <= i < |items| ==> (items + [item])[i] == items[i];
    assert base + AllOctets(items) + ItemOctets(item) == base + AllOctets(items + [item]);
  }

  lemma {:induction false} PerformKeepsClean(base: seq<Byte>, link: Link, items: seq<Item>, request: Request)
    returns (items': seq<Item>)
    requires Clean(base, link, items)
    ensures Clean(base, Perform(link, request).0, items') && Bares(items') == Bares(items)
  {
    hide Encode;
    hide Clean;
    hide Bares;
    var l := Perform(link, request).0;
    if l == link { return items; }
    var f := FrameOf(request);
    items' := items + [Framed(f)];
    if !link.closed { SendKeepsClean(base, link, items, Framed(f)); }
  }

  lemma {:induction false} PerformAllKeepsClean(base: seq<Byte>, link: Link, items: seq<Item>, requests: seq<Request>)
    returns (items': seq<Item>)
    requires Clean(base, link, items)
    ensures Clean(base, PerformAll(link, requests).0, items') && Bares(items') == Bares(items)
    decreases |requests|
  {
    hide Perform;
    hide Clean;
    hide Bares;
    if requests == [] { return items; }
    items' := PerformKeepsClean(base, link, items, requests[0]);
    var (l, threw) := Perform(link, requests[0]);
    if !threw {
      items' := PerformAllKeepsClean(base, l, items', requests[1..]);
    }
  }

  lemma {:induction false} InvokeLink(h: Handler, s: Session, call: Callback)
    ensures var r := Invoke(h, s, call);
      r.link == PerformAll(s.link, h(s.calls + [call]).requests).0 && r.opcode == s.opcode
  {
    hide PerformAll;
  }

  lemma {:induction false} DataKeepsClean(h: Handler, base: seq<Byte>, s: Session, items: seq<Item>)
    returns (items': seq<Item>)
    requires Clean(base, s.link, items) && DataOpcode(s.opcode)
    ensures Clean(base, Dispatch(h, s).link, items') && Bares(items') == Bares(items)
  {
    hide Clean;
    hide Bares;
    hide PerformAll;
    hide UpTo;
    var call := CallFor(s.opcode, s.inBuf);
    CStringTerminated(s.inBuf);
    InvokeLink(h, s, call);
    InvokeLink(h, s.(inBuf := s.inBuf + [0]), call);
    hide Invoke;
    items' := PerformAllKeepsClean(base, s.link, items, h(s.calls + [call]).requests);
  }

  // Pings, and the bare payloads that answer them

  /** The answer to a final frame under an opcode, if it is a ping whose answer fits a frame. */
  function PingAnswer(opcode: nat, buffer: seq<Byte>): seq<seq<Byte>>
  {
    if opcode == OPCODE_CONNECTION_PING && |buffer| <= UINT16_MAX then [buffer] else []
  }

  /** The ping answers that a read causes. */
  function PingsIn(s: Session, chunk: seq<Byte>): seq<seq<Byte>>
    requires Acceptable(chunk)
  {
    if |chunk| < 2 then []
    else
      var inc := Read(chunk).value;
      var opcode := if s.inBuf == [] then inc.frame.opcode else s.opcode;
      if inc.frame.fin then PingAnswer(opcode, AfterDecode(s.inBuf, inc)) else []
  }

  /** The buffers that a run answers as pings, in order. */
  function Pings(h: Handler, s: Session, chunks: seq<seq<Byte>>): seq<seq<Byte>>
    requires AllAcceptable(chunks)
    decreases |chunks|
  {
    if chunks == [] || s.link.closed || s.escaped then []
    else PingsIn(s, chunks[0]) + Pings(h, Receive(h, s, chunks[0]), chunks[1..])
  }

  predicate NoPings(chunks: seq<seq<Byte>>)
    requires AllAcceptable(chunks)
  {
    forall i :: 0 <= i < |chunks| && |chunks[i]| >= 2 ==>
      Read(chunks[i]).value.frame.opcode != OPCODE_CONNECTION_PING
  }

  lemma {:induction false} DispatchKeepsOpcode(h: Handler, s: Session)
    ensures Dispatch(h, s).opcode == s.opcode
  {
    hide PerformAll;
    hide Perform;
  }

  /** If no ping frame comes, nothing is answered as a ping. */
  lemma {:induction false} NoPingsAnswered(h: Handler, s: Session, chunks: seq<seq<Byte>>)
    requires AllAcceptable(chunks) && NoPings(chunks) && s.opcode != OPCODE_CONNECTION_PING
    ensures Pings(h, s, chunks) == []
    decreases |chunks|
  {
    hide Dispatch;
    hide Read;
    hide AfterDecode;
    if chunks != [] && !s.link.closed && !s.escaped {
      if |chunks[0]| >= 2 {
        var inc := Read(chunks[0]).value;
        var opcode := if s.inBuf == [] then inc.frame.opcode else s.opcode;
        DispatchKeepsOpcode(h, s.(opcode := opcode, inBuf := AfterDecode(s.inBuf, inc)));
      }
      NoPingsAnswered(h, Receive(h, s, chunks[0]), chunks[1..]);
    }
  }

  lemma {:induction false} DispatchKeepsClean(h: Handler, base: seq<Byte>, s: Session, items: seq<Item>)
    returns (items': seq<Item>)
    requires Clean(base, s.link, items) && !s.link.closed
    ensures Clean(base, Dispatch(h, s).link, items')
    ensures Bares(items') == Bares(items) + PingAnswer(s.opcode, s.inBuf)
  {
    hide Clean;
    hide Bares;
    if DataOpcode(s.opcode) {
      items' := DataKeepsClean(h, base, s, items);
      return;
    }
    hide Perform;
    items' := items;
    if s.opcode == OPCODE_CONNECTION_CLOSE {
      items' := PerformKeepsClean(base, s.link, items, CloseConnection);
    } else if s.opcode == OPCODE_CONNECTION_PING && |s.inBuf| <= UINT16_MAX {
      SendKeepsClean(base, s.link, items, Bare(s.inBuf));
      items' := items + [Bare(s.inBuf)];
    }
  }

  lemma {:induction false} ReceiveKeepsClean(h: Handler, base: seq<Byte>, s: Session, chunk: seq<Byte>,
                                             items: seq<Item>)
    returns (items': seq<Item>)
    requires Clean(base, s.link, items) && !s.link.closed && Acceptable(chunk)
    ensures Clean(base, Receive(h, s, chunk).link, items') && Bares(items') == Bares(items) + PingsIn(s, chunk)
  {
    hide Clean;
    hide Bares;
    hide Dispatch;
    hide AfterDecode;
    hide Read;
    hide PingAnswer;
    items' := items;
    if |chunk| >= 2 && Read(chunk).value.frame.fin {
      var inc := Read(chunk).value;
      var opcode := if s.inBuf == [] then inc.frame.opcode else s.opcode;
      items' := DispatchKeepsClean(h, base, s.(opcode := opcode, inBuf := AfterDecode(s.inBuf, inc)), items);
    }
  }

  lemma {:induction false} RunKeepsClean(h: Handler, base: seq<Byte>, s: Session, chunks: seq<seq<Byte>>,
                                         items: seq<Item>)
    returns (items': seq<Item>)
    requires AllAcceptable(chunks) && Clean(base, s.link, items)
    ensures Clean(base, Run(h, s, chunks).link, items') && Bares(items') == Bares(items) + Pings(h, s, chunks)
    decreases |chunks|
  {
    hide Clean;
    hide Bares;
    hide Receive;
    hide PingsIn;
    hide Acceptable;
    items' := items;
    if chunks != [] && !s.link.closed && !s.escaped {
      items' := ReceiveKeepsClean(h, base, s, chunks[0], items);
      items' := RunKeepsClean(h, base, Receive(h, s, chunks[0]), chunks[1..], items');
    }
  }

  /**
   For every handler and every run, what a session writes is frames and bare payloads. The bare payloads are the
   answers to the pings that came, and nothing else. A Close frame occurs at most once, as the last item, and
   exactly when the connection was closed.
   */
  lemma {:induction false} CloseIsLast(h: Handler, s: Session, chunks: seq<seq<Byte>>)
    requires AllAcceptable(chunks) && !s.link.closed
    ensures exists items ::
      Clean(s.link.wire, Run(h, s, chunks).link, items) && Bares(items) == Pings(h, s, chunks)
  {
    hide Run;
    hide Pings;
    hide Clean;
    hide Bares;
    NothingSentIsClean(s.link);
    var items := RunKeepsClean(h, s.link.wire, s, chunks, []);
  }

  function FramesIn(items: seq<Item>): (fs: seq<Frame>)
    requires AllFit(items) && forall i :: 0 <= i < |items| ==> items[i].Framed?
    ensures AllSendable(fs) && |fs| == |items| && forall i :: 0 <= i < |fs| ==> fs[i] == items[i].frame
  {
    seq(|items|, i requires 0 <= i < |items| => items[i].frame)
  }

  lemma {:induction false} EncodeAllSnoc(fs: seq<Frame>, f: Frame)
    requires AllSendable(fs) && Sendable(f)
    ensures AllSendable(fs + [f]) && EncodeAll(fs + [f]) == EncodeAll(fs) + Encode(f)
  {
    hide Encode;
    EncodeAllAppend(fs, [f]);
    assert EncodeAll([f]) == Encode(f) + EncodeAll([f][1..]);
  }

  lemma {:induction false} FramesOctets(items: seq<Item>)
    requires AllFit(items) && forall i :: 0 <= i < |items| ==> items[i].Framed?
    ensures AllOctets(items) == EncodeAll(FramesIn(items))
  {
    hide Encode;
    if items != [] {
      var init, last := items[..|items| - 1], items[|items| - 1];
      FramesOctets(init);
      EncodeAllSnoc(FramesIn(init), last.frame);
      assert FramesIn(items) == FramesIn(init) + [last.frame];
    }
  }

  /** What a peer reads from some point on: frames, a Close only as the last, and exactly when the link is closed. */
  ghost predicate ReadsCloseLast(base: seq<Byte>, link: Link)
  {
    && base <= link.wire
    && var read := ReadAll(link.wire[|base|..]);
    && read.Some?
    && (forall i :: 0 <= i < |read.value| - 1 ==> read.value[i].opcode != OPCODE_CONNECTION_CLOSE)
    && (link.closed <==> read.value != [] && read.value[|read.value| - 1].opcode == OPCODE_CONNECTION_CLOSE)
  }

  lemma {:induction false} CleanReads(base: seq<Byte>, link: Link, items: seq<Item>)
    requires Clean(base, link, items) && Bares(items) == []
    ensures ReadsCloseLast(base, link)
  {
    hide ReadAll;
    hide Bares;
    hide EncodeAll;
    hide AllOctets;
    NoBares(items);
    FramesOctets(items);
    ReadAllEncoded(FramesIn(items));
    assert (base + AllOctets(items))[|base|..] == AllOctets(items);
  }

  /**
   When no ping is answered the peer can read it all: the octets split into frames in which a Close occurs at most
   once, as the last one, exactly when the connection was closed.
   */
  lemma {:induction false} PeerReadsCloseLast(h: Handler, s: Session, chunks: seq<seq<Byte>>)
    requires AllAcceptable(chunks) && !s.link.closed && Pings(h, s, chunks) == []
    ensures ReadsCloseLast(s.link.wire, Run(h, s, chunks).link)
  {
    hide Run;
    hide Pings;
    hide Clean;
    hide Bares;
    hide ReadsCloseLast;
    NothingSentIsClean(s.link);
    var items := RunKeepsClean(h, s.link.wire, s, chunks, []);
    CleanReads(s.link.wire, Run(h, s, chunks).link, items);
  }

  /** Once closed, nothing more is received, called or written. */
  lemma {:induction false} NothingAfterClose(h: Handler, s: Session, before: seq<seq<Byte>>, after: seq<seq<Byte>>)
    requires AllAcceptable(before) && AllAcceptable(after) && Run(h, s, before).link.closed
    ensures AllAcceptable(before + after) && Run(h, s, before + after) == Run(h, s, before)
  {
    hide Receive;
    RunAppend(h, s, before, after);
  }
}

/** The same for whole connections, from accept on: the handler's `onConnect` may already send and close. */
module ConnectionClose {
  import opened Bytes
  import opened Rfc6455
  import opened Text
  import opened HttpParse
  import opened HttpInit
  import opened Reassembly
  import opened HttpServer
  import opened CloseFinal

  /** The headers of the upgrade request that the reads bring, if they do. */
  function UpgradeHeaders(received: string, inputs: seq<seq<Byte>>): (r: Option<Headers>)
    ensures r.Some? ==> "Sec-WebSocket-Key" in r.value
    decreases |inputs|
  {
    if inputs == [] then None
    else
      var all := received + Chars(inputs[0]);
      if !Complete(all) then UpgradeHeaders(all, inputs[1..])
      else
        var headers := HeaderLines(AfterLine(Seen(all)), map[]);
        if TargetOf(Seen(all), |all|).Target? && IsWsRequest(headers) then Some(headers) else None
  }

  /** What a connection answers as pings. */
  function ConnectionPings(app: Application, st: State, inputs: seq<seq<Byte>>): seq<seq<Byte>>
    requires AllManageable(app, st, inputs)
    decreases |inputs|
  {
    if inputs == [] || Over(st) then []
    else (if st.Serving? then PingsIn(st.session, inputs[0]) else [])
         + ConnectionPings(app, Step(app, st, inputs[0]), inputs[1..])
  }

  /** The link of an upgraded connection has sent clean items; if `onConnect` threw, there is no session. */
  ghost predicate CleanState(base: seq<Byte>, st: State, items: seq<Item>)
  {
    match st
    case Collecting(_, _) => false
    case Ended(sent) => exists closed :: Clean(base, Link(sent, closed), items)
    case Serving(s) => Clean(base, s.link, items)
  }

  lemma {:induction false} UpgradedIsClean(app: Application, headers: Headers, wire: seq<Byte>)
    returns (items: seq<Item>)
    requires "Sec-WebSocket-Key" in headers
    ensures CleanState(wire + Greeting(app, headers), Upgraded(app, headers, wire), items) && Bares(items) == []
  {
    hide Greeting;
    hide Clean;
    hide Bares;
    hide PerformAll;
    var base := wire + Greeting(app, headers);
    NothingSentIsClean(Link(base, false));
    items := PerformAllKeepsClean(base, Link(base, false), [], app.onConnect.requests);
    var link := PerformAll(Link(base, false), app.onConnect.requests).0;
    assert link == Link(link.wire, link.closed);
  }

  lemma {:induction false} ServingKeepsClean(app: Application, base: seq<Byte>, st: State, inputs: seq<seq<Byte>>,
                                             items: seq<Item>)
    returns (items': seq<Item>)
    requires CleanState(base, st, items) && AllManageable(app, st, inputs)
    ensures CleanState(base, RunAll(app, st, inputs), items')
    ensures Bares(items') == Bares(items) + ConnectionPings(app, st, inputs)
    decreases |inputs|
  {
    hide Clean;
    hide Bares;
    hide Receive;
    hide PingsIn;
    hide Acceptable;
    items' := items;
    if inputs != [] && !Over(st) {
      items' := ReceiveKeepsClean(app.handler, base, st.session, inputs[0], items);
      items' := ServingKeepsClean(app, base, Step(app, st, inputs[0]), inputs[1..], items');
    }
  }

  lemma {:induction false} CollectingComesClean(app: Application, received: string, wire: seq<Byte>,
                                                inputs: seq<seq<Byte>>)
    returns (items: seq<Item>)
    requires AllManageable(app, Collecting(received, wire), inputs) && UpgradeHeaders(received, inputs).Some?
    ensures CleanState(wire + Greeting(app, UpgradeHeaders(received, inputs).value),
                       RunAll(app, Collecting(received, wire), inputs), items)
    ensures Bares(items) == ConnectionPings(app, Collecting(received, wire), inputs)
    decreases |inputs|
  {
    hide Bares;
    hide CleanState;
    hide Complete;
    hide Seen;
    hide TargetOf;
    hide HeaderLines;
    hide HasField;
    hide Upgraded;
    hide Greeting;
    hide PathFits;
    hide PingsIn;
    var all := received + Chars(inputs[0]);
    if Complete(all) {
      var headers := UpgradeHeaders(received, inputs).value;
      items := UpgradedIsClean(app, headers, wire);
      items := ServingKeepsClean(app, wire + Greeting(app, headers), Upgraded(app, headers, wire), inputs[1..], items);
    } else {
      items := CollectingComesClean(app, all, wire, inputs[1..]);
    }
  }

  /** Only an upgrade request leads to a session. */
  lemma {:induction false} SessionsAreUpgraded(app: Application, received: string, wire: seq<Byte>,
                                               inputs: seq<seq<Byte>>)
    requires AllManageable(app, Collecting(received, wire), inputs)
    requires RunAll(app, Collecting(received, wire), inputs).Serving?
    ensures UpgradeHeaders(received, inputs).Some?
    decreases |inputs|
  {
    hide Complete;
    hide Seen;
    hide TargetOf;
    hide HeaderLines;
    hide HasField;
    hide Upgraded;
    hide PathFits;
    hide PageOf;
    var all := received + Chars(inputs[0]);
    if !Complete(all) {
      SessionsAreUpgraded(app, all, wire, inputs[1..]);
    }
  }

  /**
   Whatever `onConnect` and the handler do, an upgraded connection writes the 101 response and then frames and the
   answers to the pings that came; a Close frame is the last of all, and is there exactly when the connection was
   closed by its session.
   */
  lemma {:induction false} ConnectionCloseIsLast(app: Application, wire: seq<Byte>, inputs: seq<seq<Byte>>)
    requires AllManageable(app, Collecting("", wire), inputs) && UpgradeHeaders("", inputs).Some?
    ensures var headers := UpgradeHeaders("", inputs).value;
      exists items ::
           && CleanState(wire + Greeting(app, headers), RunAll(app, Collecting("", wire), inputs), items)
           && Bares(items) == ConnectionPings(app, Collecting("", wire), inputs)
  {
    hide *;
    var items := CollectingComesClean(app, "", wire, inputs);
  }

  /** Off a connection that answers no ping, a peer reads the 101 response and then frames with a Close only last. */
  lemma {:induction false} ConnectionReadsCloseLast(app: Application, wire: seq<Byte>, inputs: seq<seq<Byte>>)
    requires AllManageable(app, Collecting("", wire), inputs)
    requires RunAll(app, Collecting("", wire), inputs).Serving?
    requires ConnectionPings(app, Collecting("", wire), inputs) == []
    ensures var headers := UpgradeHeaders("", inputs);
      && headers.Some?
      && ReadsCloseLast(wire + Greeting(app, headers.value),
                        RunAll(app, Collecting("", wire), inputs).session.link)
  {
    hide AllManageable;
    hide RunAll;
    hide ConnectionPings;
    hide UpgradeHeaders;
    hide HasField;
    hide Greeting;
    hide Clean;
    hide Bares;
    hide ReadsCloseLast;
    SessionsAreUpgraded(app, "", wire, inputs);
    var base := wire + Greeting(app, UpgradeHeaders("", inputs).value);
    var items := CollectingComesClean(app, "", wire, inputs);
    CleanReads(base, RunAll(app, Collecting("", wire), inputs).session.link, items);
  }
}
