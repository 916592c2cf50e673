/** One connection of the WebSocket echo server, from the first octet of the request to the last echoed frame. */
module EchoServer {
  import opened Bytes
  import opened Rfc6455
  import opened Connections
  import opened Text
  import opened HttpParse
  import opened HttpInit
  import opened Reassembly
  import opened WsState
  import opened WsEcho
  import opened TcpEcho
  import opened HttpServer
  import opened RequestRuns
  import opened Handshake
  import opened HandshakeRead
  import L = Lifecycle

  /** The application of examples/ws_echo: `WsEchoHandler` does nothing in `onConnect`. */
  function EchoApp(http: HttpHandler, digest: string -> string): Application
  {
    Application(http, "", Reaction([], Returns), Echo, digest)
  }

  /** A request that fits and asks for a WebSocket. */
  ghost predicate UpgradeRequest(r: HttpParse.Request)
  {
    Bounded(r) && AsksUpgrade(r)
  }

  lemma {:induction false} UpgradeHasKey(r: HttpParse.Request)
    requires UpgradeRequest(r)
    ensures IsWsRequest(FirstValues(r.headers, map[])) && "Sec-WebSocket-Key" in FirstValues(r.headers, map[])
  {
    hide Bounded;
    hide AsksUpgrade;
    hide HasField;
    hide FirstValues;
    AsksUpgradeIff(r);
  }

  /** In the WebSocket state the connection is the session of Reassembly. */
  lemma {:induction false} ServingRun(app: Application, s: Session, inputs: seq<seq<Byte>>)
    requires AllAcceptable(inputs)
    ensures AllManageable(app, Serving(s), inputs)
    ensures RunAll(app, Serving(s), inputs) == Serving(Run(app.handler, s, inputs))
    decreases |inputs|
  {
    hide Receive;
    hide Acceptable;
    if inputs != [] && !s.link.closed && !s.escaped {
      ServingRun(app, Receive(app.handler, s, inputs[0]), inputs[1..]);
    }
  }

  /** The 101 response to a request. */
  ghost function GreetingTo(app: Application, r: HttpParse.Request): seq<Byte>
    requires UpgradeRequest(r)
  {
    UpgradeHasKey(r);
    Greeting(app, FirstValues(r.headers, map[]))
  }

  /** One list of reads: a request, cut anyhow, then messages, cut, masked and padded anyhow. */
  ghost predicate EchoReads(r: HttpParse.Request, ts: seq<Transfer>, head: seq<seq<Byte>>, tail: seq<seq<Byte>>)
    requires AllEchoable(ts)
  {
    UpgradeRequest(r) && IsSplit(Print(r), Texts(head)) && AllAcceptable(tail) && WithoutShort(tail) == AllChunks(ts)
  }

  lemma {:induction false} RequestRun(app: Application, r: HttpParse.Request, wire: seq<Byte>, s: Session,
                                      head: seq<seq<Byte>>, tail: seq<seq<Byte>>)
    requires UpgradeRequest(r) && IsSplit(Print(r), Texts(head)) && AllAcceptable(tail)
    requires IsWsRequest(FirstValues(r.headers, map[]))
    requires Upgraded(app, FirstValues(r.headers, map[]), wire) == Serving(s)
    ensures AllManageable(app, Collecting("", wire), head + tail)
    ensures RunAll(app, Collecting("", wire), head + tail) == Serving(Run(app.handler, s, tail))
  {
    hide Bounded;
    hide IsSplit;
    hide Upgraded;
    hide HasField;
    hide AllAcceptable;
    hide Run;
    hide RunAll;
    hide AllManageable;
    ServingRun(app, s, tail);
    RequestAnswered(app, r, wire, head, tail);
  }

  /** A session that has echoed everything and is ready for more. */
  predicate Echoed(st: State, wire: seq<Byte>)
  {
    st.Serving? && st.session.link == Link(wire, false) && st.session.inBuf == [] && !st.session.escaped
  }

  lemma {:induction false} EchoedWire(st: State, wire: seq<Byte>)
    requires Echoed(st, wire)
    ensures st.Serving? && OnWire(st) == wire
  {
  }

  /** What such reads lead to: the 101 response on the wire, then the client's messages. */
  lemma {:induction false} ConnectionEchoes(app: Application, wire: seq<Byte>, r: HttpParse.Request,
                                            ts: seq<Transfer>, head: seq<seq<Byte>>, tail: seq<seq<Byte>>)
    requires app == EchoApp(app.http, app.digest) && AllEchoable(ts) && EchoReads(r, ts, head, tail)
    ensures UpgradeRequest(r) && AllManageable(app, Collecting("", wire), head + tail)
    ensures Echoed(RunAll(app, Collecting("", wire), head + tail),
                   wire + GreetingTo(app, r) + EncodeAll(FramesOf(ts)))
  {
    hide *;
    TakeEchoReads(r, ts, head, tail);
    var s := Session(0, [], Link(wire + GreetingTo(app, r), false), [], false);
    UpgradedEcho(app, r, wire);
    RequestRun(app, r, wire, s, head, tail);
    SessionEchoes(s, ts, tail);
  }

  lemma {:induction false} TakeEchoReads(r: HttpParse.Request, ts: seq<Transfer>, head: seq<seq<Byte>>,
                                         tail: seq<seq<Byte>>)
    requires AllEchoable(ts) && EchoReads(r, ts, head, tail)
    ensures UpgradeRequest(r) && IsWsRequest(FirstValues(r.headers, map[]))
    ensures "Sec-WebSocket-Key" in FirstValues(r.headers, map[])
    ensures IsSplit(Print(r), Texts(head)) && AllAcceptable(tail) && WithoutShort(tail) == AllChunks(ts)
  {
    hide Bounded;
    hide HasField;
    hide IsSplit;
    hide AllAcceptable;
    hide WithoutShort;
    hide AllChunks;
    hide UpgradeRequest;
    UpgradeHasKey(r);
  }

  /** The 101 response, as the client reads it. */
  lemma {:induction false} GreetingAccepted(app: Application, r: HttpParse.Request)
    requires UpgradeRequest(r) && OneLine(app.subprotocol)
    ensures Accepted(r, app.digest, app.subprotocol, GreetingTo(app, r))
  {
    hide UpgradeRequest;
    hide Accepted;
    hide FirstValues;
    hide Response;
    UpgradeHasKey(r);
    HandshakeCompletes(r, app.digest, app.subprotocol);
  }

  lemma {:induction false} NoProtocol(app: Application)
    requires app == EchoApp(app.http, app.digest)
    ensures OneLine(app.subprotocol) && app.subprotocol == ""
  {
  }

  lemma {:induction false} UpgradedEcho(app: Application, r: HttpParse.Request, wire: seq<Byte>)
    requires app == EchoApp(app.http, app.digest) && UpgradeRequest(r)
    requires "Sec-WebSocket-Key" in FirstValues(r.headers, map[])
    ensures app.handler == Echo
    ensures Upgraded(app, FirstValues(r.headers, map[]), wire) ==
            Serving(Session(0, [], Link(wire + GreetingTo(app, r), false), [], false))
  {
    hide Greeting;
    hide Perform;
    hide UpgradeRequest;
    hide FirstValues;
  }

  lemma {:induction false} SessionEchoes(s: Session, ts: seq<Transfer>, tail: seq<seq<Byte>>)
    requires AllEchoable(ts) && s.inBuf == [] && !s.link.closed && !s.escaped
    requires AllAcceptable(tail) && WithoutShort(tail) == AllChunks(ts)
    ensures Echoed(Serving(Run(Echo, s, tail)), s.link.wire + EncodeAll(FramesOf(ts)))
  {
    hide Run;
    hide AllEchoable;
    hide AllAcceptable;
    hide WithoutShort;
    hide AllChunks;
    hide EncodeAll;
    hide ReadAll;
    EchoEndToEnd(s, ts, tail);
  }

  /**
   The connection on its objects, from accept on. However TCP cuts the request, however many rounds bring nothing,
   however the client cuts, masks and pads its messages, and however the socket cuts the writes: unless a write
   fails, the wire carries the 101 response to the request, which tells a client with a proper key that it is
   switched, and then frames that a reader splits into exactly the client's messages, with their opcodes, in order.
   If one fails, it carries a part of that, from its beginning.
   */
  method ServeConnection(connection: Connection, app: Application, script: seq<ReadOutcome>,
                         ghost r: HttpParse.Request, ghost ts: seq<Transfer>,
                         ghost head: seq<seq<Byte>>, ghost tail: seq<seq<Byte>>)
    returns (exit: Exit, failed: bool, ghost trace: seq<L.Event>)
    requires !connection.closed && app == EchoApp(app.http, app.digest)
    requires AllEchoable(ts) && EchoReads(r, ts, head, tail) && Inputs(script) == head + tail
    modifies connection, connection.socket
    ensures var greeted, out := old(connection.socket.wire) + GreetingTo(app, r), EncodeAll(FramesOf(ts));
      && Written(failed, old(connection.socket.wire), connection.socket.wire, greeted + out)
      && (!failed ==>
            && old(connection.socket.wire) <= greeted <= connection.socket.wire
            && Accepted(r, app.digest, "", connection.socket.wire[|old(connection.socket.wire)|..|greeted|])
            && ReadAll(connection.socket.wire[|greeted|..]) == Some(FramesOf(ts)))
    ensures connection.socket.failures == old(connection.socket.failures) + Once(failed)
    ensures L.Safe(trace) && (exit == Thrown || failed || L.Disconnected in trace)
  {
    hide *;
    ConnectionEchoes(app, connection.socket.wire, r, ts, head, tail);
    EchoedWire(RunAll(app, Collecting("", connection.socket.wire), head + tail),
               connection.socket.wire + GreetingTo(app, r) + EncodeAll(FramesOf(ts)));
    ghost var greeted, out := connection.socket.wire + GreetingTo(app, r), EncodeAll(FramesOf(ts));
    exit, failed, trace := ServeClient(connection, app, script);
    ReadAllEncoded(FramesOf(ts));
    assert (greeted + out)[|greeted|..] == out;
    NoProtocol(app);
    GreetingAccepted(app, r);
    assert (greeted + out)[|old(connection.socket.wire)|..|greeted|] == GreetingTo(app, r);
  }
}
