/**
 `TcpServerHandler` and the worker that drives it, on octets: collecting and parsing a request, entering the GET or
 WebSocket state, and the frames after that.
 */
module HttpServer {
  import opened Bytes
  import opened Connections
  import opened Text
  import opened HttpParse
  import opened HttpInit
  import opened Handshake
  import opened Reassembly
  import opened WsState
  import opened TcpEcho
  import opened FileResponse
  import L = Lifecycle

  /** What some `do_GET` does with a request: sends, and then perhaps an exception. */
  datatype GetAnswer = GetAnswer(sends: seq<seq<Byte>>, throws: bool)

  /** The handlers for plain requests: the file handler, or any other. */
  datatype HttpHandler = Files(files: map<string, seq<Byte>>) | Custom(answer: (string, Headers) -> GetAnswer)

  function Concat(sends: seq<seq<Byte>>): seq<Byte>
  {
    if sends == [] then [] else Concat(sends[..|sends| - 1]) + sends[|sends| - 1]
  }

  /** Everything a handler sends for a request. */
  function PageOf(http: HttpHandler, path: string, headers: Headers): seq<Byte>
  {
    match http
    case Files(files) => Page(files, path)
    case Custom(answer) => Concat(answer(path, headers).sends)
  }

  predicate GetThrows(http: HttpHandler, path: string, headers: Headers)
  {
    http.Custom? && http.answer(path, headers).throws
  }

  /** What the two handler factories make. */
  datatype Application = Application(
    http: HttpHandler,
    subprotocol: string,
    onConnect: Reaction,
    handler: Handler,
    digest: string -> string)

  /** A connection between two reads. */
  datatype State =
    | Collecting(received: string, sent: seq<Byte>)
    | Ended(sent: seq<Byte>)
    | Serving(session: Session)

  function OnWire(st: State): seq<Byte>
  {
    match st
    case Collecting(_, sent) => sent
    case Ended(sent) => sent
    case Serving(s) => s.link.wire
  }

  predicate Over(st: State)
  {
    st.Ended? || (st.Serving? && (st.session.link.closed || st.session.escaped))
  }

  /** The 101 response as octets. */
  function Greeting(app: Application, headers: Headers): seq<Byte>
    requires "Sec-WebSocket-Key" in headers
  {
    Octets(Response(app.subprotocol, app.digest, headers))
  }

  /** `HttpWsState::onEnter`: the greeting, then `onConnect`; any exception ends in a close. */
  function Upgraded(app: Application, headers: Headers, wire: seq<Byte>): State
    requires "Sec-WebSocket-Key" in headers
  {
    var (link, threw) := PerformAll(Link(wire + Greeting(app, headers), false), app.onConnect.requests);
    if threw || app.onConnect.ending != Returns then Ended(link.wire)
    else Serving(Session(0, [], link, [], false))
  }

  /** The GET or WebSocket state, once entered. */
  function Entered(app: Application, path: string, headers: Headers, wire: seq<Byte>): State
  {
    if IsWsRequest(headers) then Upgraded(app, headers, wire) else Ended(wire + PageOf(app.http, path, headers))
  }

  /** What a complete request leads to. */
  function Requested(app: Application, all: string, wire: seq<Byte>): State
  {
    match TargetOf(Seen(all), |all|)
    case Bad(_) => Ended(wire)
    case Target(path) => Entered(app, path, HeaderLines(AfterLine(Seen(all)), map[]), wire)
  }

  /** A read whose bounds the code trusts. */
  predicate Manageable(st: State, buf: seq<Byte>)
  {
    match st
    case Collecting(received, _) =>
      var all := received + Chars(buf);
      4 <= |all| <= BUF_SIZE && (Complete(all) ==> PathFits(Seen(all), |all|))
    case Ended(_) => true
    case Serving(_) => Acceptable(buf)
  }

  /** `TcpServerHandler::onReceive`. */
  function Step(app: Application, st: State, buf: seq<Byte>): State
    requires Manageable(st, buf)
  {
    match st
    case Collecting(received, sent) =>
      var all := received + Chars(buf);
      if Complete(all) then Requested(app, all, sent) else Collecting(all, sent)
    case Ended(_) => st
    case Serving(s) => Serving(Receive(app.handler, s, buf))
  }

  /** What `onEnter` of the WebSocket state comes to. */
  function EntryWs(app: Application, headers: Headers, wire: seq<Byte>): L.Entry
    requires "Sec-WebSocket-Key" in headers
  {
    var (link, threw) := PerformAll(Link(wire + Greeting(app, headers), false), app.onConnect.requests);
    if threw || app.onConnect.ending != Returns then L.ThrowsInConnect(link.closed) else L.Completes(link.closed)
  }

  /** What entering the GET or WebSocket state looks like to Lifecycle. */
  function EnteredAs(app: Application, path: string, headers: Headers, wire: seq<Byte>): L.Reading
  {
    if IsWsRequest(headers) then L.IsUpgrade(EntryWs(app, headers, wire))
    else L.IsGet(if GetThrows(app.http, path, headers) then L.ThrowsBeforeConnect else L.Completes(true))
  }

  function RequestedAs(app: Application, all: string, wire: seq<Byte>): L.Reading
  {
    match TargetOf(Seen(all), |all|)
    case Bad(_) => L.Malformed
    case Target(path) => EnteredAs(app, path, HeaderLines(AfterLine(Seen(all)), map[]), wire)
  }

  /** A read as Lifecycle sees it. */
  function Observed(app: Application, st: State, buf: seq<Byte>): L.Input
    requires Manageable(st, buf)
  {
    match st
    case Collecting(received, sent) =>
      var all := received + Chars(buf);
      L.Data(if Complete(all) then RequestedAs(app, all, sent) else L.Incomplete, L.Effect(false, false))
    case Ended(_) => L.Data(L.Incomplete, L.Effect(false, false))
    case Serving(s) =>
      var r := Receive(app.handler, s, buf);
      L.Data(L.Incomplete, L.Effect(r.link.closed, r.escaped))
  }

  predicate AllManageable(app: Application, st: State, inputs: seq<seq<Byte>>)
    decreases |inputs|
  {
    inputs == [] || Over(st)
    || (Manageable(st, inputs[0]) && AllManageable(app, Step(app, st, inputs[0]), inputs[1..]))
  }

  /** Read after read, until the connection is closed or an exception escapes. */
  function RunAll(app: Application, st: State, inputs: seq<seq<Byte>>): State
    requires AllManageable(app, st, inputs)
    decreases |inputs|
  {
    if inputs == [] || Over(st) then st else RunAll(app, Step(app, st, inputs[0]), inputs[1..])
  }

  /** One read of many. */
  lemma {:induction false} RunAllStep(app: Application, st: State, inputs: seq<seq<Byte>>)
    requires AllManageable(app, st, inputs) && inputs != [] && !Over(st)
    ensures Manageable(st, inputs[0])
    ensures var next := Step(app, st, inputs[0]);
      && AllManageable(app, next, inputs[1..])
      && RunAll(app, st, inputs) == RunAll(app, next, inputs[1..])
      && OnWire(next) <= OnWire(RunAll(app, st, inputs))
  {
    hide Manageable;
    hide Step;
    RunAllGrows(app, Step(app, st, inputs[0]), inputs[1..]);
  }

  lemma {:induction false} RunAllOver(app: Application, st: State, inputs: seq<seq<Byte>>)
    requires Over(st) || inputs == []
    ensures AllManageable(app, st, inputs) && RunAll(app, st, inputs) == st
  {
  }

  /** The octets of each read, up to end of file or a failing read. */
  function Inputs(script: seq<ReadOutcome>): seq<seq<Byte>>
  {
    if script == [] || script[0].Eof? || script[0].ReadThrows? then []
    else (if script[0].Data? then [script[0].bytes] else []) + Inputs(script[1..])
  }

  /** The rounds of the loop as Lifecycle sees them, if no write fails. */
  function LifeOf(app: Application, st: State, script: seq<ReadOutcome>): seq<L.Input>
    requires AllManageable(app, st, Inputs(script))
    decreases |script|
  {
    if script == [] || Over(st) then []
    else match script[0]
      case Eof => [L.EndOfFile]
      case ReadThrows => [L.ReadThrows]
      case Data(bytes) =>
        var inputs := Inputs(script);
        assert inputs[0] == bytes && inputs[1..] == Inputs(script[1..]);
        [Observed(app, st, bytes)] + LifeOf(app, Step(app, st, bytes), script[1..])
      case _ =>
        assert Inputs(script) == Inputs(script[1..]);
        [L.NothingRead] + LifeOf(app, st, script[1..])
  }

  /** Round by round, the same happened. */
  predicate Mirrors(life: seq<L.Input>, script: seq<ReadOutcome>)
  {
    && |life| <= |script|
    && forall i :: 0 <= i < |life| ==>
         && (life[i].Data? <==> script[i].Data?)
         && (life[i].EndOfFile? <==> script[i].Eof?)
         && (life[i].ReadThrows? <==> script[i].ReadThrows?)
  }

  lemma {:induction false} InputsFrom(script: seq<ReadOutcome>, i: nat)
    requires i < |script|
    ensures var now, later := Inputs(script[i..]), Inputs(script[i + 1..]);
      && (script[i].Eof? || script[i].ReadThrows? ==> now == [])
      && (script[i].Data? ==> now != [] && now[0] == script[i].bytes && now[1..] == later)
      && (script[i].NotReadable? || script[i].Retry? ==> now == later)
  {
    assert script[i..][1..] == script[i + 1..];
  }

  lemma {:induction false} UpgradedGrows(app: Application, headers: Headers, wire: seq<Byte>)
    requires "Sec-WebSocket-Key" in headers
    ensures wire <= wire + Greeting(app, headers) <= OnWire(Upgraded(app, headers, wire))
  {
    hide Greeting;
    WireGrows(Link(wire + Greeting(app, headers), false), app.onConnect.requests);
    hide PerformAll;
  }

  lemma {:induction false} ConcatGrows(sends: seq<seq<Byte>>, i: nat)
    requires i <= |sends|
    ensures Concat(sends[..i]) <= Concat(sends)
    decreases |sends| - i
  {
    if i == |sends| {
      assert sends[..i] == sends;
    } else {
      assert sends[..i + 1][..i] == sends[..i];
      ConcatGrows(sends, i + 1);
    }
  }

  lemma {:induction false} RequestedGrows(app: Application, all: string, wire: seq<Byte>)
    ensures wire <= OnWire(Requested(app, all, wire))
  {
    hide Seen;
    hide TargetOf;
    hide HeaderLines;
    hide HasField;
    hide Upgraded;
    var headers := HeaderLines(AfterLine(Seen(all)), map[]);
    if IsWsRequest(headers) { UpgradedGrows(app, headers, wire); }
  }

  lemma {:induction false} StepGrows(app: Application, st: State, buf: seq<Byte>)
    requires Manageable(st, buf)
    ensures OnWire(st) <= OnWire(Step(app, st, buf))
  {
    hide Complete;
    hide Requested;
    hide Acceptable;
    hide PathFits;
    hide Receive;
    match st
    case Collecting(received, sent) => RequestedGrows(app, received + Chars(buf), sent);
    case Ended(_) =>
    case Serving(s) => ReceiveGrows(app.handler, s, buf);
  }

  lemma {:induction false} RunAllGrows(app: Application, st: State, inputs: seq<seq<Byte>>)
    requires AllManageable(app, st, inputs)
    ensures OnWire(st) <= OnWire(RunAll(app, st, inputs))
    decreases |inputs|
  {
    hide Manageable;
    hide Step;
    if inputs != [] && !Over(st) {
      StepGrows(app, st, inputs[0]);
      RunAllGrows(app, Step(app, st, inputs[0]), inputs[1..]);
    }
  }

  /** How far `onEnter` got on its way to a state. */
  ghost predicate Reached(st: State, end: CallEnd, before: seq<Byte>, link: Link)
  {
    && (end == Normal ==> st == Serving(Session(0, [], link, [], false)))
    && (end == BadArgument || end == Escapes ==> st == Ended(link.wire))
    && Written(end == WriteFailed, before, link.wire, OnWire(st))
  }

  class TcpServerHandler {
    const connection: Connection
    const app: Application
    const requestInfo: RequestInfo
    const initState: HttpInitState
    var curState: L.Kind
    var nextState: L.Kind         // Init stands for the null pointer
    var wsState: HttpWsState?     // the current or next state, if that is the WebSocket state
    ghost var trace: seq<L.Event>

    constructor (connection: Connection, app: Application)
      requires !connection.closed
      ensures this.connection == connection && this.app == app
      ensures fresh(requestInfo) && fresh(initState) && fresh(initState.recvBuf)
      ensures Valid() && Life() == L.FRESH
      ensures View(false) == Collecting("", connection.socket.wire)
    {
      this.connection := connection;
      this.app := app;
      var info := new RequestInfo();
      requestInfo := info;
      initState := new HttpInitState(info);
      curState, nextState, wsState, trace := L.Init, L.Init, null, [];
    }

    /** The state that will see the next read. */
    function Current(): L.Kind
      reads this
    {
      if nextState != L.Init then nextState else curState
    }

    /** The states belong to this object. */
    ghost predicate Linked()
      reads this, initState, initState.recvBuf, connection
    {
      && initState.Valid() && initState.requestInfo == requestInfo
      && (Current() == L.Get ==> connection.closed)
      && (Current() == L.Ws ==>
            wsState != null && wsState.connection.tcpConnection == connection && wsState.handler == app.handler)
    }

    /** Between reads. While a request is collected, nothing is parsed yet. */
    ghost predicate Valid()
      reads this, initState, initState.recvBuf, requestInfo, connection
    {
      && Linked() && nextState == L.Init
      && (curState == L.Init && !connection.closed ==> requestInfo.headers == map[])
    }

    ghost function View(escaped: bool): State
      reads this, initState, initState.recvBuf, connection, connection.socket
      reads if wsState == null then {} else {wsState, wsState.inBuf, wsState.connection}
      requires Linked()
    {
      if Current() == L.Ws then Serving(wsState.View(escaped))
      else if connection.closed then Ended(connection.socket.wire)
      else Collecting(initState.Received(), connection.socket.wire)
    }

    lemma {:induction false} ViewShows(escaped: bool)
      requires Linked() && (escaped ==> Current() == L.Ws)
      ensures OnWire(View(escaped)) == connection.socket.wire
      ensures Over(View(escaped)) <==> connection.closed || escaped
    {
    }

    /** The object as Lifecycle sees it. */
    ghost function Life(): L.Handler
      reads this, connection
    {
      L.Handler(Current(), connection.closed, trace)
    }

    ghost method Log(e: L.Event)
      modifies `trace
      ensures trace == old(trace) + [e]
    {
      trace := trace + [e];
    }

    method CloseConnection()
      modifies `trace, connection
      ensures Life() == L.Close(old(Life()))
    {
      if !connection.closed {
        connection.Close();
        Log(L.Closed);
      }
    }

    /** Any handler's `do_GET`: one send after the other. */
    method SendEach(sends: seq<seq<Byte>>) returns (failed: bool)
      requires !connection.closed
      modifies connection.socket
      ensures Written(failed, old(connection.socket.wire), connection.socket.wire,
                      old(connection.socket.wire) + Concat(sends))
      ensures connection.socket.failures == old(connection.socket.failures) + Once(failed)
    {
      ghost var before := connection.socket.wire;
      var i := 0;
      failed := false;
      while i < |sends|
        invariant 0 <= i <= |sends| && !failed
        invariant connection.socket.wire == before + Concat(sends[..i])
        invariant connection.socket.failures == old(connection.socket.failures)
      {
        var n, ok := connection.Send(sends[i]);
        assert sends[..i + 1][..i] == sends[..i];
        assert before + Concat(sends[..i]) + sends[i] == before + Concat(sends[..i + 1]);
        ConcatGrows(sends, i + 1);
        if !ok {
          return true;
        }
        i := i + 1;
      }
      assert sends[..i] == sends;
    }

    /** `do_GET` of the application's handler. */
    method DoGetOfHandler() returns (failed: bool, threw: bool)
      requires !connection.closed
      modifies connection.socket
      ensures threw == (failed || GetThrows(app.http, requestInfo.path, requestInfo.headers))
      ensures Written(failed, old(connection.socket.wire), connection.socket.wire,
                      old(connection.socket.wire) + PageOf(app.http, requestInfo.path, requestInfo.headers))
      ensures connection.socket.failures == old(connection.socket.failures) + Once(failed)
    {
      hide Page;
      hide Concat;
      match app.http
      case Files(files) =>
        var ok := DoGet(connection, files, requestInfo.path);
        failed, threw := !ok, !ok;
      case Custom(answer) =>
        var reaction := answer(requestInfo.path, requestInfo.headers);
        failed := SendEach(reaction.sends);
        threw := failed || reaction.throws;
    }

    /** `HttpGetState::onEnter`: `do_GET`, then a close. */
    method EnterGet() returns (failed: bool, threw: bool, ghost entry: L.Entry)
      requires Current() == L.Init && !connection.closed
      modifies `trace, connection, connection.socket
      ensures threw == (failed || GetThrows(app.http, requestInfo.path, requestInfo.headers))
      ensures (Life(), threw) == L.Enter(old(Life()), L.Get, entry) && (!threw ==> connection.closed)
      ensures entry == if threw then L.ThrowsBeforeConnect else L.Completes(true)
      ensures Written(failed, old(connection.socket.wire), connection.socket.wire,
                      old(connection.socket.wire) + PageOf(app.http, requestInfo.path, requestInfo.headers))
      ensures connection.socket.failures == old(connection.socket.failures) + Once(failed)
    {
      hide PageOf;
      hide GetThrows;
      Log(L.EnterBegins(L.Get));
      failed, threw := DoGetOfHandler();
      entry := L.ThrowsBeforeConnect;
      if !threw {
        entry := L.Completes(true);
        CloseConnection();
        Log(L.Entered(L.Get));
      }
    }

    /** `onConnect` of the application's handler. */
    method ConnectHandler(state: HttpWsState) returns (end: CallEnd)
      requires state.connection.tcpConnection == connection
      modifies connection, connection.socket
      ensures var (link, threw) := PerformAll(old(LinkOf(connection)), app.onConnect.requests);
        && (end == Normal ==> !threw && app.onConnect.ending == Returns)
        && (end == BadArgument || end == Escapes ==> threw || app.onConnect.ending != Returns)
        && (end != WriteFailed ==> LinkOf(connection) == link)
        && Written(end == WriteFailed, old(connection.socket.wire), connection.socket.wire, link.wire)
      ensures connection.socket.failures == old(connection.socket.failures) + Once(end == WriteFailed)
    {
      hide PerformAll;
      end := state.Perform(app.onConnect.requests);
      if end == Normal {
        match app.onConnect.ending
        case Returns =>
        case ThrowsInvalidArgument => end := BadArgument;
        case ThrowsOther => end := Escapes;
      }
    }

    /** `HttpWsState::onEnter`: the 101 response in one send, then `onConnect`. */
    method EnterWs(state: HttpWsState) returns (end: CallEnd, ghost entry: L.Entry)
      requires Current() == L.Init && !connection.closed && "Sec-WebSocket-Key" in requestInfo.headers
      requires state.connection.tcpConnection == connection
      modifies `trace, connection, connection.socket
      ensures (Life(), end != Normal) == L.Enter(old(Life()), L.Ws, entry)
      ensures end != WriteFailed ==> entry == EntryWs(app, requestInfo.headers, old(connection.socket.wire))
      ensures Reached(Upgraded(app, requestInfo.headers, old(connection.socket.wire)), end,
                      old(connection.socket.wire), LinkOf(connection))
      ensures connection.socket.failures == old(connection.socket.failures) + Once(end == WriteFailed)
    {
      hide Greeting;
      hide PerformAll;
      UpgradedGrows(app, requestInfo.headers, connection.socket.wire);
      Log(L.EnterBegins(L.Ws));
      var n, ok := connection.Send(Greeting(app, requestInfo.headers));
      if !ok {
        return WriteFailed, L.ThrowsBeforeConnect;
      }
      assert connection.socket.wire == old(connection.socket.wire) + Greeting(app, requestInfo.headers);
      end := ConnectHandler(state);
      if connection.closed { Log(L.Closed); }
      entry := L.ThrowsInConnect(connection.closed);
      if end == Normal {
        entry := L.Completes(connection.closed);
        Log(L.ConnectReturned);
        Log(L.Entered(L.Ws));
      }
    }

    /** `setNextState` inside the try block of the initial state; exceptions of `onEnter` end in a close. */
    method SetNextState() returns (failed: bool, ghost reading: L.Reading)
      requires Linked() && Current() == L.Init && !connection.closed
      requires requestInfo.requestType == if IsWsRequest(requestInfo.headers) then GET_WS else GET
      modifies `trace, `nextState, `wsState, connection, connection.socket
      ensures Linked() && Life() == L.ReceiveInit(old(Life()), reading)
      ensures Current() != L.Init || connection.closed
      ensures Current() == L.Ws ==> fresh(wsState) && fresh(wsState.inBuf) && fresh(wsState.connection)
      ensures !failed ==>
                reading == EnteredAs(app, requestInfo.path, requestInfo.headers, old(connection.socket.wire))
      ensures var r := Entered(app, requestInfo.path, requestInfo.headers, old(connection.socket.wire));
        && (if failed then connection.closed && Current() == L.Init else View(false) == r)
        && Written(failed, old(connection.socket.wire), connection.socket.wire, OnWire(r))
      ensures connection.socket.failures == old(connection.socket.failures) + Once(failed)
    {
      hide Upgraded;
      hide EntryWs;
      hide PageOf;
      hide GetThrows;
      hide HasField;
      failed := false;
      if requestInfo.requestType == GET {
        var threw;
        ghost var entry;
        failed, threw, entry := EnterGet();
        reading := L.IsGet(entry);
        if !threw { nextState := L.Get; }
      } else {
        var state := new HttpWsState(connection, app.handler);
        var end;
        ghost var entry;
        end, entry := EnterWs(state);
        reading := L.IsUpgrade(entry);
        failed := end == WriteFailed;
        if end == Normal { nextState, wsState := L.Ws, state; }
      }
      if nextState == L.Init { CloseConnection(); }
    }

    /** `HttpInitState::onReceive`. Its exceptions end in a close; the flag tells that a write failed. */
    method ReceiveInit(buf: seq<Byte>) returns (failed: bool, ghost reading: L.Reading)
      requires Valid() && curState == L.Init && !connection.closed && Manageable(View(false), buf)
      modifies `trace, `nextState, `wsState, initState, initState.recvBuf, requestInfo, connection, connection.socket
      ensures Linked() && Life() == L.ReceiveInit(old(Life()), reading)
      ensures Current() == L.Init && !connection.closed ==> requestInfo.headers == map[]
      ensures !failed ==> L.Data(reading, L.Effect(false, false)) == Observed(app, old(View(false)), buf)
      ensures Current() == L.Ws ==> fresh(wsState) && fresh(wsState.inBuf) && fresh(wsState.connection)
      ensures var r := Step(app, old(View(false)), buf);
        && (if failed then connection.closed else View(false) == r)
        && Written(failed, old(connection.socket.wire), connection.socket.wire, OnWire(r))
      ensures connection.socket.failures == old(connection.socket.failures) + Once(failed)
    {
      hide HeaderLines;
      hide TargetOf;
      hide Seen;
      hide Complete;
      hide Entered;
      hide EnteredAs;
      failed := false;
      RequestedGrows(app, initState.Received() + Chars(buf), connection.socket.wire);
      var outcome := initState.OnReceive(Chars(buf));
      if outcome.NeedMore? {
        reading := L.Incomplete;
      } else if outcome.result.Bad? {
        reading := L.Malformed;
        CloseConnection();
      } else {
        failed, reading := SetNextState();
      }
    }

    /** `HttpWsState::onReceive`. */
    method ReceiveWs(buf: seq<Byte>) returns (end: CallEnd, ghost effect: L.Effect)
      requires Valid() && curState == L.Ws && wsState != null && !connection.closed && Acceptable(buf)
      modifies `trace, wsState, wsState.inBuf, connection, connection.socket
      ensures Valid() && end != BadArgument
      ensures Life() == L.CloseIf(old(Life()), effect.closes) && effect.escapes == (end != Normal)
      ensures var r := Receive(app.handler, old(wsState.View(false)), buf);
        && (end != WriteFailed ==> wsState.View(end == Escapes) == r)
        && (end != WriteFailed ==> effect == L.Effect(r.link.closed, r.escaped))
        && Written(end == WriteFailed, old(connection.socket.wire), connection.socket.wire, r.link.wire)
      ensures connection.socket.failures == old(connection.socket.failures) + Once(end == WriteFailed)
    {
      hide Receive;
      hide Acceptable;
      end := wsState.OnReceive(buf);
      effect := L.Effect(connection.closed, end != Normal);
      if connection.closed { Log(L.Closed); }
    }

    /**
     `onReceive`: the current state sees the read, then the next state takes over. The result is the one of Step,
     and the callbacks are those of Lifecycle.
     */
    method OnReceive(buf: seq<Byte>)
      returns (end: CallEnd, failed: bool, ghost reading: L.Reading, ghost effect: L.Effect)
      requires Valid() && !connection.closed && Manageable(View(false), buf)
      modifies this, initState, initState.recvBuf, requestInfo, connection, connection.socket
      modifies if curState == L.Ws && wsState != null then {wsState, wsState.inBuf} else {}
      ensures Valid() && end != BadArgument
      ensures (Life(), end != Normal) == L.Receive(old(Life()), reading, effect)
      ensures end == Escapes ==> curState == L.Ws
      ensures !failed ==> L.Data(reading, effect) == Observed(app, old(View(false)), buf)
      ensures curState == L.Ws ==>
                (old(curState) == L.Ws && wsState == old(wsState)) || (fresh(wsState) && fresh(wsState.inBuf))
      ensures var r := Step(app, old(View(false)), buf);
        && (if failed then end == WriteFailed || connection.closed else end != WriteFailed && View(end == Escapes) == r)
        && Written(failed, old(connection.socket.wire), connection.socket.wire, OnWire(r))
      ensures connection.socket.failures == old(connection.socket.failures) + Once(failed)
    {
      hide Receive;
      hide Requested;
      hide RequestedAs;
      hide Complete;
      hide Seen;
      hide TargetOf;
      hide Acceptable;
      hide L.ReceiveInit;
      hide L.CloseIf;
      end, failed := Normal, false;
      reading, effect := L.Incomplete, L.Effect(false, false);
      Log(L.Received(curState));
      if curState == L.Init {
        failed, reading := ReceiveInit(buf);
      } else if curState == L.Ws {
        end, effect := ReceiveWs(buf);
        failed := end == WriteFailed;
      }
      if nextState != L.Init {
        curState, nextState := nextState, L.Init;
      }
    }

    /** `onDisconnect`; the application's may throw. */
    method OnDisconnect(outside: Outside) returns (threw: bool)
      modifies `trace, outside
      ensures Life() == L.Disconnect(old(Life()))
      ensures outside.raised == old(outside.raised) + Once(threw)
    {
      threw := false;
      if Current() == L.Ws {
        Log(L.Disconnected);
        threw := outside.Raises();
      }
    }
  }

  /** A round with data, as Lifecycle sees it. */
  lemma {:induction false} LifeSnoc(life: seq<L.Input>, reading: L.Reading, effect: L.Effect)
    requires L.Delivers(life) && !L.Loop(L.FRESH, life).1 && !L.Loop(L.FRESH, life).0.closed
    ensures L.Loop(L.FRESH, life + [L.Data(reading, effect)]) ==
            L.Receive(L.Loop(L.FRESH, life).0, reading, effect)
    ensures L.Loop(L.FRESH, life + [L.NothingRead]) == L.Loop(L.FRESH, life)
    ensures L.Loop(L.FRESH, life + [L.EndOfFile]) == L.Loop(L.FRESH, life)
    ensures L.Loop(L.FRESH, life + [L.ReadThrows]) == (L.Loop(L.FRESH, life).0, true)
  {
    var h := L.Loop(L.FRESH, life).0;
    L.LoopSnoc(L.FRESH, life, L.Data(reading, effect));
    L.LoopSnoc(L.FRESH, life, L.NothingRead);
    L.LoopSnoc(L.FRESH, life, L.EndOfFile);
    L.LoopSnoc(L.FRESH, life, L.ReadThrows);
    hide L.Receive;
    assert [L.Data(reading, effect)][1..] == [] && [L.NothingRead][1..] == [];
    var (r, threw) := L.Receive(h, reading, effect);
    assert L.Loop(r, []) == (r, false);
    assert L.Loop(h, []) == (h, false);
  }

  lemma {:induction false} NothingYet()
    ensures L.Loop(L.FRESH, []) == (L.FRESH, false)
  {
  }

  lemma {:induction false} LifeOfStep(app: Application, st: State, script: seq<ReadOutcome>)
    requires AllManageable(app, st, Inputs(script)) && !Over(st) && script != [] && script[0].Data?
    ensures var bytes := script[0].bytes;
      && Manageable(st, bytes) && AllManageable(app, Step(app, st, bytes), Inputs(script[1..]))
      && LifeOf(app, st, script) == [Observed(app, st, bytes)] + LifeOf(app, Step(app, st, bytes), script[1..])
  {
    hide Manageable;
    hide Step;
    hide Observed;
    InputsFrom(script, 0);
    assert script[0..] == script;
  }

  lemma {:induction false} LifeOfIdle(app: Application, st: State, script: seq<ReadOutcome>)
    requires AllManageable(app, st, Inputs(script)) && !Over(st) && script != [] && !script[0].Data?
    ensures var life := LifeOf(app, st, script);
      && (script[0].Eof? ==> Inputs(script) == [] && life == [L.EndOfFile])
      && (script[0].ReadThrows? ==> Inputs(script) == [] && life == [L.ReadThrows])
      && (script[0].NotReadable? || script[0].Retry? ==>
            Inputs(script) == Inputs(script[1..]) && life == [L.NothingRead] + LifeOf(app, st, script[1..]))
  {
    hide Manageable;
    hide Step;
    hide Observed;
    InputsFrom(script, 0);
    assert script[0..] == script;
  }

  lemma {:induction false} NothingLeft(app: Application, st: State)
    ensures Inputs([]) == [] && AllManageable(app, st, Inputs([])) && LifeOf(app, st, []) == []
  {
    hide Manageable;
    hide Step;
    hide Observed;
  }

  class ClientWorker {
    const handler: TcpServerHandler
    const outside: Outside   // the application's `onDisconnect` and the closing of the socket
    var isActive: bool
    var socketClosed: bool

    constructor (handler: TcpServerHandler, outside: Outside)
      ensures this.handler == handler && this.outside == outside && isActive && !socketClosed
    {
      this.handler, this.outside := handler, outside;
      isActive, socketClosed := true, false;
    }

    /** What is left of the script leads from here to the whole: to its end state, and through its rounds. */
    ghost predicate Toward(whole: State, all: seq<L.Input>, life: seq<L.Input>, end: CallEnd, failed: bool,
                           rest: seq<ReadOutcome>)
      reads handler, handler.initState, handler.initState.recvBuf, handler.connection, handler.connection.socket
      reads if handler.wsState == null then {} else {handler.wsState, handler.wsState.inBuf, handler.wsState.connection}
      requires handler.Linked()
    {
      if failed then end == WriteFailed || handler.connection.closed
      else
        && end != WriteFailed && (end == Escapes ==> handler.curState == L.Ws)
        && AllManageable(handler.app, handler.View(end == Escapes), Inputs(rest))
        && RunAll(handler.app, handler.View(end == Escapes), Inputs(rest)) == whole
        && life + LifeOf(handler.app, handler.View(end == Escapes), rest) == all
    }

    lemma {:induction false} TowardBegins(script: seq<ReadOutcome>)
      requires handler.Valid() && AllManageable(handler.app, handler.View(false), Inputs(script))
      ensures var whole := RunAll(handler.app, handler.View(false), Inputs(script));
        && Toward(whole, LifeOf(handler.app, handler.View(false), script), [], Normal, false, script)
        && handler.connection.socket.wire <= OnWire(whole)
    {
      hide RunAll;
      hide AllManageable;
      hide LifeOf;
      RunAllGrows(handler.app, handler.View(false), Inputs(script));
    }

    lemma {:induction false} TowardEnds(whole: State, all: seq<L.Input>, life: seq<L.Input>, end: CallEnd, failed: bool,
                                        rest: seq<ReadOutcome>)
      requires handler.Valid() && Toward(whole, all, life, end, failed, rest) && !failed && end != BadArgument
      requires handler.connection.closed || end != Normal || rest == []
      ensures end != WriteFailed && handler.View(end == Escapes) == whole && life == all
      ensures handler.connection.socket.wire == OnWire(whole)
    {
      hide RunAll;
      hide AllManageable;
      handler.ViewShows(end == Escapes);
      RunAllOver(handler.app, handler.View(end == Escapes), Inputs(rest));
    }

    /** A round without data; after the end of file or an exception nothing is left. */
    lemma {:induction false} TowardIdle(whole: State, all: seq<L.Input>, life: seq<L.Input>, rest: seq<ReadOutcome>)
      requires handler.Valid() && !handler.connection.closed && Toward(whole, all, life, Normal, false, rest)
      requires rest != [] && !rest[0].Data?
      ensures rest[0].Eof? ==> Toward(whole, all, life + [L.EndOfFile], Normal, false, [])
      ensures rest[0].ReadThrows? ==> Toward(whole, all, life + [L.ReadThrows], Normal, false, [])
      ensures rest[0].NotReadable? || rest[0].Retry? ==>
                Toward(whole, all, life + [L.NothingRead], Normal, false, rest[1..])
    {
      hide RunAll;
      hide AllManageable;
      hide LifeOf;
      hide Inputs;
      handler.ViewShows(false);
      var st := handler.View(false);
      LifeOfIdle(handler.app, st, rest);
      RunAllOver(handler.app, st, []);
      NothingLeft(handler.app, st);
    }

    /** One round of the loop with data. */
    method Deliver(bytes: seq<Byte>, ghost whole: State, ghost all: seq<L.Input>, ghost rest: seq<ReadOutcome>,
                   ghost life: seq<L.Input>)
      returns (end: CallEnd, failed: bool, ghost lived: L.Input)
      requires handler.Valid() && !handler.connection.closed
      requires rest != [] && rest[0] == Data(bytes) && Toward(whole, all, life, Normal, false, rest)
      requires L.Delivers(life) && L.Loop(L.FRESH, life) == (handler.Life(), false)
      modifies handler, handler.initState, handler.initState.recvBuf, handler.requestInfo
      modifies handler.connection, handler.connection.socket
      modifies if handler.curState == L.Ws && handler.wsState != null
               then {handler.wsState, handler.wsState.inBuf} else {}
      ensures handler.Valid() && end != BadArgument
      ensures Toward(whole, all, life + [lived], end, failed, rest[1..])
      ensures failed ==> end == WriteFailed || handler.connection.closed
      ensures handler.curState == L.Ws ==>
                || (old(handler.curState) == L.Ws && handler.wsState == old(handler.wsState))
                || (fresh(handler.wsState) && fresh(handler.wsState.inBuf))
      ensures old(handler.connection.socket.wire) <= handler.connection.socket.wire <= OnWire(whole)
      ensures failed ==> handler.connection.socket.wire != OnWire(whole)
      ensures handler.connection.socket.failures == old(handler.connection.socket.failures) + Once(failed)
      ensures lived.Data? && L.Loop(L.FRESH, life + [lived]) == (handler.Life(), end != Normal)
    {
      hide Step;
      hide Observed;
      hide Manageable;
      hide RunAll;
      hide AllManageable;
      hide LifeOf;
      hide Inputs;
      hide L.Receive;
      hide L.Loop;
      ghost var reading, effect;
      handler.ViewShows(false);
      InputsFrom(rest, 0);
      assert rest[0..] == rest;
      RunAllStep(handler.app, handler.View(false), Inputs(rest));
      LifeOfStep(handler.app, handler.View(false), rest);
      end, failed, reading, effect := handler.OnReceive(bytes);
      LifeSnoc(life, reading, effect);
      lived := L.Data(reading, effect);
    }

    /**
     `loop`, until the script ends (the quit condition). For every script of reads, unless a write fails, the state
     at the end is RunAll of the octets read, and the rounds, to Lifecycle, are LifeOf the script. If one fails, the
     wire holds a part of what it should, from its beginning.
     */
    method Loop(script: seq<ReadOutcome>) returns (exit: Exit, end: CallEnd, failed: bool, ghost life: seq<L.Input>)
      requires handler.Valid() && handler.Life() == L.FRESH
      requires AllManageable(handler.app, handler.View(false), Inputs(script))
      modifies handler, handler.initState, handler.initState.recvBuf, handler.requestInfo
      modifies handler.connection, handler.connection.socket
      ensures handler.Valid() && end != BadArgument
      ensures L.Loop(L.FRESH, life) == (handler.Life(), exit == Thrown)
      ensures Mirrors(life, script) && (exit == Quit && |life| < |script| ==> handler.connection.closed)
      ensures !failed ==> life == LifeOf(handler.app, old(handler.View(false)), script)
      ensures var r := RunAll(handler.app, old(handler.View(false)), Inputs(script));
        && (!failed ==> end != WriteFailed && handler.View(end == Escapes) == r)
        && Written(failed, old(handler.connection.socket.wire), handler.connection.socket.wire, OnWire(r))
      ensures handler.connection.socket.failures == old(handler.connection.socket.failures) + Once(failed)
    {
      hide Inputs;
      hide OnWire;
      hide RunAll;
      hide AllManageable;
      hide LifeOf;
      hide Toward;
      hide L.Loop;
      hide TcpServerHandler.View;
      ghost var whole := RunAll(handler.app, handler.View(false), Inputs(script));
      ghost var all := LifeOf(handler.app, handler.View(false), script);
      TowardBegins(script);
      NothingYet();
      var i := 0;
      exit, end, failed, life := Quit, Normal, false, [];
      assert script[0..] == script;
      ghost var rest := script;
      while i < |script| && !handler.connection.closed && exit == Quit
        invariant 0 <= i <= |script| && handler.Valid() && end != BadArgument && (end != Normal ==> exit == Thrown)
        invariant handler.curState == L.Ws ==> fresh(handler.wsState) && fresh(handler.wsState.inBuf)
        invariant if exit == Quit then L.Delivers(life) && rest == script[i..] else end == Normal ==> rest == []
        invariant |life| == i && Mirrors(life, script)
        invariant L.Loop(L.FRESH, life) == (handler.Life(), exit == Thrown)
        invariant Toward(whole, all, life, end, failed, rest)
        invariant failed ==> end == WriteFailed || handler.connection.closed
        invariant old(handler.connection.socket.wire) <= handler.connection.socket.wire <= OnWire(whole)
        invariant failed ==> handler.connection.socket.wire != OnWire(whole)
        invariant handler.connection.socket.failures == old(handler.connection.socket.failures) + Once(failed)
        decreases |script| - i
      {
        var outcome := script[i];
        assert rest[0] == outcome && rest[1..] == script[i + 1..];
        i := i + 1;
        if outcome.Data? {
          ghost var lived;
          end, failed, lived := Deliver(outcome.bytes, whole, all, rest, life);
          rest, life := rest[1..], life + [lived];
          if end != Normal { exit := Thrown; }
        } else {
          LifeSnoc(life, L.Incomplete, L.Effect(false, false));
          TowardIdle(whole, all, life, rest);
          if outcome.Eof? {
            exit, life, rest := EndOfFile, life + [L.EndOfFile], [];
          } else if outcome.ReadThrows? {
            exit, life, rest := Thrown, life + [L.ReadThrows], [];
          } else {
            life, rest := life + [L.NothingRead], rest[1..];
          }
        }
      }
      if !failed { TowardEnds(whole, all, life, end, failed, rest); }
    }

    /**
     `run`. Whatever throws, `onDisconnect` and the closing of the socket included, the worker ends inactive; the
     socket is closed here exactly if nothing did. The callbacks are those of a run of Lifecycle: they form a safe
     trace, and unless a write fails they are a function of the octets read.
     */
    method Run(script: seq<ReadOutcome>)
      returns (exit: Exit, end: CallEnd, failed: bool, threw: bool, ghost life: seq<L.Input>)
      requires handler.Valid() && handler.Life() == L.FRESH && !socketClosed
      requires AllManageable(handler.app, handler.View(false), Inputs(script))
      modifies this, outside, handler, handler.initState, handler.initState.recvBuf, handler.requestInfo
      modifies handler.connection, handler.connection.socket
      ensures !isActive && handler.Valid() && end != BadArgument
      ensures (exit == Thrown ==> threw) && socketClosed == !threw
      ensures outside.raised == old(outside.raised) + Once(threw && exit != Thrown)
      ensures (handler.Life(), exit == Thrown) == L.RunWorker(life) && L.Safe(handler.trace)
      ensures Mirrors(life, script) && (exit == Quit && |life| < |script| ==> handler.connection.closed)
      ensures !failed ==> life == LifeOf(handler.app, old(handler.View(false)), script)
      ensures var r := RunAll(handler.app, old(handler.View(false)), Inputs(script));
        && (!failed ==> end != WriteFailed && handler.View(end == Escapes) == r)
        && Written(failed, old(handler.connection.socket.wire), handler.connection.socket.wire, OnWire(r))
      ensures handler.connection.socket.failures == old(handler.connection.socket.failures) + Once(failed)
    {
      hide RunAll;
      hide AllManageable;
      hide LifeOf;
      hide Mirrors;
      hide Inputs;
      hide L.Loop;
      hide L.Safe;
      hide OnWire;
      hide Written;
      exit, end, failed, life := Loop(script);
      threw := WindUp(exit);
      L.LifecycleSafe(life);
    }

    /** The rest of `run` after its loop. */
    method WindUp(exit: Exit) returns (threw: bool)
      requires !socketClosed
      modifies this, outside, handler`trace
      ensures !isActive && socketClosed == !threw && (exit == Thrown ==> threw)
      ensures outside.raised == old(outside.raised) + Once(threw && exit != Thrown)
      ensures handler.Life() == if exit == Thrown then old(handler.Life()) else L.Disconnect(old(handler.Life()))
    {
      threw := exit == Thrown;
      if !threw {
        threw := handler.OnDisconnect(outside);
      }
      if !threw {
        threw := CloseSocket();
      }
      isActive := false;
    }

    /** `socket->close()`. */
    method CloseSocket() returns (threw: bool)
      modifies `socketClosed, outside
      ensures socketClosed == (old(socketClosed) || !threw)
      ensures outside.raised == old(outside.raised) + Once(threw)
    {
      threw := outside.Raises();
      if !threw { socketClosed := true; }
    }
  }

  /** One client, from accept on. `onDisconnect` reaches a WebSocket handler unless an exception escapes. */
  method ServeClient(connection: Connection, app: Application, script: seq<ReadOutcome>)
    returns (exit: Exit, failed: bool, ghost trace: seq<L.Event>)
    requires !connection.closed && AllManageable(app, Collecting("", connection.socket.wire), Inputs(script))
    modifies connection, connection.socket
    ensures var r := RunAll(app, Collecting("", old(connection.socket.wire)), Inputs(script));
      && (!failed ==> connection.socket.wire == OnWire(r))
      && (!failed && r.Serving? ==> (exit == Thrown || L.Disconnected in trace))
      && (!failed && r.Ended? ==> connection.closed)
      && Written(failed, old(connection.socket.wire), connection.socket.wire, OnWire(r))
    ensures connection.socket.failures == old(connection.socket.failures) + Once(failed)
    ensures L.Safe(trace)
    ensures !failed ==>
              trace == L.RunWorker(LifeOf(app, Collecting("", old(connection.socket.wire)), script)).0.trace
  {
    hide LifeOf;
    hide Mirrors;
    hide AllManageable;
    hide RunAll;
    hide L.Safe;
    hide L.Loop;
    var handler := new TcpServerHandler(connection, app);
    var outside := new Outside();
    var worker := new ClientWorker(handler, outside);
    var end;
    ghost var life;
    var threw;
    exit, end, failed, threw, life := worker.Run(script);
    trace := handler.trace;
  }
}

/** Requests that fit the buffers, through the initial state. */
module RequestRuns {
  import opened Bytes
  import opened Text
  import opened HttpParse
  import opened HttpInit
  import opened PrintedRequests
  import opened Reassembly
  import opened HttpServer

  /** A printed request that the server's buffers can hold. */
  predicate Bounded(r: HttpParse.Request)
  {
    Printable(r) && |Print(r)| < BUF_SIZE && |r.path| < MAX_PATH_LEN
  }

  function Texts(inputs: seq<seq<Byte>>): (ts: seq<string>)
    ensures |ts| == |inputs|
    ensures forall i :: 0 <= i < |ts| ==> ts[i] == Chars(inputs[i])
  {
    seq(|inputs|, i requires 0 <= i < |inputs| => Chars(inputs[i]))
  }

  /**
   However TCP cuts a request whose terminator is only at its end, after its last read the connection is where a
   single read would have led it.
   */
  lemma {:induction false} CollectRun(app: Application, s: string, received: string, wire: seq<Byte>,
                                      head: seq<seq<Byte>>, tail: seq<seq<Byte>>)
    requires |s| <= BUF_SIZE && Complete(s) && TerminatorOnlyAtEnd(s) && PathFits(Seen(s), |s|)
    requires head != [] && received + Flatten(Texts(head)) == s && |received + Chars(head[0])| >= 4
    requires forall i :: 0 <= i < |head| ==> head[i] != []
    requires AllManageable(app, Requested(app, s, wire), tail)
    ensures AllManageable(app, Collecting(received, wire), head + tail)
    ensures RunAll(app, Collecting(received, wire), head + tail) == RunAll(app, Requested(app, s, wire), tail)
    decreases |head|
  {
    hide *;
    var all, inputs, texts := received + Chars(head[0]), head + tail, Texts(head);
    NextRead(received, texts, s);
    assert inputs[0] == head[0] && inputs[1..] == head[1..] + tail;
    if |head| == 1 {
      assert inputs[1..] == tail;
    } else {
      assert texts[1..] == Texts(head[1..]) && texts[1] == Chars(head[1]);
      CollectRun(app, s, all, wire, head[1..], tail);
    }
    FirstRead(app, received, wire, inputs);
  }

  /** One read of the request. */
  lemma {:induction false} FirstRead(app: Application, received: string, wire: seq<Byte>, inputs: seq<seq<Byte>>)
    requires inputs != [] && 4 <= |received + Chars(inputs[0])| <= BUF_SIZE
    requires var all := received + Chars(inputs[0]);
      && (Complete(all) ==> PathFits(Seen(all), |all|))
      && AllManageable(app, if Complete(all) then Requested(app, all, wire) else Collecting(all, wire), inputs[1..])
    ensures AllManageable(app, Collecting(received, wire), inputs)
    ensures var all := received + Chars(inputs[0]);
      RunAll(app, Collecting(received, wire), inputs)
      == RunAll(app, if Complete(all) then Requested(app, all, wire) else Collecting(all, wire), inputs[1..])
  {
    hide Complete;
    hide Requested;
    hide Seen;
    hide PathFits;
    hide Acceptable;
  }

  /** The whole request is manageable, and leads into a state with the path and the headers the client printed. */
  lemma {:induction false} RequestedPrinted(app: Application, r: HttpParse.Request, wire: seq<Byte>)
    requires Bounded(r)
    ensures var all := Print(r);
      && 4 <= |all| <= BUF_SIZE && Complete(all) && TerminatorOnlyAtEnd(all) && PathFits(Seen(all), |all|)
      && Requested(app, all, wire) == Entered(app, r.path, FirstValues(r.headers, map[]), wire)
  {
    hide Printable;
    hide Print;
    hide HasField;
    hide TargetOf;
    hide HeaderLines;
    hide Upgraded;
    hide Entered;
    hide EndsRequest;
    hide TerminatorOnlyAtEnd;
    hide Seen;
    PrintedIsSplittable(r);
    PrintParseRoundTrip(r);
    SeenWholeIff(Print(r));
  }

  /** From accept to the first read after the request: however the request is cut, its printed contents decide. */
  lemma {:induction false} RequestAnswered(app: Application, r: HttpParse.Request, wire: seq<Byte>,
                                           head: seq<seq<Byte>>, tail: seq<seq<Byte>>)
    requires Bounded(r) && IsSplit(Print(r), Texts(head))
    requires AllManageable(app, Entered(app, r.path, FirstValues(r.headers, map[]), wire), tail)
    ensures AllManageable(app, Collecting("", wire), head + tail)
    ensures RunAll(app, Collecting("", wire), head + tail) ==
            RunAll(app, Entered(app, r.path, FirstValues(r.headers, map[]), wire), tail)
  {
    hide Bounded;
    hide Entered;
    hide Requested;
    hide Complete;
    hide TerminatorOnlyAtEnd;
    hide PathFits;
    hide Print;
    hide RunAll;
    hide AllManageable;
    hide Flatten;
    RequestedPrinted(app, r, wire);
    assert "" + Flatten(Texts(head)) == Print(r) && "" + Chars(head[0]) == Texts(head)[0];
    forall i | 0 <= i < |head|
      ensures head[i] != []
    {
      assert Texts(head)[i] != "";
    }
    CollectRun(app, Print(r), "", wire, head, tail);
  }

  /** A request that the parser rejects ends the connection, however it is cut, with nothing sent. */
  lemma {:induction false} MalformedEnds(app: Application, s: string, wire: seq<Byte>, head: seq<seq<Byte>>,
                                         tail: seq<seq<Byte>>)
    requires 4 <= |s| < BUF_SIZE && '\0' !in s && Complete(s) && TerminatorOnlyAtEnd(s) && IsSplit(s, Texts(head))
    requires !("GET" <= s) || forall first, second, rest :: !SpacedAs(s, first, second, rest)
    ensures AllManageable(app, Collecting("", wire), head + tail)
    ensures RunAll(app, Collecting("", wire), head + tail) == Ended(wire)
  {
    hide TargetOf;
    hide Complete;
    hide TerminatorOnlyAtEnd;
    hide Entered;
    hide HeaderLines;
    hide Flatten;
    hide Seen;
    hide SpacedAs;
    hide Manageable;
    hide Step;
    SeenWholeIff(s);
    TargetSpec(s, |s|);
    RunAllOver(app, Ended(wire), tail);
    assert "" + Flatten(Texts(head)) == s && "" + Chars(head[0]) == Texts(head)[0];
    forall i | 0 <= i < |head|
      ensures head[i] != []
    {
      assert Texts(head)[i] != "";
    }
    CollectRun(app, s, "", wire, head, tail);
  }
}
