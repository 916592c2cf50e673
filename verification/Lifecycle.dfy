/**
 One connection from accept to join: `TcpServerHandler`, its states, and the worker thread that drives them,
 observed as a trace of callbacks. Whatever parsers, handlers and sockets may do is an arbitrary script; the objects
 that follow such scripts are in HttpServer.
 */
module Lifecycle {
  datatype Kind = Init | Get | Ws

  datatype Event =
    | Received(on: Kind)      // onReceive of a state begins
    | EnterBegins(of: Kind)   // onEnter of a new state begins
    | ConnectReturned         // onConnect of the WebSocket handler has returned
    | Entered(of: Kind)       // onEnter of a new state has returned
    | Closed                  // the connection's closed flag is set
    | Disconnected            // onDisconnect of the WebSocket handler is called

  /** What entering a state comes to. */
  datatype Entry = Completes(closes: bool) | ThrowsBeforeConnect | ThrowsInConnect(closes: bool)

  /** What the initial state makes of a read. */
  datatype Reading = Incomplete | Malformed | IsGet(entry: Entry) | IsUpgrade(entry: Entry)

  /** What a WebSocket read comes to: handlers may close the connection and may throw. */
  datatype Effect = Effect(closes: bool, escapes: bool)

  datatype Input = NothingRead | EndOfFile | ReadThrows | Data(reading: Reading, effect: Effect)

  datatype Handler = Handler(cur: Kind, closed: bool, trace: seq<Event>)

  function Log(h: Handler, e: Event): Handler
  {
    h.(trace := h.trace + [e])
  }

  /** `Connection::close`. */
  function Close(h: Handler): Handler
  {
    if h.closed then h else Log(h.(closed := true), Closed)
  }

  function CloseIf(h: Handler, closes: bool): Handler
  {
    if closes then Close(h) else h
  }

  /** `onEnter` of a new state; the flag tells that it threw. GET answers and closes, Ws greets its handler. */
  function Enter(h: Handler, kind: Kind, entry: Entry): (Handler, bool)
  {
    var b := Log(h, EnterBegins(kind));
    match entry
    case ThrowsBeforeConnect => (b, true)
    case ThrowsInConnect(closes) => (CloseIf(b, closes), true)
    case Completes(closes) =>
      if kind == Get then (Log(Close(b), Entered(kind)), false)
      else (Log(Log(CloseIf(b, closes), ConnectReturned), Entered(kind)), false)
  }

  /** `onReceive` of the initial state: the new state is entered inside its try block, then becomes current. */
  function ReceiveInit(h: Handler, reading: Reading): Handler
  {
    match reading
    case Incomplete => h
    case Malformed => Close(h)
    case IsGet(entry) =>
      var (e, threw) := Enter(h, Get, entry);
      if threw then Close(e) else e.(cur := Get)
    case IsUpgrade(entry) =>
      var (e, threw) := Enter(h, Ws, entry);
      if threw then Close(e) else e.(cur := Ws)
  }

  /** `TcpServerHandler::onReceive`; the flag tells that an exception leaves it. */
  function Receive(h: Handler, reading: Reading, effect: Effect): (Handler, bool)
  {
    var r := Log(h, Received(h.cur));
    match h.cur
    case Init => (ReceiveInit(r, reading), false)
    case Get => (r, false)
    case Ws => (CloseIf(r, effect.closes), effect.escapes)
  }

  /** `ClientWorker::loop`; the script ends when the quit condition holds. */
  function Loop(h: Handler, script: seq<Input>): (Handler, bool)
    decreases |script|
  {
    if script == [] || h.closed then (h, false)
    else match script[0]
      case NothingRead => Loop(h, script[1..])
      case EndOfFile => (h, false)
      case ReadThrows => (h, true)
      case Data(reading, effect) =>
        var (r, threw) := Receive(h, reading, effect);
        if threw then (r, true) else Loop(r, script[1..])
  }

  /** `onDisconnect` reaches the application only in the WebSocket state. */
  function Disconnect(h: Handler): Handler
  {
    if h.cur == Ws then Log(h, Disconnected) else h
  }

  const FRESH := Handler(Init, false, [])

  /** `ClientWorker::run`; the flag tells that an exception escaped the loop. */
  function RunWorker(script: seq<Input>): (Handler, bool)
  {
    var (h, threw) := Loop(FRESH, script);
    if threw then (h, true) else (Disconnect(h), false)
  }

  // What callers may rely on

  function Past(trace: seq<Event>): (p: set<Event>)
    ensures forall e :: e in p <==> e in trace
  {
    set e | e in trace
  }

  /** Whether an event may come next, given everything that came before. */
  predicate Allowed(past: set<Event>, e: Event)
  {
    match e
    case Received(Init) => Closed !in past && EnterBegins(Get) !in past && EnterBegins(Ws) !in past
    case Received(Get) => false
    case Received(Ws) => Entered(Ws) in past && Closed !in past
    case EnterBegins(k) => k != Init && Received(Init) in past && EnterBegins(Get) !in past && EnterBegins(Ws) !in past
    case ConnectReturned => EnterBegins(Ws) in past && ConnectReturned !in past
    case Entered(k) => EnterBegins(k) in past && Entered(k) !in past
                       && (k == Ws ==> ConnectReturned in past) && (k == Get ==> Closed in past)
    case Closed => Closed !in past
    case Disconnected => ConnectReturned in past && Disconnected !in past
  }

  ghost predicate Safe(trace: seq<Event>)
  {
    forall i :: 0 <= i < |trace| ==> Allowed(Past(trace[..i]), trace[i])
  }

  lemma {:induction false} Snoc(trace: seq<Event>, e: Event)
    requires Safe(trace) && Allowed(Past(trace), e)
    ensures Safe(trace + [e]) && Past(trace + [e]) == Past(trace) + {e}
  {
    var t := trace + [e];
    forall i | 0 <= i < |t|
      ensures Allowed(Past(t[..i]), t[i])
    {
      if i < |trace| { assert t[..i] == trace[..i]; } else { assert t[..i] == trace; }
    }
  }

  /** The current state and the closed flag, as the trace shows them. */
  ghost predicate Consistent(h: Handler)
  {
    var past := Past(h.trace);
    && Safe(h.trace)
    && (h.closed <==> Closed in past)
    && Disconnected !in past
    && (ConnectReturned in past <==> h.cur == Ws) && (Entered(Ws) in past <==> h.cur == Ws)
    && (h.cur == Get ==> h.closed)
    && (EnterBegins(Get) in past ==> h.closed && EnterBegins(Ws) !in past)
    && (h.cur == Init ==> Entered(Get) !in past)
    && (h.cur == Init && !h.closed ==> EnterBegins(Get) !in past && EnterBegins(Ws) !in past)
    && (h.cur == Ws ==> EnterBegins(Get) !in past)
  }

  /** What the trace shows once `onEnter` of a kind has begun. */
  ghost predicate Entering(h: Handler, kind: Kind, connected: bool, entered: bool)
  {
    var past := Past(h.trace);
    && Safe(h.trace) && (h.closed <==> Closed in past) && h.cur == Init && Disconnected !in past
    && EnterBegins(kind) in past
    && (kind == Get ==> EnterBegins(Ws) !in past) && (kind == Ws ==> EnterBegins(Get) !in past)
    && (Entered(Get) in past <==> entered && kind == Get)
    && (Entered(Ws) in past <==> entered && kind == Ws)
    && (ConnectReturned in past <==> connected)
  }

  lemma {:induction false} CloseEntering(h: Handler, kind: Kind, connected: bool, entered: bool, closes: bool)
    requires Entering(h, kind, connected, entered)
    ensures Entering(CloseIf(h, closes), kind, connected, entered) && (closes ==> CloseIf(h, closes).closed)
  {
    hide Past;
    hide Safe;
    if closes && !h.closed {
      Snoc(h.trace, Closed);
      hide Allowed;
    }
  }

  lemma {:induction false} FinishGet(c: Handler)
    requires Entering(c, Get, false, false) && c.closed
    ensures Entering(Log(c, Entered(Get)), Get, false, true)
  {
    hide Past;
    hide Safe;
    Snoc(c.trace, Entered(Get));
  }

  lemma {:induction false} MayFinishWs(c: Handler, connected: bool)
    requires Entering(c, Ws, connected, false)
    ensures Allowed(Past(c.trace), if connected then Entered(Ws) else ConnectReturned)
  {
    hide Past;
    hide Safe;
  }

  lemma {:induction false} ConnectOf(c: Handler)
    requires Entering(c, Ws, false, false)
    ensures Entering(Log(c, ConnectReturned), Ws, true, false)
  {
    hide Past;
    hide Safe;
    hide Allowed;
    MayFinishWs(c, false);
    Snoc(c.trace, ConnectReturned);
  }

  lemma {:induction false} FinishWs(c: Handler)
    requires Entering(c, Ws, true, false)
    ensures Entering(Log(c, Entered(Ws)), Ws, true, true)
  {
    hide Past;
    hide Safe;
    hide Allowed;
    MayFinishWs(c, true);
    Snoc(c.trace, Entered(Ws));
  }

  lemma {:induction false} MayEnter(h: Handler, kind: Kind)
    requires Consistent(h) && h.cur == Init && !h.closed && kind != Init && Received(Init) in Past(h.trace)
    ensures Allowed(Past(h.trace), EnterBegins(kind))
  {
  }

  lemma {:induction false} BeginEntering(h: Handler, kind: Kind)
    requires Consistent(h) && h.cur == Init && !h.closed && kind != Init && Received(Init) in Past(h.trace)
    ensures Entering(Log(h, EnterBegins(kind)), kind, false, false)
  {
    hide Past;
    hide Safe;
    hide Allowed;
    MayEnter(h, kind);
    Snoc(h.trace, EnterBegins(kind));
  }

  lemma {:induction false} EnterConsistent(h: Handler, kind: Kind, entry: Entry)
    requires Consistent(h) && h.cur == Init && !h.closed && kind != Init && Received(Init) in Past(h.trace)
    ensures var (e, threw) := Enter(h, kind, entry);
      && Entering(e, kind, kind == Ws && !threw, !threw)
      && (kind == Get && !threw ==> e.closed)
  {
    hide Past;
    hide Safe;
    var b := Log(h, EnterBegins(kind));
    BeginEntering(h, kind);
    hide Consistent;
    hide Entering;
    match entry
    case ThrowsBeforeConnect =>
    case ThrowsInConnect(closes) => CloseEntering(b, kind, false, false, closes);
    case Completes(closes) =>
      CloseEntering(b, kind, false, false, closes || kind == Get);
      var c := CloseIf(b, closes || kind == Get);
      hide Entering;
      if kind == Get {
        FinishGet(c);
      } else {
        ConnectOf(c);
        FinishWs(Log(c, ConnectReturned));
      }
  }

  lemma {:induction false} EnterFinishes(h: Handler, kind: Kind, entry: Entry)
    requires Consistent(h) && h.cur == Init && !h.closed && kind != Init && Received(Init) in Past(h.trace)
    ensures var (e, threw) := Enter(h, kind, entry);
      Consistent(if threw then Close(e) else e.(cur := kind))
  {
    hide Past;
    hide Safe;
    EnterConsistent(h, kind, entry);
    var (e, threw) := Enter(h, kind, entry);
    hide Enter;
    if threw { CloseEntering(e, kind, false, false, true); }
  }

  lemma {:induction false} CloseConsistent(h: Handler)
    requires Consistent(h)
    ensures Consistent(Close(h))
  {
    hide Past;
    hide Safe;
    if !h.closed { Snoc(h.trace, Closed); }
  }

  lemma {:induction false} ReadConsistent(h: Handler)
    requires Consistent(h) && !h.closed
    ensures Consistent(Log(h, Received(h.cur))) && Received(h.cur) in Past(Log(h, Received(h.cur)).trace)
  {
    hide Past;
    hide Safe;
    Snoc(h.trace, Received(h.cur));
  }

  lemma {:induction false} OpenIsNotGet(h: Handler)
    requires Consistent(h) && !h.closed
    ensures h.cur != Get
  {
    hide Safe;
  }

  lemma {:induction false} ReceiveConsistent(h: Handler, reading: Reading, effect: Effect)
    requires Consistent(h) && !h.closed
    ensures Consistent(Receive(h, reading, effect).0)
  {
    hide Past;
    hide Consistent;
    hide Enter;
    hide Close;
    var r := Log(h, Received(h.cur));
    ReadConsistent(h);
    OpenIsNotGet(h);
    CloseConsistent(r);
    if h.cur == Init {
      match reading
      case Incomplete =>
      case Malformed =>
      case IsGet(entry) => EnterFinishes(r, Get, entry);
      case IsUpgrade(entry) => EnterFinishes(r, Ws, entry);
    }
  }

  lemma {:induction false} LoopConsistent(h: Handler, script: seq<Input>)
    requires Consistent(h)
    ensures Consistent(Loop(h, script).0)
    decreases |script|
  {
    hide Consistent;
    hide Receive;
    if script != [] && !h.closed {
      match script[0]
      case NothingRead => LoopConsistent(h, script[1..]);
      case Data(reading, effect) =>
        ReceiveConsistent(h, reading, effect);
        LoopConsistent(Receive(h, reading, effect).0, script[1..]);
      case _ =>
    }
  }

  /**
   In every run of a worker: states are entered at most once, and only from the initial one; a WebSocket read
   comes only after that state was entered and never after close; the GET state never sees a read and implies
   close; `onDisconnect` follows `onConnect`, at most once; and exactly once if no exception escaped the loop.
   */
  lemma {:induction false} LifecycleSafe(script: seq<Input>)
    ensures var (h, threw) := RunWorker(script);
      && Safe(h.trace)
      && (!threw ==> (ConnectReturned in h.trace <==> Disconnected in h.trace))
      && (threw ==> Disconnected !in h.trace)
      && (EnterBegins(Get) in h.trace ==> h.closed && EnterBegins(Ws) !in h.trace && Entered(Ws) !in h.trace)
  {
    LoopConsistent(FRESH, script);
    var (h, threw) := Loop(FRESH, script);
    hide Loop;
    if !threw && h.cur == Ws {
      Snoc(h.trace, Disconnected);
    }
  }

  /** In a safe trace every event other than a read occurs at most once. */
  lemma {:induction false} AtMostOnce(trace: seq<Event>)
    requires Safe(trace)
    ensures forall i, j :: 0 <= i < j < |trace| && !trace[i].Received? ==> trace[i] != trace[j]
  {
    forall i, j | 0 <= i < j < |trace| && !trace[i].Received?
      ensures trace[i] != trace[j]
    {
      assert Allowed(Past(trace[..j]), trace[j]);
      assert trace[i] in trace[..j] by { assert trace[..j][i] == trace[i]; }
    }
  }

  predicate Delivers(script: seq<Input>)
  {
    forall i :: 0 <= i < |script| ==> script[i].Data? || script[i].NothingRead?
  }

  /** A loop that is still going takes the next input. */
  lemma {:induction false} LoopSnoc(h: Handler, script: seq<Input>, next: Input)
    requires Delivers(script) && !Loop(h, script).0.closed && !Loop(h, script).1
    ensures Loop(h, script + [next]) == Loop(Loop(h, script).0, [next])
    decreases |script|
  {
    hide Receive;
    if script == [] {
      assert script + [next] == [next];
    } else if !h.closed {
      assert (script + [next])[1..] == script[1..] + [next];
      match script[0]
      case Data(reading, effect) => LoopSnoc(Receive(h, reading, effect).0, script[1..], next);
      case NothingRead => LoopSnoc(h, script[1..], next);
    }
  }
}
