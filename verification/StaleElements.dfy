/**
 The push example across its parts: which connections the set of push targets holds while workers run, end, and are
 joined and destroyed. `onConnect` adds a connection, `onDisconnect` removes it, and nobody else does.
 */
module StaleElements {
  import opened Rfc6455
  import opened Frames
  import opened Reassembly
  import opened HttpServer
  import L = Lifecycle
  import P = WorkerPool

  /** The reads of each worker, by its number. */
  type Scripts = nat -> seq<L.Input>

  /** The pool, and the callbacks made so far, with the worker that made each. */
  datatype System = System(pool: P.State, log: seq<(nat, L.Event)>)

  /** All callbacks of a worker. */
  function TraceOf(scripts: Scripts, id: nat): seq<L.Event>
  {
    L.RunWorker(scripts(id)).0.trace
  }

  /** An exception escapes the worker's loop. */
  predicate Threw(scripts: Scripts, id: nat)
  {
    L.RunWorker(scripts(id)).1
  }

  /** The callbacks that one worker has made. */
  function By(log: seq<(nat, L.Event)>, id: nat): seq<L.Event>
  {
    if log == [] then []
    else By(log[..|log| - 1], id) + (if log[|log| - 1].0 == id then [log[|log| - 1].1] else [])
  }

  /** The push targets: `addElem` in `onConnect`, `delElem` in `onDisconnect`. */
  function Elements(log: seq<(nat, L.Event)>): set<nat>
  {
    if log == [] then {}
    else
      var (id, event) := log[|log| - 1];
      var before := Elements(log[..|log| - 1]);
      if event == L.ConnectReturned then before + {id}
      else if event == L.Disconnected then before - {id}
      else before
  }

  // Steps

  /** A worker that has not cleared its flag makes its next callback. */
  predicate Callback(scripts: Scripts, s: System, t: System, id: nat)
  {
    && id < |s.pool.threads| && s.pool.threads[id] == P.Active
    && |By(s.log, id)| < |TraceOf(scripts, id)|
    && t == s.(log := s.log + [(id, TraceOf(scripts, id)[|By(s.log, id)|])])
  }

  /** A step of the pool. A worker clears its flag only after its last callback. */
  ghost predicate PoolStep(scripts: Scripts, s: System, t: System, maxClients: nat)
  {
    && P.Next(s.pool, t.pool, maxClients) && t.log == s.log
    && forall id: nat :: id < |s.pool.threads| && s.pool.threads[id] == P.Active
                         && id < |t.pool.threads| && t.pool.threads[id] != P.Active ==>
                           By(s.log, id) == TraceOf(scripts, id)
  }

  ghost predicate Next(scripts: Scripts, s: System, t: System, maxClients: nat)
  {
    PoolStep(scripts, s, t, maxClients) || exists id :: Callback(scripts, s, t, id)
  }

  ghost predicate IsRun(scripts: Scripts, run: seq<System>, maxClients: nat)
  {
    && run != [] && run[0] == System(P.INITIAL, [])
    && forall i :: 0 <= i < |run| - 1 ==> Next(scripts, run[i], run[i + 1], maxClients)
  }

  // The invariant

  ghost predicate Good(scripts: Scripts, s: System)
  {
    && P.Listed(s.pool)
    && (forall id: nat :: By(s.log, id) <= TraceOf(scripts, id))
    && (forall id: nat :: id >= |s.pool.threads| ==> By(s.log, id) == [])
    && (forall id: nat :: id < |s.pool.threads| && s.pool.threads[id] != P.Active ==>
          By(s.log, id) == TraceOf(scripts, id))
  }

  lemma {:induction false} BySnoc(log: seq<(nat, L.Event)>, id: nat, event: L.Event, other: nat)
    ensures By(log + [(id, event)], other) == By(log, other) + (if id == other then [event] else [])
  {
    assert (log + [(id, event)])[..|log|] == log;
  }

  /** The pool starts threads as active ones, and never makes one active again. */
  lemma {:induction false} ThreadsAfter(s: P.State, t: P.State, maxClients: nat, id: nat)
    requires P.Next(s, t, maxClients) && id < |t.threads|
    ensures |s.threads| <= |t.threads|
    ensures id >= |s.threads| ==> t.threads[id] == P.Active
    ensures id < |s.threads| && s.threads[id] != P.Active ==> t.threads[id] != P.Active
  {
  }

  lemma {:induction false} PoolStepGood(scripts: Scripts, s: System, t: System, maxClients: nat)
    requires Good(scripts, s) && PoolStep(scripts, s, t, maxClients)
    ensures Good(scripts, t)
  {
    hide TraceOf;
    hide By;
    hide P.Next;
    hide P.Listed;
    P.NextKeepsListed(s.pool, t.pool, maxClients);
    forall id: nat | id < |t.pool.threads| && t.pool.threads[id] != P.Active
      ensures By(t.log, id) == TraceOf(scripts, id)
    {
      ThreadsAfter(s.pool, t.pool, maxClients, id);
    }
    forall id: nat | id >= |t.pool.threads|
      ensures By(t.log, id) == []
    {
      NeverFewer(s.pool, t.pool, maxClients);
    }
  }

  lemma {:induction false} NeverFewer(s: P.State, t: P.State, maxClients: nat)
    requires P.Next(s, t, maxClients)
    ensures |s.threads| <= |t.threads|
  {
  }

  lemma {:induction false} CallbackGood(scripts: Scripts, s: System, t: System, id: nat)
    requires Good(scripts, s) && Callback(scripts, s, t, id)
    ensures Good(scripts, t)
  {
    hide TraceOf;
    hide By;
    hide P.Listed;
    var trace := TraceOf(scripts, id);
    var n := |By(s.log, id)|;
    assert trace[..n + 1] == trace[..n] + [trace[n]];
    forall other: nat
      ensures By(t.log, other) == By(s.log, other) + (if id == other then [trace[n]] else [])
    {
      BySnoc(s.log, id, trace[n], other);
    }
  }

  lemma {:induction false} RunGood(scripts: Scripts, run: seq<System>, maxClients: nat, i: nat)
    requires IsRun(scripts, run, maxClients) && i < |run|
    ensures Good(scripts, run[i])
  {
    hide PoolStep;
    hide Callback;
    if i == 0 {
      P.InitialGood(maxClients);
    } else {
      hide Good;
      var s, t := run[i - 1], run[i];
      RunGood(scripts, run, maxClients, i - 1);
      if id :| Callback(scripts, s, t, id) {
        CallbackGood(scripts, s, t, id);
      } else {
        PoolStepGood(scripts, s, t, maxClients);
      }
    }
  }

  lemma {:induction false} SafePrefix(trace: seq<L.Event>, n: nat)
    requires L.Safe(trace) && n <= |trace|
    ensures L.Safe(trace[..n])
  {
    hide L.Allowed;
    forall i | 0 <= i < n
      ensures L.Allowed(L.Past(trace[..n][..i]), trace[..n][i])
    {
      assert trace[..n][..i] == trace[..i];
    }
  }

  /** In a safe trace a disconnect is the last word on the connection. */
  lemma {:induction false} SafeSnoc(trace: seq<L.Event>, event: L.Event)
    requires L.Safe(trace + [event])
    ensures event == L.ConnectReturned ==> L.Disconnected !in trace
  {
    var t := trace + [event];
    assert t[..|trace|] == trace && L.Allowed(L.Past(t[..|trace|]), event);
    if event == L.ConnectReturned {
      forall i | 0 <= i < |trace|
        ensures trace[i] != L.Disconnected
      {
        assert t[..i] == trace[..i] && L.Allowed(L.Past(trace[..i]), t[i]);
        assert forall e :: e in trace[..i] ==> e in trace;
      }
    }
  }

  /** Listed is who has connected and not disconnected. */
  lemma {:induction false} ElementsBy(scripts: Scripts, log: seq<(nat, L.Event)>, id: nat)
    requires forall other: nat :: L.Safe(By(log, other))
    ensures id in Elements(log) <==> L.ConnectReturned in By(log, id) && L.Disconnected !in By(log, id)
    decreases |log|
  {
    hide L.Safe;
    if log != [] {
      var before := log[..|log| - 1];
      var (who, event) := log[|log| - 1];
      assert log == before + [(who, event)];
      forall other: nat
        ensures L.Safe(By(before, other))
      {
        BySnoc(before, who, event, other);
        SafePrefix(By(log, other), |By(before, other)|);
        assert By(log, other)[..|By(before, other)|] == By(before, other);
      }
      ElementsBy(scripts, before, id);
      BySnoc(before, who, event, id);
      if who == id { SafeSnoc(By(before, id), event); }
    }
  }

  /** A worker that was joined and dropped from the list, so that its handler is destroyed. */
  predicate Gone(s: System, id: nat)
  {
    id < |s.pool.threads| && id !in s.pool.workers
  }

  /** Its `onConnect` returned, and an exception escaped its loop, so that `onDisconnect` was skipped. */
  predicate Skipped(scripts: Scripts, id: nat)
  {
    L.ConnectReturned in TraceOf(scripts, id) && Threw(scripts, id)
  }

  lemma {:induction false} SafeParts(scripts: Scripts, s: System)
    requires Good(scripts, s)
    ensures forall id: nat :: L.Safe(By(s.log, id))
  {
    hide L.RunWorker;
    hide L.Safe;
    forall id: nat
      ensures L.Safe(By(s.log, id))
    {
      L.LifecycleSafe(scripts(id));
      SafePrefix(TraceOf(scripts, id), |By(s.log, id)|);
      assert TraceOf(scripts, id)[..|By(s.log, id)|] == By(s.log, id);
    }
  }

  lemma {:induction false} GoneIsDone(scripts: Scripts, s: System, id: nat)
    requires Good(scripts, s) && Gone(s, id)
    ensures By(s.log, id) == TraceOf(scripts, id)
  {
    hide By;
    hide TraceOf;
  }

  /**
   In every state of every run, a gone worker's connection is still among the push targets if and only if its
   `onConnect` returned and an exception escaped its loop.
   */
  lemma {:induction false} GoneIsListedIff(scripts: Scripts, run: seq<System>, maxClients: nat, i: nat, id: nat)
    requires IsRun(scripts, run, maxClients) && i < |run| && Gone(run[i], id)
    ensures id in Elements(run[i].log) <==> Skipped(scripts, id)
  {
    hide IsRun;
    hide Good;
    hide By;
    hide Elements;
    hide L.Loop;
    hide L.Safe;
    RunGood(scripts, run, maxClients, i);
    SafeParts(scripts, run[i]);
    ElementsBy(scripts, run[i].log, id);
    GoneIsDone(scripts, run[i], id);
    L.LifecycleSafe(scripts(id));
  }

  /** Every push target has a live handler. */
  ghost predicate AllLive(s: System)
  {
    forall id :: id in Elements(s.log) ==> id in s.pool.workers
  }

  /** The push targets are all alive exactly as long as no such worker is gone. */
  lemma {:induction false} AllLiveIff(scripts: Scripts, run: seq<System>, maxClients: nat, i: nat)
    requires IsRun(scripts, run, maxClients) && i < |run|
    ensures AllLive(run[i]) <==> forall id: nat :: Gone(run[i], id) ==> !Skipped(scripts, id)
  {
    hide IsRun;
    hide Good;
    hide By;
    hide Elements;
    hide Skipped;
    hide L.Safe;
    var s := run[i];
    RunGood(scripts, run, maxClients, i);
    SafeParts(scripts, s);
    forall id: nat
      ensures Gone(s, id) ==> (id in Elements(s.log) <==> Skipped(scripts, id))
    {
      if Gone(s, id) { GoneIsListedIff(scripts, run, maxClients, i, id); }
    }
    forall id: nat | id in Elements(s.log)
      ensures id < |s.pool.threads|
    {
      ElementsBy(scripts, s.log, id);
      OnlyStarted(scripts, s, id);
    }
  }

  lemma {:induction false} OnlyStarted(scripts: Scripts, s: System, id: nat)
    requires Good(scripts, s) && By(s.log, id) != []
    ensures id < |s.pool.threads|
  {
  }

  // It does happen

  ghost predicate Reachable(scripts: Scripts, s: System, maxClients: nat)
  {
    exists run :: IsRun(scripts, run, maxClients) && run[|run| - 1] == s
  }

  lemma {:induction false} Reach(scripts: Scripts, s: System, t: System, maxClients: nat)
    requires Reachable(scripts, s, maxClients) && Next(scripts, s, t, maxClients)
    ensures Reachable(scripts, t, maxClients)
  {
    hide Next;
    var run :| IsRun(scripts, run, maxClients) && run[|run| - 1] == s;
    var longer := run + [t];
    forall i | 0 <= i < |longer| - 1
      ensures Next(scripts, longer[i], longer[i + 1], maxClients)
    {
      if i == |run| - 1 { assert longer[i] == s; }
    }
    assert IsRun(scripts, longer, maxClients);
  }

  lemma {:induction false} ReachPool(scripts: Scripts, s: System, pool: P.State, maxClients: nat)
    requires Reachable(scripts, s, maxClients) && PoolStep(scripts, s, s.(pool := pool), maxClients)
    ensures Reachable(scripts, s.(pool := pool), maxClients)
  {
    hide PoolStep;
    hide Reachable;
    Reach(scripts, s, s.(pool := pool), maxClients);
  }

  /** An active worker can make all its callbacks. */
  lemma {:induction false} ReachDone(scripts: Scripts, s: System, maxClients: nat, id: nat) returns (t: System)
    requires Reachable(scripts, s, maxClients) && id < |s.pool.threads| && s.pool.threads[id] == P.Active
    requires |By(s.log, id)| <= |TraceOf(scripts, id)|
    ensures Reachable(scripts, t, maxClients) && t.pool == s.pool
    ensures |By(t.log, id)| == |TraceOf(scripts, id)|
    decreases |TraceOf(scripts, id)| - |By(s.log, id)|
  {
    hide Reachable;
    hide TraceOf;
    hide By;
    t := s;
    if |By(s.log, id)| < |TraceOf(scripts, id)| {
      var event := TraceOf(scripts, id)[|By(s.log, id)|];
      var next := s.(log := s.log + [(id, event)]);
      assert Callback(scripts, s, next, id);
      Reach(scripts, s, next, maxClients);
      BySnoc(s.log, id, event, id);
      t := ReachDone(scripts, next, maxClients, id);
    }
  }

  /** An upgrade, then a read whose exception escapes: a final frame of opcode 0 is one. */
  const FATAL := [L.Data(L.IsUpgrade(L.Completes(false)), L.Effect(false, false)),
                  L.Data(L.Incomplete, L.Effect(false, true))]

  /** On the wire: a final frame of opcode 0 that starts a message is such a read, under every application. */
  lemma {:induction false} FatalRead(app: Application, s: Session, f: Fragment)
    requires f.wire.key.Some? && Legal(Frame(true, 0, f.payload), f.wire) && s.inBuf == [] && !s.link.closed
    ensures var chunk := Chunk(f, true, OPCODE_CONTINUATION);
      Manageable(Serving(s), chunk) && Observed(app, Serving(s), chunk) == FATAL[1]
  {
    hide Dispatch;
    hide Chunk;
    ReceiveFragment(app.handler, s, f, true, OPCODE_CONTINUATION);
    DispatchCalls(app.handler, s.(opcode := OPCODE_CONTINUATION, inBuf := s.inBuf + f.payload));
  }

  lemma {:induction false} FatalSkips(scripts: Scripts, id: nat)
    requires scripts(id) == FATAL
    ensures Skipped(scripts, id)
  {
    var (h, threw) := L.Receive(L.FRESH, FATAL[0].reading, FATAL[0].effect);
    assert h.cur == L.Ws && !h.closed && !threw && L.ConnectReturned in h.trace;
    var (g, escaped) := L.Receive(h, FATAL[1].reading, FATAL[1].effect);
    assert escaped && g.trace == h.trace + [L.Received(L.Ws)];
    assert FATAL[1..][0] == FATAL[1];
    assert L.Loop(h, FATAL[1..]) == (g, true);
    assert L.Loop(L.FRESH, FATAL) == (g, true);
  }

  lemma {:induction false} ReachableFacts(scripts: Scripts, s: System, maxClients: nat, id: nat)
    requires Reachable(scripts, s, maxClients)
    ensures By(s.log, id) <= TraceOf(scripts, id)
    ensures Gone(s, id) ==> (id in Elements(s.log) <==> Skipped(scripts, id))
  {
    hide Next;
    hide Good;
    hide By;
    hide TraceOf;
    hide Skipped;
    hide Elements;
    var run :| IsRun(scripts, run, maxClients) && run[|run| - 1] == s;
    RunGood(scripts, run, maxClients, |run| - 1);
    GoodParts(scripts, s, id);
    if Gone(s, id) { GoneIsListedIff(scripts, run, maxClients, |run| - 1, id); }
  }

  lemma {:induction false} GoodParts(scripts: Scripts, s: System, id: nat)
    requires Good(scripts, s)
    ensures By(s.log, id) <= TraceOf(scripts, id)
  {
  }

  lemma {:induction false} ReachFirstWorker(scripts: Scripts) returns (s: System)
    ensures Reachable(scripts, s, 1) && s == System(P.State(P.Polling, [0], [P.Active], [0], 1, [], 0), [])
  {
    hide Reachable;
    var start := System(P.INITIAL, []);
    ReachStart(scripts);
    var p1 := P.State(P.Cleaning(0), [], [], [], 1, [], 0);
    assert P.Accept(P.INITIAL, p1);
    ReachPool(scripts, start, p1, 1);
    var p2 := p1.(pc := P.Deciding);
    assert P.Look(p1, p2);
    ReachPool(scripts, System(p1, []), p2, 1);
    var p3 := P.State(P.Polling, [0], [P.Active], [0], 1, [], 0);
    assert P.Decide(p2, p3, 1);
    ReachPool(scripts, System(p2, []), p3, 1);
    s := System(p3, []);
  }

  lemma {:induction false} ReachStart(scripts: Scripts)
    ensures Reachable(scripts, System(P.INITIAL, []), 1)
  {
    var run := [System(P.INITIAL, [])];
    assert IsRun(scripts, run, 1) && run[|run| - 1] == System(P.INITIAL, []);
  }

  /** The only worker, done with its callbacks, is joined and dropped when the next client comes. */
  lemma {:induction false} ReachGone(scripts: Scripts, s: System) returns (t: System)
    requires Reachable(scripts, s, 1) && s.pool == P.State(P.Polling, [0], [P.Active], [0], 1, [], 0)
    requires By(s.log, 0) == TraceOf(scripts, 0)
    ensures Reachable(scripts, t, 1) && t.log == s.log && Gone(t, 0)
  {
    hide Reachable;
    hide By;
    hide TraceOf;
    var p4 := s.pool.(threads := [P.Inactive]);
    assert P.WorkerStep(s.pool, p4, 0);
    ReachPool(scripts, s, p4, 1);
    var p5 := p4.(threads := [P.Over]);
    assert P.WorkerStep(p4, p5, 0);
    ReachPool(scripts, System(p4, s.log), p5, 1);
    var p6 := p5.(pc := P.Cleaning(0), accepted := 2);
    assert P.Accept(p5, p6);
    ReachPool(scripts, System(p5, s.log), p6, 1);
    var p7 := p6.(pc := P.Joining(0));
    assert P.Look(p6, p7);
    ReachPool(scripts, System(p6, s.log), p7, 1);
    var p8 := P.State(P.Cleaning(0), [], [P.Over], [1], 2, [], 0);
    assert P.Without([0], 0) == [] && [0][0 := 1] == [1];
    assert P.Drop(p7, p8);
    ReachPool(scripts, System(p7, s.log), p8, 1);
    t := System(p8, s.log);
  }

  /** The worker of such a client ends, is joined and destroyed, and stays a push target. */
  lemma {:induction false} StaleElementArises(scripts: Scripts)
    requires scripts(0) == FATAL
    ensures exists s :: Reachable(scripts, s, 1) && Gone(s, 0) && 0 in Elements(s.log)
  {
    hide *;
    var s := ReachFirstWorker(scripts);
    ReachableFacts(scripts, s, 1, 0);
    var t := ReachDone(scripts, s, 1, 0);
    ReachableFacts(scripts, t, 1, 0);
    assert By(t.log, 0) == TraceOf(scripts, 0);
    var u := ReachGone(scripts, t);
    ReachableFacts(scripts, u, 1, 0);
    FatalSkips(scripts, 0);
  }
}
