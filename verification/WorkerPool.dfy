/**
 `Server::serve` and `cleanup` against worker threads that end at any moment: a state machine whose steps are the
 atomic actions of the accepting thread and of the workers, and the server object that takes them.
 */
module WorkerPool {
  import opened Text
  import opened Connections

  /** A worker thread: its active flag is set; the flag is cleared; the thread is over and can be joined. */
  datatype Thread = Active | Inactive | Over

  /** Where the accepting thread is. */
  datatype Pc =
    | Polling               // at the head of the accept loop
    | Cleaning(at: nat)     // `cleanup` is about to look at a list position
    | Joining(at: nat)      // it found that worker inactive and waits for its thread
    | Deciding              // `cleanup` returned
    | Finishing(at: nat)    // the final loop over the list
    | Returned
    | Escaped(pending: nat) // an exception has left `serve`, with that many clients accepted but not decided on

  /**
   Workers are numbered in the order of admission. `joins` counts the joins of each; `observed` counts the
   workers the current cleanup pass saw active; `refusals` keeps that count for every refused client.
   */
  datatype State = State(pc: Pc, workers: seq<nat>, threads: seq<Thread>, joins: seq<nat>,
                         accepted: nat, refusals: seq<nat>, observed: nat)

  const INITIAL := State(Polling, [], [], [], 0, [], 0)

  function Admitted(s: State): nat
  {
    |s.threads|
  }

  function Without(w: seq<nat>, i: nat): seq<nat>
    requires i < |w|
  {
    w[..i] + w[i + 1..]
  }

  // Steps of the accepting thread

  predicate Accept(s: State, t: State)
  {
    s.pc == Polling && t == s.(pc := Cleaning(0), accepted := s.accepted + 1, observed := 0)
  }

  /** `isActive` is read once per worker and pass. */
  predicate Look(s: State, t: State)
  {
    && s.pc.Cleaning?
    && var i := s.pc.at;
    if i >= |s.workers| then t == s.(pc := Deciding)
    else
      && s.workers[i] < |s.threads|
      && t == if s.threads[s.workers[i]] == Active then s.(pc := Cleaning(i + 1), observed := s.observed + 1)
              else s.(pc := Joining(i))
  }

  /** `finish` returns when the thread is over; then the list drops the worker. */
  predicate Drop(s: State, t: State)
  {
    && s.pc.Joining? && s.pc.at < |s.workers|
    && var id := s.workers[s.pc.at];
    && id < |s.threads| && id < |s.joins| && s.threads[id] == Over
    && t == s.(pc := Cleaning(s.pc.at), workers := Without(s.workers, s.pc.at), joins := s.joins[id := s.joins[id] + 1])
  }

  predicate Decide(s: State, t: State, maxClients: nat)
  {
    && s.pc == Deciding
    && t == if |s.workers| < maxClients then
              s.(pc := Polling, workers := s.workers + [|s.threads|], threads := s.threads + [Active],
                 joins := s.joins + [0])
            else s.(pc := Polling, refusals := s.refusals + [s.observed])
  }

  /** `accept` throws; or the handler factory or thread start does, or the goodbye to a refused client. */
  predicate Throw(s: State, t: State)
  {
    (s.pc == Polling && t == s.(pc := Escaped(0))) || (s.pc == Deciding && t == s.(pc := Escaped(1)))
  }

  predicate Quit(s: State, t: State)
  {
    s.pc == Polling && t == s.(pc := Finishing(0))
  }

  predicate Finish(s: State, t: State)
  {
    && s.pc.Finishing?
    && var i := s.pc.at;
    if i >= |s.workers| then t == s.(pc := Returned)
    else
      var id := s.workers[i];
      && id < |s.threads| && id < |s.joins| && s.threads[id] == Over
      && t == s.(pc := Finishing(i + 1), joins := s.joins[id := s.joins[id] + 1])
  }

  // Steps of the workers

  predicate WorkerStep(s: State, t: State, id: nat)
  {
    && id < |s.threads| && s.threads[id] != Over
    && t == s.(threads := s.threads[id := if s.threads[id] == Active then Inactive else Over])
  }

  ghost predicate Next(s: State, t: State, maxClients: nat)
  {
    || Accept(s, t) || Look(s, t) || Drop(s, t) || Decide(s, t, maxClients) || Quit(s, t) || Finish(s, t)
    || Throw(s, t)
    || exists id :: WorkerStep(s, t, id)
  }

  lemma {:induction false} StepIsNext(s: State, t: State, maxClients: nat)
    requires || Accept(s, t) || Look(s, t) || Drop(s, t) || Decide(s, t, maxClients) || Quit(s, t) || Finish(s, t)
             || Throw(s, t)
    ensures Next(s, t, maxClients)
  {
  }

  ghost predicate IsRun(run: seq<State>, maxClients: nat)
  {
    && run != [] && run[0] == INITIAL
    && forall i :: 0 <= i < |run| - 1 ==> Next(run[i], run[i + 1], maxClients)
  }

  // The invariant

  ghost predicate Distinct(w: seq<nat>)
  {
    forall i, j :: 0 <= i < j < |w| ==> w[i] != w[j]
  }

  /** How often a listed worker has been joined: only the final loop joins workers and leaves them listed. */
  function JoinsAt(pc: Pc, i: nat): nat
  {
    match pc
    case Finishing(at) => if i < at then 1 else 0
    case Returned => 1
    case _ => 0
  }

  function InProgress(pc: Pc): nat
  {
    if pc.Escaped? then pc.pending else if pc.Cleaning? || pc.Joining? || pc.Deciding? then 1 else 0
  }

  ghost predicate Listed(s: State)
  {
    && |s.joins| == |s.threads| && Distinct(s.workers)
    && (forall i :: 0 <= i < |s.workers| ==> s.workers[i] < |s.threads|)
    && (forall i :: 0 <= i < |s.workers| ==> s.joins[s.workers[i]] == JoinsAt(s.pc, i))
    && (forall id :: 0 <= id < |s.joins| && id !in s.workers ==> s.joins[id] == 1)
    && (forall id :: 0 <= id < |s.joins| && s.joins[id] > 0 ==> s.threads[id] == Over)
  }

  ghost predicate Counted(s: State, maxClients: nat)
  {
    && |s.workers| <= maxClients
    && s.accepted == Admitted(s) + |s.refusals| + InProgress(s.pc)
    && (s.pc.Cleaning? || s.pc.Joining? ==> s.pc.at == s.observed <= |s.workers|)
    && (s.pc.Joining? ==> s.pc.at < |s.workers| && s.workers[s.pc.at] < |s.threads|
                          && s.threads[s.workers[s.pc.at]] != Active)
    && (s.pc == Deciding ==> s.observed == |s.workers|)
    && (s.pc.Finishing? ==> s.pc.at <= |s.workers|)
    && (forall i :: 0 <= i < |s.refusals| ==> s.refusals[i] == maxClients)
  }

  /** Taking one worker off a list of distinct workers. */
  lemma {:induction false} WithoutOne(w: seq<nat>, i: nat)
    requires Distinct(w) && i < |w|
    ensures var r := Without(w, i);
      && Distinct(r) && w[i] !in r
      && (forall j :: 0 <= j < |r| ==> r[j] == w[if j < i then j else j + 1])
      && (forall id :: id in w && id != w[i] ==> id in r)
  {
    var r := Without(w, i);
    forall id | id in w && id != w[i]
      ensures id in r
    {
      var j :| 0 <= j < |w| && w[j] == id;
      assert r[if j < i then j else j - 1] == id;
    }
  }

  lemma {:induction false} DropKeepsListed(s: State, t: State)
    requires Listed(s) && Drop(s, t)
    ensures Listed(t)
  {
    WithoutOne(s.workers, s.pc.at);
    hide Without;
  }

  lemma {:induction false} DecideKeepsListed(s: State, t: State, maxClients: nat)
    requires Listed(s) && Decide(s, t, maxClients)
    ensures Listed(t)
  {
    if |s.workers| < maxClients {
      assert t.workers[|s.workers|] == |s.threads|;
      forall id | 0 <= id < |t.joins| && id !in t.workers
        ensures t.joins[id] == 1
      {
        assert id < |s.joins| && id !in s.workers;
      }
    }
  }

  lemma {:induction false} FinishKeepsListed(s: State, t: State)
    requires Listed(s) && Finish(s, t)
    ensures Listed(t)
  {
  }

  lemma {:induction false} NextKeepsListed(s: State, t: State, maxClients: nat)
    requires Listed(s) && Next(s, t, maxClients)
    ensures Listed(t)
  {
    if Drop(s, t) { DropKeepsListed(s, t); }
    else if Decide(s, t, maxClients) { DecideKeepsListed(s, t, maxClients); }
    else if Finish(s, t) { FinishKeepsListed(s, t); }
  }

  lemma {:induction false} LookKeepsCounted(s: State, t: State, maxClients: nat)
    requires Listed(s) && Counted(s, maxClients) && Look(s, t)
    ensures Counted(t, maxClients)
  {
  }

  lemma {:induction false} DropKeepsCounted(s: State, t: State, maxClients: nat)
    requires Counted(s, maxClients) && Drop(s, t)
    ensures Counted(t, maxClients)
  {
  }

  lemma {:induction false} DecideKeepsCounted(s: State, t: State, maxClients: nat)
    requires Counted(s, maxClients) && Decide(s, t, maxClients)
    ensures Counted(t, maxClients)
  {
  }

  lemma {:induction false} WorkerKeepsCounted(s: State, t: State, maxClients: nat, id: nat)
    requires Counted(s, maxClients) && WorkerStep(s, t, id)
    ensures Counted(t, maxClients)
  {
  }

  lemma {:induction false} OthersKeepCounted(s: State, t: State, maxClients: nat)
    requires Counted(s, maxClients) && (Accept(s, t) || Quit(s, t) || Finish(s, t) || Throw(s, t))
    ensures Counted(t, maxClients)
  {
  }

  lemma {:induction false} NextKeepsCounted(s: State, t: State, maxClients: nat)
    requires Listed(s) && Counted(s, maxClients) && Next(s, t, maxClients)
    ensures Counted(t, maxClients)
  {
    hide Counted;
    hide Listed;
    hide Accept;
    hide Look;
    hide Drop;
    hide Decide;
    hide Quit;
    hide Finish;
    hide Throw;
    hide WorkerStep;
    if Look(s, t) { LookKeepsCounted(s, t, maxClients); }
    else if Drop(s, t) { DropKeepsCounted(s, t, maxClients); }
    else if Decide(s, t, maxClients) { DecideKeepsCounted(s, t, maxClients); }
    else if id :| WorkerStep(s, t, id) { WorkerKeepsCounted(s, t, maxClients, id); }
    else { OthersKeepCounted(s, t, maxClients); }
  }

  lemma {:induction false} InitialGood(maxClients: nat)
    ensures Listed(INITIAL) && Counted(INITIAL, maxClients)
  {
  }

  lemma {:induction false} RunKeepsInvariant(run: seq<State>, maxClients: nat, i: nat)
    requires IsRun(run, maxClients) && i < |run|
    ensures Listed(run[i]) && Counted(run[i], maxClients)
  {
    hide Next;
    hide Listed;
    hide Counted;
    if i == 0 {
      InitialGood(maxClients);
    } else {
      RunKeepsInvariant(run, maxClients, i - 1);
      NextKeepsListed(run[i - 1], run[i], maxClients);
      NextKeepsCounted(run[i - 1], run[i], maxClients);
    }
  }

  function Below(n: nat): (r: set<nat>)
    ensures |r| == n && forall id: nat :: id in r <==> id < n
  {
    if n == 0 then {} else
      var r := Below(n - 1);
      assert n - 1 !in r;
      r + {n - 1}
  }

  ghost function Elements(w: seq<nat>): (r: set<nat>)
    ensures forall id :: id in r <==> id in w
    ensures Distinct(w) ==> |r| == |w|
  {
    if w == [] then {} else
      var rest := Elements(w[1..]);
      assert w == [w[0]] + w[1..];
      assert Distinct(w) ==> w[0] !in w[1..];
      rest + {w[0]}
  }

  /** Workers that have been joined and dropped from the list. */
  ghost function Gone(s: State): set<nat>
  {
    Below(|s.threads|) - Elements(s.workers)
  }

  lemma {:induction false} ListedPlusGone(s: State)
    requires Listed(s)
    ensures Admitted(s) == |s.workers| + |Gone(s)|
  {
    var listed := Elements(s.workers);
    assert listed <= Below(|s.threads|) by {
      forall id | id in listed
        ensures id in Below(|s.threads|)
      {
        assert id in s.workers;
      }
    }
    hide Listed;
    hide Below;
    SubsetSizes(listed, Below(|s.threads|));
  }

  lemma {:induction false} SubsetSizes(a: set<nat>, b: set<nat>)
    requires a <= b
    ensures |b| == |a| + |b - a|
  {
    assert b == a + (b - a);
  }

  /**
   Pool safety, in every state of every interleaving: the list never exceeds the limit; a worker off the list
   was joined, a listed one is not joined before the final loop, and none is ever joined twice; accepted
   clients are admitted or refused, admitted ones listed or gone; and every refusal saw exactly `maxClients` active
   workers.
   */
  lemma {:induction false} PoolSafe(run: seq<State>, maxClients: nat, i: nat)
    requires IsRun(run, maxClients) && i < |run|
    ensures var s := run[i];
      && |s.workers| <= maxClients
      && |s.joins| == Admitted(s)
      && (forall id :: 0 <= id < |s.joins| ==> s.joins[id] <= 1)
      && (forall id :: 0 <= id < |s.joins| && id !in s.workers ==> s.joins[id] == 1)
      && (!s.pc.Finishing? && !s.pc.Returned? ==>
            forall id :: 0 <= id < |s.joins| && id in s.workers ==> s.joins[id] == 0)
      && s.accepted == Admitted(s) + |s.refusals| + InProgress(s.pc)
      && Admitted(s) == |s.workers| + |Gone(s)|
      && (forall k :: 0 <= k < |s.refusals| ==> s.refusals[k] == maxClients)
  {
    RunKeepsInvariant(run, maxClients, i);
    ListedPlusGone(run[i]);
    var s := run[i];
    forall id | 0 <= id < |s.joins| && id in s.workers
      ensures s.joins[id] <= 1 && (!s.pc.Finishing? && !s.pc.Returned? ==> s.joins[id] == 0)
    {
      var k :| 0 <= k < |s.workers| && s.workers[k] == id;
    }
  }

  /** When `serve` has returned, every thread it ever started is over and was joined exactly once. */
  lemma {:induction false} AllJoinedOnce(run: seq<State>, maxClients: nat, i: nat)
    requires IsRun(run, maxClients) && i < |run| && run[i].pc == Returned
    ensures var s := run[i];
      && |s.joins| == Admitted(s)
      && forall id :: 0 <= id < Admitted(s) ==> s.joins[id] == 1 && s.threads[id] == Over
  {
    RunKeepsInvariant(run, maxClients, i);
    var s := run[i];
    forall id | 0 <= id < |s.joins|
      ensures s.joins[id] == 1
    {
      if id in s.workers {
        var k :| 0 <= k < |s.workers| && s.workers[k] == id;
      }
    }
  }

  // The server object

  const GOODBYE := "No more connections allowed.\n"

  /** Threads only ever end. */
  ghost predicate OnlyEnd(before: seq<Thread>, after: seq<Thread>)
  {
    |after| == |before| && forall id :: 0 <= id < |after| && after[id] == Active ==> before[id] == Active
  }

  ghost predicate Embeds(a: seq<nat>, b: seq<nat>, at: seq<nat>)
  {
    && |at| == |a| && (forall i :: 0 <= i < |a| ==> at[i] < |b| && b[at[i]] == a[i])
    && forall i, j :: 0 <= i < j < |at| ==> at[i] < at[j]
  }

  ghost predicate Subsequence(a: seq<nat>, b: seq<nat>)
  {
    exists at :: Embeds(a, b, at)
  }

  function Positions(n: nat): (r: seq<nat>)
    ensures |r| == n
  {
    seq(n, (k: nat) => k)
  }

  lemma {:induction false} EmbedsItself(w: seq<nat>)
    ensures Embeds(w, w, Positions(|w|))
  {
  }

  lemma {:induction false} WithoutEmbeds(a: seq<nat>, b: seq<nat>, at: seq<nat>, i: nat)
    requires Embeds(a, b, at) && i < |a|
    ensures Embeds(Without(a, i), b, Without(at, i))
  {
    var a', at' := Without(a, i), Without(at, i);
    forall k | 0 <= k < |a'|
      ensures at'[k] < |b| && b[at'[k]] == a'[k] && at'[k] == at[if k < i then k else k + 1]
    {
      assert a'[k] == a[if k < i then k else k + 1];
    }
  }

  /** How many polls brought a client. */
  function Connected(polls: seq<Socket?>): nat
  {
    if polls == [] then 0 else Connected(polls[..|polls| - 1]) + (if polls[|polls| - 1] != null then 1 else 0)
  }

  function Clients(polls: seq<Socket?>): set<Socket>
  {
    set client: Socket | client in polls
  }

  class Server {
    const maxClients: nat
    const outside: Outside   // accept, the handler factory and thread start
    var workers: seq<nat>
    var threads: seq<Thread>
    var joins: seq<nat>
    ghost var pc: Pc
    ghost var accepted: nat
    ghost var refusals: seq<nat>
    ghost var observed: nat
    ghost var run: seq<State>

    constructor (maxClients: nat, outside: Outside)
      ensures Valid() && pc == Polling && this.maxClients == maxClients && this.outside == outside
    {
      this.maxClients, this.outside := maxClients, outside;
      workers, threads, joins := [], [], [];
      pc, accepted, refusals, observed := Polling, 0, [], 0;
      run := [INITIAL];
    }

    ghost function View(): State
      reads this
    {
      State(pc, workers, threads, joins, accepted, refusals, observed)
    }

    /** The object's history is a run of the state machine, and the object is in its last state. */
    ghost predicate Valid()
      reads this
    {
      run != [] && IsRun(run, maxClients) && run[|run| - 1] == View()
      && Listed(View()) && Counted(View(), maxClients)
    }

    lemma {:induction false} WorkersStarted()
      requires Valid()
      ensures |joins| == |threads| && forall i :: 0 <= i < |workers| ==> workers[i] < |threads|
    {
    }

    lemma {:induction false} AllCounted()
      requires Valid() && pc == Returned
      ensures accepted == |threads| + |refusals|
    {
    }

    /** Records that one atomic action has been taken. */
    ghost method Stepped(before: State)
      requires run != [] && IsRun(run, maxClients) && run[|run| - 1] == before
      requires Listed(before) && Counted(before, maxClients)
      requires Next(before, View(), maxClients)
      modifies `run
      ensures Valid()
    {
      hide Next;
      hide Listed;
      hide Counted;
      NextKeepsListed(before, View(), maxClients);
      NextKeepsCounted(before, View(), maxClients);
      ghost var longer := run + [View()];
      forall i | 0 <= i < |longer| - 1
        ensures Next(longer[i], longer[i + 1], maxClients)
      {
        if i == |run| - 1 { assert longer[i] == before; }
      }
      run := longer;
    }

    /** One action of a worker thread. */
    method Advance(id: nat)
      requires Valid() && id < |threads| && threads[id] != Over
      modifies this
      ensures Valid() && workers == old(workers) && pc == old(pc) && OnlyEnd(old(threads), threads)
      ensures accepted == old(accepted) && refusals == old(refusals)
      ensures threads[id] != old(threads)[id] && (old(threads)[id] == Inactive ==> threads[id] == Over)
    {
      ghost var before := View();
      threads := threads[id := if threads[id] == Active then Inactive else Over];
      assert WorkerStep(before, View(), id);
      Stepped(before);
    }

    /** Any number of worker actions, by any workers, between two actions of the accepting thread. */
    method Interfere()
      requires Valid()
      modifies this
      ensures Valid() && workers == old(workers) && pc == old(pc) && OnlyEnd(old(threads), threads)
      ensures accepted == old(accepted) && refusals == old(refusals)
    {
      var steps: nat :| true;
      while steps > 0
        invariant Valid() && workers == old(workers) && pc == old(pc) && OnlyEnd(old(threads), threads)
        invariant accepted == old(accepted) && refusals == old(refusals)
      {
        var id: nat :| true;
        if id < |threads| && threads[id] != Over {
          Advance(id);
        }
        steps := steps - 1;
      }
    }

    /** `thr.join()` blocks until the thread is over. */
    method AwaitEnd(id: nat)
      requires Valid() && id < |threads|
      modifies this
      ensures Valid() && workers == old(workers) && pc == old(pc) && OnlyEnd(old(threads), threads)
      ensures accepted == old(accepted) && refusals == old(refusals)
      ensures threads[id] == Over
    {
      Interfere();
      if threads[id] == Active { Advance(id); }
      if threads[id] == Inactive { Advance(id); }
    }

    /**
     `cleanup`. Whoever is still listed afterwards was active when the pass began, so that all who were not have
     been joined and dropped; the others keep their order.
     */
    method Cleanup()
      requires Valid() && pc == Cleaning(0)
      modifies this
      ensures Valid() && pc == Deciding && accepted == old(accepted) && refusals == old(refusals)
      ensures OnlyEnd(old(threads), threads) && Subsequence(workers, old(workers))
      ensures forall i :: 0 <= i < |workers| ==>
                workers[i] < |old(threads)| && old(threads)[workers[i]] == Active
    {
      hide IsRun;
      hide Next;
      hide Counted;
      hide Listed;
      hide Embeds;
      var i := 0;
      ghost var at := Positions(|workers|);
      EmbedsItself(workers);
      WorkersStarted();
      while i < |workers|
        invariant Valid() && pc == Cleaning(i) && i <= |workers|
        invariant accepted == old(accepted) && refusals == old(refusals)
        invariant OnlyEnd(old(threads), threads)
        invariant |at| == |workers| && Embeds(workers, old(workers), at)
        invariant forall k :: 0 <= k < i ==> workers[k] < |threads| && old(threads)[workers[k]] == Active
        decreases |workers| - i
      {
        Interfere();
        WorkersStarted();
        if threads[workers[i]] == Active {
          PassOver(i);
          i := i + 1;
        } else {
          WithoutEmbeds(workers, old(workers), at, i);
          at := Without(at, i);
          RemoveAt(i);
        }
      }
      ghost var before := View();
      pc := Deciding;
      StepIsNext(before, View(), maxClients);
      Stepped(before);
    }

    /** An active worker stays. */
    ghost method PassOver(i: nat)
      requires Valid() && pc == Cleaning(i) && i < |workers| && threads[workers[i]] == Active
      modifies `pc, `observed, `run
      ensures Valid() && pc == Cleaning(i + 1)
    {
      hide IsRun;
      hide Next;
      hide Counted;
      hide Listed;
      WorkersStarted();
      ghost var before := View();
      pc, observed := Cleaning(i + 1), observed + 1;
      StepIsNext(before, View(), maxClients);
      Stepped(before);
    }

    /** Joins an inactive worker and drops it from the list. */
    method RemoveAt(i: nat)
      requires Valid() && pc == Cleaning(i) && i < |workers| && threads[workers[i]] != Active
      modifies this
      ensures Valid() && pc == Cleaning(i) && workers == Without(old(workers), i)
      ensures accepted == old(accepted) && refusals == old(refusals) && OnlyEnd(old(threads), threads)
    {
      hide IsRun;
      hide Next;
      hide Counted;
      hide Listed;
      WorkersStarted();
      var id := workers[i];
      ghost var before := View();
      pc := Joining(i);
      StepIsNext(before, View(), maxClients);
      Stepped(before);
      AwaitEnd(id);
      WorkersStarted();
      before := View();
      joins := joins[id := joins[id] + 1];
      workers := Without(workers, i);
      pc := Cleaning(i);
      StepIsNext(before, View(), maxClients);
      Stepped(before);
    }

    method StartCleanup()
      requires Valid() && pc == Polling
      modifies this
      ensures Valid() && pc == Cleaning(0) && accepted == old(accepted) + 1 && refusals == old(refusals)
      ensures threads == old(threads) && workers == old(workers)
    {
      ghost var before := View();
      pc, accepted, observed := Cleaning(0), accepted + 1, 0;
      assert Accept(before, View());
      Stepped(before);
    }

    /** An exception leaves `serve`. */
    method Escape()
      requires Valid() && (pc == Polling || pc == Deciding)
      modifies this
      ensures Valid() && pc.Escaped? && accepted == old(accepted)
    {
      ghost var before := View();
      pc := Escaped(InProgress(pc));
      assert Throw(before, View());
      Stepped(before);
    }

    /**
     Starts a worker while the list is below the limit; otherwise the client is sent a goodbye, in a single write
     that may take only part of it, and turned away. The handler factory and the write may throw.
     */
    method AdmitOrRefuse(client: Socket) returns (ok: bool)
      requires Valid() && pc == Deciding
      modifies this, client, outside
      ensures Valid() && (if ok then pc == Polling else pc.Escaped?) && accepted == old(accepted)
      ensures ok ==> if |old(workers)| < maxClients
                     then workers == old(workers) + [|old(threads)|] && refusals == old(refusals)
                     else workers == old(workers) && refusals == old(refusals) + [maxClients]
      ensures if |old(workers)| < maxClients || !ok then client.wire == old(client.wire)
              else old(client.wire) < client.wire <= old(client.wire) + Octets(GOODBYE)
      ensures outside.raised == old(outside.raised) + Once(!ok && |old(workers)| < maxClients)
      ensures client.failures == old(client.failures) + Once(!ok && |old(workers)| >= maxClients)
    {
      hide IsRun;
      hide Next;
      hide Listed;
      ok := true;
      if |workers| < maxClients {
        var threw := outside.Raises();
        ok := !threw;
      } else {
        var outcome := client.Write(Octets(GOODBYE));
        ok := outcome.Wrote?;
      }
      if !ok {
        Escape();
        return;
      }
      ghost var before := View();
      if |workers| < maxClients {
        workers, threads, joins := workers + [|threads|], threads + [Active], joins + [0];
      } else {
        refusals := refusals + [observed];
      }
      pc := Polling;
      StepIsNext(before, View(), maxClients);
      Stepped(before);
    }

    /**
     `serve`. The polls say, round after round, which client connected, if any; after the last one the quit condition
     holds. Every interleaving with the workers is a run of the machine; it ends in Returned, with everyone joined
     once, unless `accept`, the handler factory or the goodbye to a refused client threw; exactly then an exception
     leaves `serve`.
     */
    method Serve(polls: seq<Socket?>) returns (ok: bool)
      requires Valid() && pc == Polling
      modifies this, Clients(polls), outside
      ensures Valid() && (if ok then pc == Returned else pc.Escaped?)
      ensures ok <==>
              && outside.raised == old(outside.raised)
              && forall client :: client in Clients(polls) ==> client.failures == old(client.failures)
      ensures ok ==> accepted == old(accepted) + Connected(polls) && accepted == |threads| + |refusals|
      ensures ok ==> |joins| == |threads| && forall id :: 0 <= id < |joins| ==> joins[id] == 1 && threads[id] == Over
    {
      hide IsRun;
      hide Next;
      hide Listed;
      hide Counted;
      hide Subsequence;
      var p := 0;
      while p < |polls|
        invariant Valid() && pc == Polling && p <= |polls|
        invariant accepted == old(accepted) + Connected(polls[..p])
        invariant outside.raised == old(outside.raised)
        invariant forall client :: client in Clients(polls) ==> client.failures == old(client.failures)
      {
        Interfere();
        var threw := outside.Raises();
        if threw {
          Escape();
          return false;
        }
        if polls[p] != null {
          StartCleanup();
          Cleanup();
          Interfere();
          ok := AdmitOrRefuse(polls[p]);
          if !ok { return; }
        }
        assert polls[..p + 1][..p] == polls[..p];
        p := p + 1;
      }
      assert polls[..p] == polls;
      FinishAll();
      ok := true;
    }

    /** The final loop. */
    method FinishAll()
      requires Valid() && pc == Polling
      modifies this
      ensures Valid() && pc == Returned && |joins| == |threads|
      ensures accepted == old(accepted) && accepted == |threads| + |refusals|
      ensures forall id :: 0 <= id < |joins| ==> joins[id] == 1 && threads[id] == Over
    {
      hide IsRun;
      hide Listed;
      hide Counted;
      hide Next;
      ghost var before := View();
      pc := Finishing(0);
      StepIsNext(before, View(), maxClients);
      Stepped(before);
      var k := 0;
      while k < |workers|
        invariant Valid() && pc == Finishing(k) && k <= |workers| && accepted == old(accepted)
        decreases |workers| - k
      {
        FinishOne(k);
        k := k + 1;
      }
      before := View();
      pc := Returned;
      StepIsNext(before, View(), maxClients);
      Stepped(before);
      AllCounted();
      AllJoinedOnce(run, maxClients, |run| - 1);
    }

    method FinishOne(k: nat)
      requires Valid() && pc == Finishing(k) && k < |workers|
      modifies this
      ensures Valid() && pc == Finishing(k + 1) && workers == old(workers) && accepted == old(accepted)
    {
      hide IsRun;
      hide Counted;
      hide Next;
      var id := workers[k];
      AwaitEnd(id);
      ghost var before := View();
      joins := joins[id := joins[id] + 1];
      pc := Finishing(k + 1);
      StepIsNext(before, View(), maxClients);
      Stepped(before);
    }
  }
}
