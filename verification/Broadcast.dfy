/** Decimal output of unsigned numbers, as `operator<<` prints them. */
module Decimal {
  import opened Bytes

  function Digits(n: nat): (s: seq<Byte>)
    ensures s != [] && forall i :: 0 <= i < |s| ==> 48 <= s[i] <= 57
  {
    var last: Byte := 48 + n % 10;
    if n < 10 then [last] else Digits(n / 10) + [last]
  }

  /** The number a string of digits denotes. */
  function Value(s: seq<Byte>): (n: int)
  {
    if s == [] then 0 else
      var digit: int := s[|s| - 1];
      10 * Value(s[..|s| - 1]) + digit - 48
  }

  /** Printing and reading back is the identity, so different numbers print differently. */
  lemma {:induction false} ValueOfDigits(n: nat)
    ensures Value(Digits(n)) == n
  {
    var s := Digits(n);
    if n < 10 {
      assert s[..0] == [];
    } else {
      assert s[..|s| - 1] == Digits(n / 10);
      ValueOfDigits(n / 10);
    }
  }

  /** A decimal numeral as people write it: digits, no leading zero, and the number they denote. */
  predicate Denotes(s: seq<Byte>, n: nat)
  {
    && s != [] && (forall i :: 0 <= i < |s| ==> 48 <= s[i] <= 57) && (|s| > 1 ==> s[0] != 48)
    && Value(s) == n
  }

  lemma {:induction false} PositiveValue(s: seq<Byte>)
    requires s != [] && (forall i :: 0 <= i < |s| ==> 48 <= s[i] <= 57) && s[0] != 48
    ensures Value(s) > 0
  {
    if |s| == 1 {
      assert s[..0] == [];
    } else {
      PositiveValue(s[..|s| - 1]);
    }
  }

  /** What is printed is the one numeral of the number. */
  lemma {:induction false} DenotesIff(s: seq<Byte>, n: nat)
    ensures Denotes(s, n) <==> s == Digits(n)
    decreases |s|, n
  {
    if s == Digits(n) {
      ValueOfDigits(n);
      FirstDigit(n);
    }
    if Denotes(s, n) {
      var init := s[..|s| - 1];
      assert s == init + [s[|s| - 1]];
      if |s| > 1 {
        PositiveValue(init);
        DenotesIff(init, n / 10);
      } else {
        assert init == [];
      }
    }
  }

  lemma {:induction false} FirstDigit(n: nat)
    ensures |Digits(n)| > 1 ==> Digits(n)[0] != 48
    ensures n > 0 ==> Digits(n)[0] != 48
  {
    if n >= 10 { FirstDigit(n / 10); }
  }

  function Pow10(k: nat): (r: nat)
    ensures r > 0
  {
    if k == 0 then 1 else 10 * Pow10(k - 1)
  }

  lemma {:induction false} DigitCount(n: nat, k: nat)
    requires k >= 1 && n < Pow10(k)
    ensures |Digits(n)| <= k
  {
    if n >= 10 {
      assert k >= 2;
      DigitCount(n / 10, k - 1);
    }
  }
}

/** The push example: `ElemMgr`, `pusherRunner` and the handlers that come and go. */
module Broadcast {
  import opened Bytes
  import opened Rfc6455
  import opened Frames
  import opened Connections
  import opened Reassembly
  import opened CloseFinal
  import opened Decimal

  const SIZE_T_LIMIT := 0x1_0000_0000_0000_0000

  /** `cnt << std::endl`. */
  function Line(cnt: nat): (text: seq<Byte>)
    ensures 0 !in text
  {
    Digits(cnt) + [10]
  }

  lemma {:induction false} LineFits(cnt: nat)
    requires cnt < SIZE_T_LIMIT
    ensures |Line(cnt)| <= 21 && CString(Line(cnt)) == Line(cnt)
  {
    assert Pow10(5) == 100000;
    assert Pow10(10) == 100000 * Pow10(5);
    assert Pow10(15) == 100000 * Pow10(10);
    assert Pow10(20) == 100000 * Pow10(15);
    DigitCount(cnt, 20);
  }

  /** A line that says a number. */
  predicate Says(line: seq<Byte>, n: nat)
  {
    line != [] && line[|line| - 1] == 10 && Denotes(line[..|line| - 1], n)
  }

  lemma {:induction false} LineSays(cnt: nat)
    ensures Says(Line(cnt), cnt)
  {
    assert Line(cnt)[..|Line(cnt)| - 1] == Digits(cnt);
    DenotesIff(Digits(cnt), cnt);
  }

  lemma {:induction false} LineInjective(a: nat, b: nat)
    requires Line(a) == Line(b)
    ensures a == b
  {
    assert Line(a)[..|Line(a)| - 1] == Digits(a) && Line(b)[..|Line(b)| - 1] == Digits(b);
    ValueOfDigits(a);
    ValueOfDigits(b);
  }

  /** A connection: what its peer sees, and as history the counter when it was added and the frames sent. */
  datatype Conn = Conn(link: Link, first: nat, log: seq<Frame>)

  datatype State = State(cnt: nat, elements: set<nat>, conns: seq<Conn>)

  /** One atomic action of the pusher or of a worker; new connections get fresh identities. */
  datatype Action = Push | Connect | Disconnect(id: nat) | Shut(id: nat) | SendBack(id: nat, data: seq<Byte>)

  /** A request on a connection, with the frame it adds while the connection is open. */
  function Issue(c: Conn, request: Request): Conn
  {
    var (l, threw) := Perform(c.link, request);
    if c.link.closed || threw then c.(link := l)
    else Conn(l, c.first, c.log + [FrameOf(request)])
  }

  /** `ElemMgr::push` sends to every element; the rest is untouched. */
  function PushAll(conns: seq<Conn>, elements: set<nat>, text: seq<Byte>): (r: seq<Conn>)
    ensures |r| == |conns|
  {
    seq(|conns|, i requires 0 <= i < |conns| => if i in elements then Issue(conns[i], SendText(text)) else conns[i])
  }

  function Step(s: State, a: Action): State
  {
    match a
    case Push => State(s.cnt + 1, s.elements, PushAll(s.conns, s.elements, Line(s.cnt)))
    case Connect =>
      State(s.cnt, s.elements + {|s.conns|}, s.conns + [Conn(Link([], false), s.cnt, [])])
    case Disconnect(id) => s.(elements := s.elements - {id})
    case Shut(id) =>
      if id < |s.conns| then s.(conns := s.conns[id := Issue(s.conns[id], CloseConnection)]) else s
    case SendBack(id, data) =>
      if id < |s.conns| then s.(conns := s.conns[id := Issue(s.conns[id], SendBinary(data))]) else s
  }

  function RunActions(s: State, actions: seq<Action>): State
    decreases |actions|
  {
    if actions == [] then s else RunActions(Step(s, actions[0]), actions[1..])
  }

  /** The payloads of the text frames in a list of frames. */
  function Texts(fs: seq<Frame>): (ts: seq<seq<Byte>>)
  {
    if fs == [] then []
    else Texts(fs[..|fs| - 1]) + (if fs[|fs| - 1].opcode == OPCODE_TEXT then [fs[|fs| - 1].payload] else [])
  }

  lemma {:induction false} TextsSnoc(fs: seq<Frame>, f: Frame)
    ensures Texts(fs + [f]) == Texts(fs) + (if f.opcode == OPCODE_TEXT then [f.payload] else [])
  {
    assert (fs + [f])[..|fs|] == fs;
  }

  /** Lines that say consecutive numbers. */
  ghost predicate Consecutive(ts: seq<seq<Byte>>, first: nat)
  {
    forall i :: 0 <= i < |ts| ==> Says(ts[i], first + i)
  }

  ghost predicate GoodConn(c: Conn, cnt: nat, listed: bool)
  {
    && AllSendable(c.log) && c.link.wire == EncodeAll(c.log)
    && Consecutive(Texts(c.log), c.first)
    && c.first + |Texts(c.log)| <= cnt
    && (listed && !c.link.closed ==> c.first + |Texts(c.log)| == cnt)
  }

  ghost predicate Good(s: State)
  {
    && (forall id :: id in s.elements ==> id < |s.conns|)
    && forall i :: 0 <= i < |s.conns| ==> GoodConn(s.conns[i], s.cnt, i in s.elements)
  }

  lemma {:induction false} IssueGood(c: Conn, cnt: nat, listed: bool, request: Request)
    requires GoodConn(c, cnt, listed) && !request.SendText?
    ensures GoodConn(Issue(c, request), cnt, listed)
  {
    hide Encode;
    var (l, threw) := Perform(c.link, request);
    if !c.link.closed && !threw {
      var f := Issue(c, request).log[|c.log|];
      EncodeAllSnoc(c.log, f);
      TextsSnoc(c.log, f);
      hide EncodeAll;
      hide Texts;
    }
  }

  lemma {:induction false} TickGood(c: Conn, cnt: nat)
    requires GoodConn(c, cnt, true) && cnt < SIZE_T_LIMIT
    ensures GoodConn(Issue(c, SendText(Line(cnt))), cnt + 1, true)
  {
    hide Encode;
    LineFits(cnt);
    LineSays(cnt);
    hide Line;
    hide Says;
    if !c.link.closed {
      var f := Frame(true, OPCODE_TEXT, Line(cnt));
      EncodeAllSnoc(c.log, f);
      TextsSnoc(c.log, f);
      hide EncodeAll;
      hide Texts;
    }
  }

  lemma {:induction false} StepGood(s: State, a: Action)
    requires Good(s) && s.cnt < SIZE_T_LIMIT
    ensures Good(Step(s, a))
  {
    hide Issue;
    match a
    case Push =>
      var t := Step(s, Push);
      forall i | 0 <= i < |t.conns|
        ensures GoodConn(t.conns[i], t.cnt, i in t.elements)
      {
        if i in s.elements { TickGood(s.conns[i], s.cnt); }
      }
    case Connect =>
      assert |s.conns| !in s.elements;
      assert GoodConn(Conn(Link([], false), s.cnt, []), s.cnt, true);
    case Disconnect(id) =>
      forall i | 0 <= i < |s.conns|
        ensures GoodConn(s.conns[i], s.cnt, i in s.elements - {id})
      {
        assert GoodConn(s.conns[i], s.cnt, i in s.elements);
      }
    case Shut(id) =>
      if id < |s.conns| { IssueGood(s.conns[id], s.cnt, id in s.elements, CloseConnection); }
    case SendBack(id, data) =>
      if id < |s.conns| { IssueGood(s.conns[id], s.cnt, id in s.elements, SendBinary(data)); }
  }

  lemma {:induction false} RunGood(s: State, actions: seq<Action>)
    requires Good(s) && s.cnt + |actions| <= SIZE_T_LIMIT
    ensures Good(RunActions(s, actions)) && RunActions(s, actions).cnt <= s.cnt + |actions|
    decreases |actions|
  {
    hide Good;
    hide Step;
    if actions != [] {
      StepGood(s, actions[0]);
      assert Step(s, actions[0]).cnt <= s.cnt + 1 by { StepCount(s, actions[0]); }
      RunGood(Step(s, actions[0]), actions[1..]);
    }
  }

  lemma {:induction false} StepCount(s: State, a: Action)
    ensures s.cnt <= Step(s, a).cnt <= s.cnt + 1
  {
  }

  /** What the peer of a connection can tell: consecutive ticks, all of them while it stays listed and open. */
  ghost predicate Contiguous(s: State, id: nat)
    requires id < |s.conns|
  {
    var c := s.conns[id];
    var read := ReadAll(c.link.wire);
    && read.Some? && Consecutive(Texts(read.value), c.first)
    && (id in s.elements && !c.link.closed ==> c.first + |Texts(read.value)| == s.cnt)
  }

  const START := State(0, {}, [])

  /**
   Broadcast contiguity. For every interleaving of pushes, connects, disconnects, closes and answers, the text
   frames any peer reads carry consecutive counter values: no gap, no duplicate, nothing out of order; and a
   connection that is still listed and open has everything since it was added.
   */
  lemma {:induction false} ContiguousTicks(actions: seq<Action>, id: nat)
    requires |actions| <= SIZE_T_LIMIT && id < |RunActions(START, actions).conns|
    ensures Contiguous(RunActions(START, actions), id)
  {
    hide RunActions;
    hide ReadAll;
    RunGood(START, actions);
    ReadAllEncoded(RunActions(START, actions).conns[id].log);
    hide Encode;
  }

  lemma {:induction false} RunSnoc(s: State, actions: seq<Action>, a: Action)
    ensures RunActions(s, actions + [a]) == Step(RunActions(s, actions), a)
    decreases |actions|
  {
    hide Step;
    if actions == [] {
      assert [a][1..] == [] && [] + [a] == [a];
      assert RunActions(Step(s, a), []) == Step(s, a);
    } else {
      assert (actions + [a])[1..] == actions[1..] + [a];
      RunSnoc(Step(s, actions[0]), actions[1..], a);
    }
  }

  // Who is who in a run

  function Pushes(actions: seq<Action>): nat
  {
    if actions == [] then 0 else Pushes(actions[..|actions| - 1]) + (if actions[|actions| - 1].Push? then 1 else 0)
  }

  function Connects(actions: seq<Action>): nat
  {
    if actions == [] then 0 else Connects(actions[..|actions| - 1]) + (if actions[|actions| - 1].Connect? then 1 else 0)
  }

  lemma {:induction false} RunCounts(actions: seq<Action>)
    ensures var s := RunActions(START, actions);
      s.cnt == Pushes(actions) && |s.conns| == Connects(actions)
  {
    hide RunActions;
    hide Issue;
    if actions == [] {
      RunNothing(START);
    } else {
      var init, last := actions[..|actions| - 1], actions[|actions| - 1];
      assert actions == init + [last];
      RunSnoc(START, init, last);
      RunCounts(init);
    }
  }

  lemma {:induction false} RunNothing(s: State)
    ensures RunActions(s, []) == s
  {
  }

  lemma {:induction false} FirstStays(s: State, a: Action, id: nat)
    requires id < |s.conns|
    ensures id < |Step(s, a).conns| && Step(s, a).conns[id].first == s.conns[id].first
  {
    hide Perform;
  }

  /** The number from which a connection counts is the number of pushes before it connected. */
  lemma {:induction false} FirstIsPushesBefore(before: seq<Action>, after: seq<Action>)
    ensures var s := RunActions(START, before + [Connect] + after);
      Connects(before) < |s.conns| && s.conns[Connects(before)].first == Pushes(before)
    decreases |after|
  {
    hide RunActions;
    hide Issue;
    hide Pushes;
    hide Connects;
    if after == [] {
      assert before + [Connect] + after == before + [Connect];
      RunCounts(before);
      RunSnoc(START, before, Connect);
    } else {
      var init, last := after[..|after| - 1], after[|after| - 1];
      assert before + [Connect] + after == before + [Connect] + init + [last];
      FirstIsPushesBefore(before, init);
      RunSnoc(START, before + [Connect] + init, last);
      FirstStays(RunActions(START, before + [Connect] + init), last, Connects(before));
    }
  }

  /**
   `ElemMgr` with its connections, numbered, and the handlers that act on them. As history it keeps the number of
   pushes and the actions taken.
   */
  class ElemMgr {
    const outside: Outside   // the sockets
    var elements: set<nat>
    var conns: seq<Conn>
    var cnt: nat
    ghost var actions: seq<Action>

    constructor (outside: Outside)
      ensures Valid() && cnt == 0 && actions == [] && this.outside == outside
    {
      this.outside := outside;
      elements, conns, cnt, actions := {}, [], 0, [];
    }

    ghost function View(): State
      reads this
    {
      State(cnt, elements, conns)
    }

    /** The object is where its actions have brought the machine. */
    ghost predicate Valid()
      reads this
    {
      View() == RunActions(START, actions) && forall id :: id in elements ==> id < |conns|
    }

    ghost method Acted(before: State, a: Action)
      requires before == RunActions(START, actions) && View() == Step(before, a)
      requires forall id :: id in elements ==> id < |conns|
      modifies `actions
      ensures Valid() && actions == old(actions) + [a]
    {
      RunSnoc(START, actions, a);
      actions := actions + [a];
    }

    method AddElem(id: nat)
      modifies `elements
      ensures elements == old(elements) + {id}
    {
      elements := elements + {id};
    }

    method DelElem(id: nat)
      modifies `elements
      ensures elements == old(elements) - {id}
    {
      elements := elements - {id};
    }

    /** `WsPushHandler::onConnect` on a new connection. */
    method OnConnect() returns (id: nat)
      requires Valid()
      modifies this
      ensures Valid() && actions == old(actions) + [Connect] && cnt == old(cnt) && id == |old(conns)| && id in elements
    {
      hide RunActions;
      ghost var before := View();
      id := |conns|;
      conns := conns + [Conn(Link([], false), cnt, [])];
      AddElem(id);
      Acted(before, Connect);
    }

    /** `WsPushHandler::onDisconnect`. */
    method OnDisconnect(id: nat)
      requires Valid()
      modifies this
      ensures Valid() && actions == old(actions) + [Disconnect(id)] && cnt == old(cnt) && id !in elements
    {
      hide RunActions;
      ghost var before := View();
      DelElem(id);
      Acted(before, Disconnect(id));
    }

    /** The client's Close frame is answered. */
    method OnClose(id: nat)
      requires Valid() && id < |conns|
      modifies this
      ensures Valid() && actions == old(actions) + [Shut(id)] && cnt == old(cnt) && |conns| == |old(conns)|
      ensures conns[id].link == Perform(old(conns)[id].link, CloseConnection).0
      ensures forall i :: 0 <= i < |conns| && i != id ==> conns[i] == old(conns)[i]
    {
      hide RunActions;
      hide Issue;
      ghost var before := View();
      IssueLink(conns[id], CloseConnection);
      conns := conns[id := Issue(conns[id], CloseConnection)];
      Acted(before, Shut(id));
    }

    /** `WsPushHandler::onData` sends the data back. */
    method OnData(id: nat, data: seq<Byte>)
      requires Valid() && id < |conns|
      modifies this
      ensures Valid() && actions == old(actions) + [SendBack(id, data)] && cnt == old(cnt) && |conns| == |old(conns)|
      ensures conns[id].link == Perform(old(conns)[id].link, SendBinary(data)).0
      ensures forall i :: 0 <= i < |conns| && i != id ==> conns[i] == old(conns)[i]
    {
      hide RunActions;
      hide Issue;
      ghost var before := View();
      IssueLink(conns[id], SendBinary(data));
      conns := conns[id := Issue(conns[id], SendBinary(data))];
      Acted(before, SendBack(id, data));
    }

    /** Whatever the workers do while the pusher does not hold the mutex. */
    method Interfere()
      requires Valid()
      modifies this
      ensures Valid() && cnt == old(cnt)
    {
      hide RunActions;
      hide Step;
      var steps: nat := *;
      while steps > 0
        invariant Valid() && cnt == old(cnt)
      {
        var choice, id: nat, data: seq<Byte> := *, *, *;
        if choice == 0 {
          var fresh' := OnConnect();
        } else if choice == 1 {
          OnDisconnect(id);
        } else if choice == 2 && id < |conns| {
          OnClose(id);
        } else if id < |conns| {
          OnData(id, data);
        }
        steps := steps - 1;
      }
    }

    /** One send. It may throw, with a part of the frame written. */
    method SendTo(id: nat, text: seq<Byte>) returns (ok: bool)
      requires id < |conns|
      modifies `conns, outside
      ensures |conns| == |old(conns)| && forall i :: 0 <= i < |conns| && i != id ==> conns[i] == old(conns)[i]
      ensures var before, after := old(conns)[id], Issue(old(conns)[id], SendText(text));
        && (ok ==> conns[id] == after) && (!ok ==> conns[id].link.wire != after.link.wire)
        && before.link.wire <= conns[id].link.wire <= after.link.wire
      ensures outside.raised == old(outside.raised) + Once(!ok)
    {
      hide Issue;
      var sent := Issue(conns[id], SendText(text));
      IssueGrows(conns[id], SendText(text));
      var threw := false;
      if |conns[id].link.wire| < |sent.link.wire| {
        threw := outside.Raises();
      }
      ok := !threw;
      if ok {
        conns := conns[id := sent];
      } else {
        var cut: nat :| |conns[id].link.wire| <= cut < |sent.link.wire|;
        conns := conns[id := conns[id].(link := Link(sent.link.wire[..cut], conns[id].link.closed))];
      }
    }

    /**
     `push` visits the set in whatever order; every element gets the text once and nobody else does. When a send
     throws, the rest of the set is not visited, and every wire is between what it was and what it should be.
     */
    method Push(text: seq<Byte>) returns (ok: bool)
      requires forall id :: id in elements ==> id < |conns|
      modifies `conns, outside
      ensures ok <==> conns == PushAll(old(conns), elements, text)
      ensures outside.raised == old(outside.raised) + Once(!ok)
      ensures |conns| == |old(conns)|
      ensures forall i :: 0 <= i < |conns| ==>
        old(conns)[i].link.wire <= conns[i].link.wire <= PushAll(old(conns), elements, text)[i].link.wire
    {
      hide Issue;
      ghost var was := conns;
      forall i | 0 <= i < |was|
        ensures was[i].link.wire <= Issue(was[i], SendText(text)).link.wire
      {
        IssueGrows(was[i], SendText(text));
      }
      var rest := elements;
      while rest != {}
        invariant rest <= elements && |conns| == |was|
        invariant forall i :: 0 <= i < |was| ==>
          conns[i] == if i in elements && i !in rest then Issue(was[i], SendText(text)) else was[i]
        invariant outside.raised == old(outside.raised)
        decreases |rest|
      {
        var id :| id in rest;
        ok := SendTo(id, text);
        if !ok { return; }
        rest := rest - {id};
      }
      assert conns == PushAll(was, elements, text);
      ok := true;
    }

    /** One round of the pusher. */
    method Tick() returns (ok: bool)
      requires Valid()
      modifies this, outside
      ensures ok ==> Valid() && cnt == old(cnt) + 1 && actions == old(actions) + [Action.Push]
      ensures outside.raised == old(outside.raised) + Once(!ok)
    {
      hide RunActions;
      hide Issue;
      ghost var before := View();
      ok := Push(Line(cnt));
      if ok {
        cnt := cnt + 1;
        assert View() == Step(before, Action.Push);
        Acted(before, Action.Push);
      }
    }
  }

  lemma {:induction false} IssueLink(c: Conn, request: Request)
    ensures Issue(c, request).link == Perform(c.link, request).0
  {
    hide Perform;
  }

  lemma {:induction false} IssueGrows(c: Conn, request: Request)
    ensures c.link.wire <= Issue(c, request).link.wire
  {
    hide Encode;
  }

  /**
   `pusherRunner`: counts up from zero, one push per round, while handlers connect, disconnect, close and answer in
   between. Unless a send throws, which ends the program, every peer reads a contiguous run of the counter.
   */
  method PusherRunner(manager: ElemMgr, rounds: nat) returns (ok: bool)
    requires manager.Valid() && manager.cnt == 0
    modifies manager, manager.outside
    ensures ok ==> manager.Valid() && manager.cnt == rounds
    ensures manager.outside.raised == old(manager.outside.raised) + Once(!ok)
    ensures ok && |manager.actions| <= SIZE_T_LIMIT ==>
              forall id: nat :: id < |manager.conns| ==> Contiguous(manager.View(), id)
  {
    hide RunActions;
    hide Contiguous;
    var cnt := 0;
    while cnt < rounds
      invariant 0 <= cnt <= rounds && manager.Valid() && manager.cnt == cnt
      invariant manager.outside.raised == old(manager.outside.raised)
    {
      manager.Interfere();
      ok := manager.Tick();
      if !ok { return; }
      cnt := cnt + 1;
    }
    manager.Interfere();
    ok := true;
    if |manager.actions| <= SIZE_T_LIMIT {
      forall id: nat | id < |manager.conns|
        ensures Contiguous(manager.View(), id)
      {
        ContiguousTicks(manager.actions, id);
      }
    }
  }
}
