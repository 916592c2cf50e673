/** `Socket` and `Connection`: the partial-write loop and the closed flag. */
module Connections {
  import opened Bytes

  const MAX_SIZE := 4096

  /** A wire on its way: it has got there exactly unless a write failed; then a part is written, from the beginning. */
  ghost predicate Written(cut: bool, before: seq<Byte>, now: seq<Byte>, after: seq<Byte>)
  {
    before <= now <= after && (cut <==> now != after)
  }

  /** A condition, counted. */
  function Once(b: bool): nat
  {
    if b then 1 else 0
  }

  /** What one `write` call reports: how many octets the peer took, or an exception. */
  datatype WriteOutcome = Wrote(count: nat) | WriteThrows

  /**
   The peer of a connection. `wire` is everything it has accepted, in order; `failures` counts the writes that threw,
   and nothing but such a write changes it.
   */
  class Socket {
    var wire: seq<Byte>
    ghost var failures: nat

    constructor ()
      ensures wire == [] && failures == 0
    {
      wire, failures := [], 0;
    }

    /** Takes any non-empty prefix of the octets offered, or throws. */
    method Write(buf: seq<Byte>) returns (outcome: WriteOutcome)
      requires buf != []
      modifies this
      ensures outcome.Wrote? ==> 1 <= outcome.count <= |buf| && wire == old(wire) + buf[..outcome.count]
      ensures outcome.WriteThrows? ==> wire == old(wire)
      ensures failures == old(failures) + Once(outcome.WriteThrows?)
    {
      if * {
        outcome, failures := WriteThrows, failures + 1;
      } else {
        var n :| 1 <= n <= |buf|;
        wire := wire + buf[..n];
        outcome := Wrote(n);
      }
    }
  }

  /** Code outside the model that may throw where it is called; `raised` counts how often it did. */
  class Outside {
    ghost var raised: nat

    constructor ()
      ensures raised == 0
    {
      raised := 0;
    }

    method Raises() returns (threw: bool)
      modifies this
      ensures raised == old(raised) + Once(threw)
    {
      threw := *;
      if threw { raised := raised + 1; }
    }
  }

  class Connection {
    const socket: Socket
    var closed: bool

    constructor (socket: Socket)
      ensures this.socket == socket && !closed
    {
      this.socket := socket;
      closed := false;
    }

    /**
     `send`. However the socket cuts the writes, all of `buf` goes out, once and in order, unless one of them throws;
     then what went out is a proper prefix. Nothing goes out on a closed connection.
     */
    method Send(buf: seq<Byte>) returns (numWritten: nat, ok: bool)
      modifies socket
      ensures numWritten <= |buf| && socket.wire == old(socket.wire) + buf[..numWritten]
      ensures closed ==> ok && numWritten == 0
      ensures !closed ==> (ok <==> numWritten == |buf|)
      ensures socket.failures == old(socket.failures) + Once(!ok)
    {
      numWritten, ok := 0, true;
      while !closed && numWritten < |buf|
        invariant 0 <= numWritten <= |buf| && ok
        invariant closed ==> numWritten == 0
        invariant socket.failures == old(socket.failures)
        invariant socket.wire == old(socket.wire) + buf[..numWritten]
        decreases |buf| - numWritten
      {
        var outcome := socket.Write(buf[numWritten..]);
        if outcome.WriteThrows? {
          return numWritten, false;
        }
        assert buf[..numWritten + outcome.count] == buf[..numWritten] + buf[numWritten..][..outcome.count];
        numWritten := numWritten + outcome.count;
      }
    }

    method Close()
      modifies this
      ensures closed
    {
      closed := true;
    }
  }
}

/**
 `send` on a socket whose `write` may also return NUM_CONTINUE (-1), which the loop adds to its unsigned counter
 like any other result.
 */
module SendRetry {
  import opened Bytes

  datatype Outcome = Took(count: nat) | Again

  const SIZE_MAX := 0xFFFF_FFFF_FFFF_FFFF

  /** A finished call: octets put on the wire and the value returned. */
  datatype Sent = Sent(wire: seq<Byte>, returned: nat) | Unfinished

  /** Adding -1 to the unsigned counter: it goes back by one, or wraps. */
  function PlusMinusOne(numWritten: nat): (r: nat)
    ensures numWritten <= SIZE_MAX ==> r == if numWritten == 0 then SIZE_MAX else numWritten - 1
  {
    (numWritten + SIZE_MAX) % (SIZE_MAX + 1)
  }

  /** The loop from a given counter on; the script is the results of its write calls, all of them. */
  function Loop(buf: seq<Byte>, numWritten: nat, script: seq<Outcome>): (r: Sent)
    decreases |script|
  {
    if numWritten >= |buf| then
      if script == [] then Sent([], numWritten) else Unfinished
    else if script == [] then
      Unfinished
    else match script[0]
      case Again =>
        Loop(buf, PlusMinusOne(numWritten), script[1..])
      case Took(n) =>
        if n == 0 || n > |buf| - numWritten then Unfinished else
          var rest := Loop(buf, numWritten + n, script[1..]);
          if rest.Unfinished? then Unfinished
          else Sent(buf[numWritten..numWritten + n] + rest.wire, rest.returned)
  }

  function Retries(script: seq<Outcome>): (n: nat)
  {
    if script == [] then 0 else (if script[0].Again? then 1 else 0) + Retries(script[1..])
  }

  /** A retry takes the counter back by one, or ends the call if there was nothing to take back. */
  lemma {:induction false} LoopAgain(buf: seq<Byte>, numWritten: nat, script: seq<Outcome>)
    requires numWritten < |buf| < SIZE_MAX && script != [] && script[0] == Again
    requires Loop(buf, numWritten, script).Sent?
    ensures Retries(script) == 1 + Retries(script[1..])
    ensures if numWritten == 0 then Loop(buf, 0, script) == Sent([], SIZE_MAX)
            else Loop(buf, numWritten, script) == Loop(buf, numWritten - 1, script[1..])
  {
    hide PlusMinusOne;
    if numWritten == 0 {
      assert Loop(buf, 0, script) == Loop(buf, SIZE_MAX, script[1..]);
    }
  }

  /** A write that takes octets puts them on the wire. */
  lemma {:induction false} LoopTook(buf: seq<Byte>, numWritten: nat, script: seq<Outcome>, n: nat)
    requires numWritten < |buf| && script != [] && script[0] == Took(n) && Loop(buf, numWritten, script).Sent?
    ensures 0 < n <= |buf| - numWritten && Retries(script) == Retries(script[1..])
    ensures var rest := Loop(buf, numWritten + n, script[1..]);
      && rest.Sent?
      && Loop(buf, numWritten, script) == Sent(buf[numWritten..numWritten + n] + rest.wire, rest.returned)
  {
    hide PlusMinusOne;
  }

  lemma {:induction false} LoopEnds(buf: seq<Byte>, numWritten: nat, script: seq<Outcome>)
    requires Loop(buf, numWritten, script).Sent?
    ensures numWritten < |buf| ==> script != []
    ensures numWritten >= |buf| ==> Loop(buf, numWritten, script) == Sent([], numWritten) && Retries(script) == 0
  {
    hide PlusMinusOne;
  }

  /** Every retry is paid for: one octet goes out twice, or the counter wraps and the call gives up. */
  lemma {:induction false} RetryAccounting(buf: seq<Byte>, numWritten: nat, script: seq<Outcome>)
    requires |buf| < SIZE_MAX && numWritten <= |buf| && Loop(buf, numWritten, script).Sent?
    ensures var r := Loop(buf, numWritten, script);
      && (r.returned == |buf| ==> numWritten + |r.wire| == |buf| + Retries(script))
      && (r.returned != |buf| ==> r.returned == SIZE_MAX && Retries(script) > 0)
      && (Retries(script) == 0 ==> r == Sent(buf[numWritten..], |buf|))
    decreases |script|
  {
    hide *;
    LoopEnds(buf, numWritten, script);
    if numWritten < |buf| {
      match script[0]
      case Again =>
        LoopAgain(buf, numWritten, script);
        if numWritten > 0 { RetryAccounting(buf, numWritten - 1, script[1..]); }
      case Took(n) =>
        LoopTook(buf, numWritten, script, n);
        RetryAccounting(buf, numWritten + n, script[1..]);
        assert buf[numWritten..numWritten + n] + buf[numWritten + n..] == buf[numWritten..];
    }
  }

  /** A send does its job exactly when no write call asked for a retry. */
  lemma {:induction false} ExactIffNoRetry(buf: seq<Byte>, script: seq<Outcome>)
    requires |buf| < SIZE_MAX && Loop(buf, 0, script).Sent?
    ensures Loop(buf, 0, script) == Sent(buf, |buf|) <==> Retries(script) == 0
  {
    RetryAccounting(buf, 0, script);
    assert buf[0..] == buf;
  }

  /** One octet duplicated, and a message lost while the caller is told of 2^64 - 1 octets. */
  lemma {:induction false} RetryDamage(a: Byte, b: Byte)
    ensures Loop([a, b], 0, [Took(1), Again, Took(2)]) == Sent([a, a, b], 2)
    ensures Loop([a, b], 0, [Again]) == Sent([], SIZE_MAX)
  {
    var buf := [a, b];
    assert Loop(buf, 2, []) == Sent([], 2);
    assert [Again, Took(2)][1..] == [Took(2)] && [Took(1), Again, Took(2)][1..] == [Again, Took(2)];
    assert Loop(buf, 0, [Took(2)]) == Sent(buf[0..2] + [], 2);
    assert Loop(buf, 1, [Again, Took(2)]) == Sent(buf, 2);
    assert Loop(buf, SIZE_MAX, []) == Sent([], SIZE_MAX);
  }
}
