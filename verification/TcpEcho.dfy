/** The read loop of `ClientWorker` serving the TCP echo handler. */
module TcpEcho {
  import opened Bytes
  import opened Connections

  /** What happens when the loop comes round: poll says no, retry, end of file, data, or an exception. */
  datatype ReadOutcome = NotReadable | Retry | Eof | Data(bytes: seq<Byte>) | ReadThrows

  predicate Legal(script: seq<ReadOutcome>)
  {
    forall i :: 0 <= i < |script| && script[i].Data? ==> 0 < |script[i].bytes| <= MAX_SIZE
  }

  /** All octets a script delivers before end of file or a failing read. */
  function Received(script: seq<ReadOutcome>): (s: seq<Byte>)
  {
    if script == [] || script[0].Eof? || script[0].ReadThrows? then []
    else (if script[0].Data? then script[0].bytes else []) + Received(script[1..])
  }

  predicate Endless(script: seq<ReadOutcome>)
  {
    forall i :: 0 <= i < |script| ==> !script[i].Eof? && !script[i].ReadThrows?
  }

  /** The data of all reads, joined. */
  function JoinedData(script: seq<ReadOutcome>): (s: seq<Byte>)
  {
    if script == [] then [] else (if script[0].Data? then script[0].bytes else []) + JoinedData(script[1..])
  }

  lemma {:induction false} EndlessReceived(script: seq<ReadOutcome>)
    requires Endless(script)
    ensures Received(script) == JoinedData(script)
  {
    if script != [] { EndlessReceived(script[1..]); }
  }

  /**
   How a stream is cut into reads, and how many idle rounds lie between them, does not matter: two scripts with
   the same joined data deliver the same octets, whatever comes after, so `Serve` echoes the same.
   */
  lemma {:induction false} CuttingIsIrrelevant(a: seq<ReadOutcome>, b: seq<ReadOutcome>, tail: seq<ReadOutcome>)
    requires Endless(a) && Endless(b) && JoinedData(a) == JoinedData(b)
    ensures Received(a + tail) == Received(b + tail)
  {
    ReceivedAppend(a, tail);
    ReceivedAppend(b, tail);
    EndlessReceived(a);
    EndlessReceived(b);
  }

  lemma {:induction false} ReceivedAppend(script: seq<ReadOutcome>, more: seq<ReadOutcome>)
    requires Endless(script)
    ensures Received(script + more) == Received(script) + Received(more)
  {
    if script == [] {
      assert script + more == more;
    } else {
      assert (script + more)[1..] == script[1..] + more;
      ReceivedAppend(script[1..], more);
    }
  }

  lemma {:induction false} ReceivedAtEnd(script: seq<ReadOutcome>)
    ensures Received(script[|script|..]) == [] && EndOf(script[|script|..]) == Quit
  {
  }

  lemma {:induction false} ReceivedFrom(script: seq<ReadOutcome>, i: nat)
    requires i < |script|
    ensures Received(script[i..]) ==
            if script[i].Eof? || script[i].ReadThrows? then []
            else (if script[i].Data? then script[i].bytes else []) + Received(script[i + 1..])
    ensures EndOf(script[i..]) ==
            if script[i].Eof? then EndOfFile else if script[i].ReadThrows? then Thrown else EndOf(script[i + 1..])
  {
    assert script[i..][1..] == script[i + 1..];
  }

  /** Echoing part of the next read keeps to the order of the octets. */
  lemma {:induction false} EchoedMore(before: seq<Byte>, echoed: seq<Byte>, bytes: seq<Byte>, sent: nat,
                                      rest: seq<Byte>)
    requires sent <= |bytes|
    ensures before + echoed + bytes[..sent] == before + (echoed + bytes[..sent])
    ensures echoed + bytes[..sent] <= echoed + (bytes + rest)
    ensures sent == |bytes| ==> echoed + bytes[..sent] + rest == echoed + (bytes + rest)
  {
  }

  class EchoHandler {
    const connection: Connection

    constructor (socket: Socket)
      ensures fresh(connection) && connection.socket == socket && !connection.closed
    {
      connection := new Connection(socket);
    }

    method OnReceive(buf: array<Byte>, len: nat) returns (sent: nat, ok: bool)
      requires len <= buf.Length
      modifies connection.socket
      ensures sent <= len && (connection.closed ==> ok && sent == 0) && (!connection.closed ==> (ok <==> sent == len))
      ensures connection.socket.wire == old(connection.socket.wire) + buf[..len][..sent]
      ensures connection.socket.failures == old(connection.socket.failures) + Once(!ok)
    {
      sent, ok := connection.Send(buf[..len]);
    }
  }

  datatype Exit = Quit | EndOfFile | Thrown

  /** What the first end of file or failing read makes of the loop; if there is none, it goes on until told to quit. */
  function EndOf(script: seq<ReadOutcome>): Exit
  {
    if script == [] then Quit
    else if script[0].Eof? then EndOfFile
    else if script[0].ReadThrows? then Thrown
    else EndOf(script[1..])
  }

  /** `Socket::read`: fills the front of the message buffer. */
  method ReadInto(buf: array<Byte>, bytes: seq<Byte>) returns (len: nat)
    requires |bytes| <= buf.Length
    modifies buf
    ensures len == |bytes| && buf[..len] == bytes
  {
    len := |bytes|;
    forall i | 0 <= i < len { buf[i] := bytes[i]; }
  }

  /** One round of the loop with data: read into the buffer, call the handler on the part read. */
  method Deliver(handler: EchoHandler, buf: array<Byte>, bytes: seq<Byte>) returns (sent: nat, ok: bool)
    requires |bytes| <= buf.Length && !handler.connection.closed
    modifies buf, handler.connection.socket
    ensures sent <= |bytes| && (ok <==> sent == |bytes|)
    ensures handler.connection.socket.wire == old(handler.connection.socket.wire) + bytes[..sent]
    ensures handler.connection.socket.failures == old(handler.connection.socket.failures) + Once(!ok)
  {
    var len := ReadInto(buf, bytes);
    sent, ok := handler.OnReceive(buf, len);
  }

  /**
   `ClientWorker::loop` until the script ends (the quit condition). For every script of reads and every way the
   socket cuts the writes: unless one of them throws, the loop ends as the script says and the octets written are
   exactly those read; if one throws, the loop is left by an exception, and they are a proper prefix of them.
   */
  method Serve(handler: EchoHandler, script: seq<ReadOutcome>) returns (exit: Exit, ghost echoed: seq<Byte>)
    requires Legal(script) && !handler.connection.closed
    modifies handler.connection.socket
    ensures handler.connection.socket.wire == old(handler.connection.socket.wire) + echoed
    ensures var failed := handler.connection.socket.failures != old(handler.connection.socket.failures);
      && exit == (if failed then Thrown else EndOf(script))
      && echoed <= Received(script) && (failed <==> echoed != Received(script))
  {
    hide Received;
    hide EndOf;
    var connection := handler.connection;
    var buf := new Byte[MAX_SIZE];
    var i := 0;
    echoed := [];
    assert script[0..] == script;
    ghost var before, all := connection.socket.wire, Received(script);
    ReceivedAtEnd(script);
    while i < |script| && !connection.closed
      invariant 0 <= i <= |script|
      invariant echoed + Received(script[i..]) == all && EndOf(script[i..]) == EndOf(script)
      invariant connection.socket.wire == before + echoed
      invariant connection.socket.failures == old(connection.socket.failures)
    {
      var outcome := script[i];
      ReceivedFrom(script, i);
      if outcome.Eof? {
        return EndOfFile, echoed;
      } else if outcome.ReadThrows? {
        return Thrown, echoed;
      } else if outcome.Data? {
        var sent, ok := Deliver(handler, buf, outcome.bytes);
        EchoedMore(before, echoed, outcome.bytes, sent, Received(script[i + 1..]));
        echoed := echoed + outcome.bytes[..sent];
        if !ok {
          return Thrown, echoed;
        }
      }
      i := i + 1;
    }
    exit := Quit;
  }
}
