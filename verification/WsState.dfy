/** `WsConnection` and `HttpWsState` as objects, and their agreement with the functions of Reassembly. */
module WsState {
  import opened Bytes
  import opened Buffers
  import opened Rfc6455
  import opened Frames
  import opened Connections
  import opened Reassembly

  ghost function LinkOf(c: Connection): Link
    reads c, c.socket
  {
    Link(c.socket.wire, c.closed)
  }

  /** How a call ends: normally, with one of the two kinds of exception, or with a failed socket write. */
  datatype CallEnd = Normal | BadArgument | Escapes | WriteFailed

  class WsConnection {
    const tcpConnection: Connection

    constructor (tcpConnection: Connection)
      ensures this.tcpConnection == tcpConnection
    {
      this.tcpConnection := tcpConnection;
    }

    /** Sends a finished frame; all of it, or a proper prefix if a write fails. */
    method SendFrame(frame: WebSocketFrame) returns (end: CallEnd)
      modifies tcpConnection.socket
      ensures end == Normal || end == WriteFailed
      ensures end == Normal ==> LinkOf(tcpConnection) == Transmit(old(LinkOf(tcpConnection)), frame.data)
      ensures Written(end == WriteFailed, old(LinkOf(tcpConnection)).wire, LinkOf(tcpConnection).wire,
                      Transmit(old(LinkOf(tcpConnection)), frame.data).wire)
      ensures tcpConnection.socket.failures == old(tcpConnection.socket.failures) + Once(end == WriteFailed)
    {
      var n, ok := tcpConnection.Send(frame.data);
      end := if ok then Normal else WriteFailed;
    }

    /** `send(buf, len)`: returns the frame's payload length, whether or not the connection was still open. */
    method SendBytes(buf: seq<Byte>) returns (end: CallEnd, length: nat)
      modifies tcpConnection.socket
      ensures end == Normal ==> length == |buf|
      ensures var (link, threw) := Perform(old(LinkOf(tcpConnection)), SendBinary(buf));
        && (end == BadArgument <==> threw) && end != Escapes
        && (end != WriteFailed ==> LinkOf(tcpConnection) == link)
        && Written(end == WriteFailed, old(LinkOf(tcpConnection)).wire, LinkOf(tcpConnection).wire, link.wire)
      ensures tcpConnection.socket.failures == old(tcpConnection.socket.failures) + Once(end == WriteFailed)
    {
      hide Encode;
      var response := Build(buf, true, OPCODE_BINARY);
      if !response.Ok? {
        return BadArgument, 0;
      }
      AccessorsOfBuilt(Frame(true, OPCODE_BINARY, buf));
      end := SendFrame(response.value);
      length := response.value.PayloadLength().value;
    }

    /** `send(buf)`: a text frame with the string up to its NUL; returns the string's length. */
    method SendString(text: seq<Byte>) returns (end: CallEnd, length: nat)
      modifies tcpConnection.socket
      ensures end == Normal ==> length == |CString(text)|
      ensures var (link, threw) := Perform(old(LinkOf(tcpConnection)), SendText(text));
        && (end == BadArgument <==> threw) && end != Escapes
        && (end != WriteFailed ==> LinkOf(tcpConnection) == link)
        && Written(end == WriteFailed, old(LinkOf(tcpConnection)).wire, LinkOf(tcpConnection).wire, link.wire)
      ensures tcpConnection.socket.failures == old(tcpConnection.socket.failures) + Once(end == WriteFailed)
    {
      hide Encode;
      var response := Build(CString(text), true, OPCODE_TEXT);
      if !response.Ok? {
        return BadArgument, 0;
      }
      AccessorsOfBuilt(Frame(true, OPCODE_TEXT, CString(text)));
      end := SendFrame(response.value);
      length := response.value.PayloadLength().value;
    }

    /** Sends a Close frame, then closes: later sends write nothing. */
    method Close() returns (end: CallEnd)
      modifies tcpConnection, tcpConnection.socket
      ensures var link := Perform(old(LinkOf(tcpConnection)), CloseConnection).0;
        && (end == Normal || end == WriteFailed)
        && (end == Normal ==> LinkOf(tcpConnection) == link)
        && Written(end == WriteFailed, old(LinkOf(tcpConnection)).wire, LinkOf(tcpConnection).wire, link.wire)
      ensures tcpConnection.socket.failures == old(tcpConnection.socket.failures) + Once(end == WriteFailed)
    {
      hide Encode;
      var message := CreateConnectionClose(0);
      end := SendFrame(message);
      if end == Normal {
        tcpConnection.Close();
      }
    }

    method Do(request: Request) returns (end: CallEnd)
      modifies tcpConnection, tcpConnection.socket
      ensures var (link, threw) := Perform(old(LinkOf(tcpConnection)), request);
        && (end == BadArgument <==> threw) && end != Escapes
        && (end != WriteFailed ==> LinkOf(tcpConnection) == link)
        && Written(end == WriteFailed, old(LinkOf(tcpConnection)).wire, LinkOf(tcpConnection).wire, link.wire)
      ensures tcpConnection.socket.failures == old(tcpConnection.socket.failures) + Once(end == WriteFailed)
    {
      hide Encode;
      var length;
      match request
      case SendBinary(b) => end, length := SendBytes(b);
      case SendText(t) => end, length := SendString(t);
      case CloseConnection => end := Close();
    }
  }

  lemma {:induction false} WireGrows(link: Link, requests: seq<Request>)
    ensures link.wire <= PerformAll(link, requests).0.wire
    decreases |requests|
  {
    hide Encode;
    if requests != [] {
      var (l, threw) := Perform(link, requests[0]);
      assert link.wire <= l.wire;
      if !threw { WireGrows(l, requests[1..]); }
    }
  }

  lemma {:induction false} DispatchGrows(h: Handler, s: Session)
    ensures s.link.wire <= Dispatch(h, s).link.wire
  {
    hide Encode;
    hide CString;
    var data, text := s.calls + [OnData(s.inBuf)], s.calls + [OnText(CString(s.inBuf + [0]))];
    WireGrows(s.link, h(data).requests);
    WireGrows(s.link, h(text).requests);
    hide PerformAll;
  }

  lemma {:induction false} ReceiveGrows(h: Handler, s: Session, chunk: seq<Byte>)
    requires Acceptable(chunk)
    ensures s.link.wire <= Receive(h, s, chunk).link.wire
  {
    hide Dispatch;
    hide Read;
    hide AfterDecode;
    if |chunk| >= 2 {
      var inc := Read(chunk).value;
      var opcode := if s.inBuf == [] then inc.frame.opcode else s.opcode;
      DispatchGrows(h, s.(opcode := opcode, inBuf := AfterDecode(s.inBuf, inc)));
    }
  }

  lemma {:induction false} RunGrows(h: Handler, s: Session, chunks: seq<seq<Byte>>)
    requires AllAcceptable(chunks)
    ensures s.link.wire <= Run(h, s, chunks).link.wire
    decreases |chunks|
  {
    hide Receive;
    hide Acceptable;
    if chunks != [] && !s.link.closed && !s.escaped {
      ReceiveGrows(h, s, chunks[0]);
      RunGrows(h, Receive(h, s, chunks[0]), chunks[1..]);
    }
  }

  class HttpWsState {
    const connection: WsConnection
    const handler: Handler
    const inBuf: ByteBuffer
    var opcode: nat
    var calls: seq<Callback>

    constructor (tcpConnection: Connection, handler: Handler)
      ensures fresh(connection) && fresh(inBuf) && connection.tcpConnection == tcpConnection
      ensures this.handler == handler
      ensures View(false) == Session(0, [], LinkOf(tcpConnection), [], false)
    {
      connection := new WsConnection(tcpConnection);
      this.handler := handler;
      inBuf := new ByteBuffer(0);
      opcode := 0;
      calls := [];
    }

    ghost function View(escaped: bool): Session
      reads this, inBuf, connection, connection.tcpConnection, connection.tcpConnection.socket
    {
      Session(opcode, inBuf.bytes, LinkOf(connection.tcpConnection), calls, escaped)
    }

    /** The handler's requests, one after the other. */
    method Perform(requests: seq<Request>) returns (end: CallEnd)
      modifies connection.tcpConnection, connection.tcpConnection.socket
      ensures var (link, threw) := PerformAll(old(LinkOf(connection.tcpConnection)), requests);
        && (end == BadArgument <==> threw && end != WriteFailed) && end != Escapes
        && (end != WriteFailed ==> LinkOf(connection.tcpConnection) == link)
        && Written(end == WriteFailed, old(LinkOf(connection.tcpConnection)).wire,
                   LinkOf(connection.tcpConnection).wire, link.wire)
      ensures connection.tcpConnection.socket.failures ==
              old(connection.tcpConnection.socket.failures) + Once(end == WriteFailed)
    {
      hide Reassembly.Perform;
      var i := 0;
      end := Normal;
      ghost var whole := PerformAll(LinkOf(connection.tcpConnection), requests);
      assert requests[0..] == requests;
      WireGrows(LinkOf(connection.tcpConnection), requests);
      while i < |requests|
        invariant 0 <= i <= |requests| && end == Normal
        invariant PerformAll(LinkOf(connection.tcpConnection), requests[i..]) == whole
        invariant old(LinkOf(connection.tcpConnection)).wire <= LinkOf(connection.tcpConnection).wire <= whole.0.wire
        invariant connection.tcpConnection.socket.failures == old(connection.tcpConnection.socket.failures)
      {
        ghost var link := LinkOf(connection.tcpConnection);
        assert requests[i..][0] == requests[i] && requests[i..][1..] == requests[i + 1..];
        end := connection.Do(requests[i]);
        ghost var (l, threw) := Reassembly.Perform(link, requests[i]);
        if !threw { WireGrows(l, requests[i + 1..]); }
        if end != Normal {
          return;
        }
        i := i + 1;
      }
    }

    /** Runs the handler on a callback and, on a normal return, clears the buffer. */
    method Invoke(call: Callback) returns (end: CallEnd)
      modifies this, inBuf, connection.tcpConnection, connection.tcpConnection.socket
      ensures var r := Reassembly.Invoke(handler, old(View(false)), call);
        && (end != WriteFailed ==> View(end == Escapes) == r)
        && Written(end == WriteFailed, old(View(false)).link.wire, View(false).link.wire, r.link.wire)
      ensures connection.tcpConnection.socket.failures ==
              old(connection.tcpConnection.socket.failures) + Once(end == WriteFailed)
    {
      calls := calls + [call];
      var reaction := handler(calls);
      end := Perform(reaction.requests);
      if end == Normal {
        match reaction.ending
        case Returns => inBuf.Clear();
        case ThrowsInvalidArgument => end := BadArgument;
        case ThrowsOther => end := Escapes;
      }
    }

    /** The switch of `onReceive`. */
    method Dispatch() returns (end: CallEnd)
      modifies this, inBuf, connection.tcpConnection, connection.tcpConnection.socket
      ensures var r := Reassembly.Dispatch(handler, old(View(false)));
        && (end != WriteFailed ==> View(end == Escapes) == r)
        && Written(end == WriteFailed, old(View(false)).link.wire, View(false).link.wire, r.link.wire)
      ensures connection.tcpConnection.socket.failures ==
              old(connection.tcpConnection.socket.failures) + Once(end == WriteFailed)
    {
      hide Reassembly.Invoke;
      hide Encode;
      end := Normal;
      if opcode == OPCODE_CONTINUATION {
        end := Escapes;
      } else if opcode == OPCODE_CONNECTION_CLOSE {
        end := connection.Close();
        if end == Normal { inBuf.Clear(); }
      } else if opcode == OPCODE_CONNECTION_PING {
        end := AnswerPing();
      } else if opcode == OPCODE_BINARY {
        end := Invoke(OnData(inBuf.bytes));
      } else if opcode == OPCODE_TEXT {
        inBuf.Resize(|inBuf.bytes| + 1);
        inBuf.Set(|inBuf.bytes| - 1, 0);
        assert inBuf.bytes == old(inBuf.bytes) + [0];
        end := Invoke(OnText(CString(inBuf.bytes)));
      } else {
        inBuf.Clear();
      }
    }

    /** The ping branch: what goes out is the Pong frame's payload, not the frame. */
    method AnswerPing() returns (end: CallEnd)
      modifies inBuf, connection.tcpConnection.socket
      ensures var s := old(View(false));
        var r := if |s.inBuf| > UINT16_MAX then s else s.(link := Transmit(s.link, s.inBuf), inBuf := []);
        && end != Escapes
        && (end != WriteFailed ==> View(false) == r)
        && Written(end == WriteFailed, s.link.wire, View(false).link.wire, r.link.wire)
      ensures connection.tcpConnection.socket.failures ==
              old(connection.tcpConnection.socket.failures) + Once(end == WriteFailed)
    {
      hide Encode;
      var response := CreatePong(inBuf.bytes);
      if !response.Ok? {
        return BadArgument;
      }
      AccessorsOfBuilt(Frame(true, OPCODE_CONNECTION_PONG, inBuf.bytes));
      var frame := response.value;
      var offset := frame.PayloadOffset().value;
      var payload := frame.data[offset..][..frame.PayloadLength().value];
      assert payload == inBuf.bytes;
      var n, ok := connection.tcpConnection.Send(payload);
      if !ok {
        return WriteFailed;
      }
      inBuf.Clear();
      end := Normal;
    }

    /**
     `onReceive`. `invalid_argument` is caught here; other exceptions escape. Unless a socket write fails, the new
     state is exactly what Reassembly.Receive says, however the writes were cut.
     */
    method OnReceive(chunk: seq<Byte>) returns (end: CallEnd)
      requires Acceptable(chunk)
      modifies this, inBuf, connection.tcpConnection, connection.tcpConnection.socket
      ensures var r := Receive(handler, old(View(false)), chunk);
        && end != BadArgument
        && (end != WriteFailed ==> View(end == Escapes) == r)
        && Written(end == WriteFailed, old(View(false)).link.wire, View(false).link.wire, r.link.wire)
      ensures connection.tcpConnection.socket.failures ==
              old(connection.tcpConnection.socket.failures) + Once(end == WriteFailed)
    {
      hide Reassembly.Dispatch;
      hide Read;
      hide AfterDecode;
      var start := |inBuf.bytes| == 0;
      var decoded := Decode(chunk, inBuf);
      if !decoded.Ok? {
        return Normal;
      }
      if start {
        opcode := decoded.value.0;
      }
      if !decoded.value.1 {
        return Normal;
      }
      end := Dispatch();
      if end == BadArgument {
        end := Normal;
      }
    }

    /**
     The worker's reads, until the connection is closed or an exception ends it. If a write fails, what is on the
     wire is part of what should be, from its beginning.
     */
    method Serve(chunks: seq<seq<Byte>>) returns (end: CallEnd)
      requires AllAcceptable(chunks)
      modifies this, inBuf, connection.tcpConnection, connection.tcpConnection.socket
      ensures end != BadArgument
      ensures end != WriteFailed ==> View(end == Escapes) == Run(handler, old(View(false)), chunks)
      ensures Written(end == WriteFailed, old(View(false)).link.wire, View(false).link.wire,
                      Run(handler, old(View(false)), chunks).link.wire)
      ensures connection.tcpConnection.socket.failures ==
              old(connection.tcpConnection.socket.failures) + Once(end == WriteFailed)
    {
      hide Receive;
      var i := 0;
      end := Normal;
      ghost var whole := Run(handler, View(false), chunks);
      assert chunks[0..] == chunks;
      RunGrows(handler, View(false), chunks);
      while i < |chunks| && !connection.tcpConnection.closed && end == Normal
        invariant 0 <= i <= |chunks| && end != BadArgument
        invariant end != WriteFailed ==> Run(handler, View(end == Escapes), chunks[i..]) == whole
        invariant old(View(false)).link.wire <= View(false).link.wire <= whole.link.wire
        invariant end == WriteFailed ==> View(false).link.wire != whole.link.wire
        invariant connection.tcpConnection.socket.failures ==
                  old(connection.tcpConnection.socket.failures) + Once(end == WriteFailed)
        decreases |chunks| - i
      {
        assert chunks[i..][0] == chunks[i] && chunks[i..][1..] == chunks[i + 1..];
        RunGrows(handler, Receive(handler, View(false), chunks[i]), chunks[i + 1..]);
        end := OnReceive(chunks[i]);
        i := i + 1;
      }
    }
  }
}

/** The WebSocket echo server on real sockets: cut writes, cut messages. */
module WsEchoServer {
  import opened Bytes
  import opened Rfc6455
  import opened Connections
  import opened Reassembly
  import opened WsEcho
  import opened WsState

  /**
   A session after the 101 response. However the socket cuts the writes, unless one fails the peer receives the
   client's messages, in order, with their opcodes; and no exception escapes. If a write fails, the peer has
   received a part of the same octets, from their beginning.
   */
  method ServeEcho(tcpConnection: Connection, ghost ts: seq<Transfer>, chunks: seq<seq<Byte>>) returns (end: CallEnd)
    requires !tcpConnection.closed
    requires AllEchoable(ts) && AllAcceptable(chunks) && WithoutShort(chunks) == AllChunks(ts)
    modifies tcpConnection, tcpConnection.socket
    ensures end == Normal || end == WriteFailed
    ensures Written(end == WriteFailed, old(tcpConnection.socket.wire), tcpConnection.socket.wire,
                    old(tcpConnection.socket.wire) + EncodeAll(FramesOf(ts)))
    ensures tcpConnection.socket.failures == old(tcpConnection.socket.failures) + Once(end == WriteFailed)
    ensures end == Normal ==>
              && tcpConnection.socket.wire == old(tcpConnection.socket.wire) + EncodeAll(FramesOf(ts))
              && ReadAll(tcpConnection.socket.wire[|old(tcpConnection.socket.wire)|..]) == Some(FramesOf(ts))
  {
    hide Run;
    hide ReadAll;
    hide AllChunks;
    var state := new HttpWsState(tcpConnection, Echo);
    EchoEndToEnd(state.View(false), ts, chunks);
    end := state.Serve(chunks);
  }
}
