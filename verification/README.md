# A verified model of cppsocks

cppsocks is a small C++ server stack: TCP connections served by a pool of worker threads, HTTP requests parsed
on them, and WebSocket sessions (RFC 6455) that grow out of an HTTP upgrade. This project models the code that
carries the protocol logic (frame codec, message reassembly, request parsing, the states of a connection, the worker
loop, the thread pool, and the echo, push and file examples) and proves what its callers rely on, for all inputs and
all runs: from single frames and requests up to whole connections.

## How it is organised

| file | contents |
|---|---|
| Bytes.dfy | octets, the bitwise operators on unsigned numbers, sequences up to a delimiter |
| ByteOrder.dfy | the resizable byte buffer; `hton` and `ntoh` for any width |
| Rfc6455.dfy | sections 5.2 and 5.3 of RFC 6455 on their own: serializing, reading, splitting a stream |
| Frames.dfy | `WebSocketFrame`: constructor, accessors, `decode` |
| Connections.dfy | `Socket`, `Connection::send`, what a failed write leaves on the wire; and `send` when `write` reports a retry |
| TcpEcho.dfy | the worker's read loop with the TCP echo handler |
| Reassembly.dfy | `HttpWsState::onReceive` as a function; fragmentation transparency; control frames |
| WsEcho.dfy | the echo handler; echo from end to end; what an oversized message leaves behind |
| WsState.dfy | `WsConnection` and `HttpWsState` as objects, proved against Reassembly |
| CloseFinal.dfy | what a session, and a whole connection, writes around a Close frame and around pings |
| HttpParse.dfy | `RequestInfo::parse`; print/parse round trip |
| HttpInit.dfy | `HttpInitState`: request collection; chunk independence; the handshake key |
| HttpServer.dfy | `TcpServerHandler` and `ClientWorker` on octets: one list of reads, through all states |
| HandshakeRead.dfy | the 101 response as the client reads it |
| EchoServer.dfy | a whole WebSocket connection: request, 101 response, echoed frames |
| FileServer.dfy | a whole GET connection: request, file or error page, close |
| Lifecycle.dfy | `TcpServerHandler`, its states, and `ClientWorker::run`, as traces of callbacks |
| WorkerPool.dfy | `Server::serve` and `cleanup` interleaved with worker threads |
| StaleElements.dfy | the push targets while workers run, end, are joined and destroyed |
| Broadcast.dfy | decimal output; the push example: `ElemMgr`, `pusherRunner`, handlers coming and going |
| FileResponse.dfy | `HttpFileHandler`: files and error pages, and what a client reads off them |

Code that changes state step by step is modelled by classes and loops. Each such method is tied by its
postcondition to a function of the state before, and the theorems are about those functions: `Reassembly.Receive`
for the WebSocket state, `HttpServer.RunAll` for the octets of a connection and `Lifecycle.RunWorker` for its
callbacks, `WorkerPool.Next` for the pool. Sockets may cut every write and may throw at any of them. Each counts the
writes that threw, and the methods say that the wire holds everything it should exactly if none did; otherwise it
holds a proper part, from its beginning. Code outside the model that may throw counts its exceptions too.

## What is assumed of the surroundings

* A read in the WebSocket state holds fewer than two octets or at least one complete frame: `decode` trusts the
  length it finds. The worker's buffer holds 4096 octets, so a larger frame never comes in one read: what is proved of
  longer payloads concerns messages in several frames, and handlers that send. Anything after the first frame is
  ignored by the code, and `CoalescedFrameIsLost` says so.
* `Socket::write` takes between one octet and all of them, or throws. What a retry result (-1) does to `send` is
  in `SendRetry`.
* A client sends all of its request before anything else, and the read that completes it holds nothing more.
* An HTTP request does not overrun the 4096-octet buffer, its first read has at least four octets, and its path
  fits the 1024-octet array; the code checks none of these.
* `send` calls of different threads do not overlap; the flag `_isActive` and the list of push targets are accessed
  atomically.
* A joined thread ends at some time. Exceptions are those derived from `std::exception`.
* SHA-1 and Base64 appear as an arbitrary function `digest`; handlers as arbitrary functions of their callback
  history; files as octet strings that do not change while they are read.

## Where the code does not do what one would expect

Each of these is proved. Where the expectation is met for some inputs, the lemma named is an equivalence that says for
which; for pings the answer is never.

* A fragmented message whose first fragment is empty is lost and ends the connection, because the start of a
  message is recognised by an empty buffer (`DeliveredIffWhole`).
* A control frame is handled as one exactly when the buffer is empty; otherwise it is delivered as the last fragment
  of the message in progress (`ControlFrameHandledIff`, `ControlFrameBetween`). A message whose fragments so far are
  all empty is in progress too, but the code does not know.
* A ping is answered by its bare payload, never by a Pong frame (`PingIsNotAnsweredByPong`).
* `decode` copies an unmasked payload to the start of the buffer (`UnmaskedAppendsIff`).
* A message is echoed faithfully exactly when it has at most 65535 octets and, as text, no NUL (`EchoExactIff`). A
  text with a NUL is sent cut off there. If what would be sent, a text counted up to its first NUL, has more than 65535
  octets, nothing is sent and the buffer stays full: the next message is glued to a binary one, and after a text the
  handler gets the old text again and the next message is lost (`OversizedSpoilsNext`). From then on nothing the client
  sends is answered, not even a Close (`MuteForever`).
* A write that asks for a retry makes `send` repeat an octet, or give up and report 2^64 - 1 (`ExactIffNoRetry`,
  `RetryDamage`).
* A request of exactly 4096 octets loses its last one (`SeenWholeIff`).
* The answers 403 and 404 do not end their header; only the page of a file that is found does (`HeaderEndsIffFound`).
* The push targets are connections of live handlers exactly as long as no worker is gone whose loop was left by an
  exception after `onConnect`: `onDisconnect` is skipped then, and the handler destroyed (`AllLiveIff`,
  `GoneIsListedIff`). A final frame of opcode 0 at the start of a message is enough (`FatalRead`,
  `StaleElementArises`).
* A Sec-WebSocket-Key that is not 24 characters long is hashed cut off, or with its carriage return
  (`AcceptInputIff`).

## Model

| member | source | states |
|---|---|---|
| Bytes.HeaderMasks | src/http/socks_ws_frame.cpp:31-33 | the masks 0x7f, 0x0f and 0x80 select length bits, opcode and top bit; OR-ing FIN and opcode adds them |
| Bytes.OperatorBits | src/http/socks_ws_frame.cpp:54 | exclusive or, and, or work digit by digit: each binary digit of the result is decided by the two digits at its place |
| Bytes.XorInvolutive | src/http/socks_ws_frame.cpp:54 | XOR-ing twice with the same key octet restores the octet |
| ByteOrder.Ntoh | src/tcp/socks_tcp_util.hpp:11-20 | the summing loop, with sums wrapping at the width, yields the big-endian value; no sum wraps |
| ByteOrder.Hton | src/tcp/socks_tcp_util.hpp:22-29 | the shifting loop stores exactly the big-endian octets and touches nothing else |
| ByteOrder.ReadAfterWrite | src/tcp/socks_tcp_util.hpp:11-29 | `ntoh` undoes `hton` for every width and every value it holds |
| ByteOrder.WriteAfterRead | src/tcp/socks_tcp_util.hpp:11-29 | `hton` undoes `ntoh` for every byte string |
| ByteOrder.LexicographicIsNumeric | src/tcp/socks_tcp_util.hpp:22-29 | byte-wise order of encodings is numeric order, in both directions |
| ByteOrder.BigEndianBound | src/tcp/socks_tcp_util.hpp:12-20 | n octets denote a number below 256^n, so the result fits its type |
| Rfc6455.ReadSerialized | src/http/socks_ws_frame.cpp:24-62 | in every legal shape and before any tail, a reader recovers exactly the frame sent and its extent |
| Rfc6455.ShapeRead | src/http/socks_ws_frame.cpp:24-62 | reserved bits, length form and key can be read back from their places |
| Rfc6455.EncodeIsShortest | src/http/socks_ws_frame.cpp:103-117 | no legal serialization is shorter than the constructor's |
| Rfc6455.PrefixFree | src/http/socks_ws_frame.cpp:89-122 | no constructed frame is a proper prefix of another |
| Rfc6455.ReadAllEncoded | src/http/socks_ws_handler.cpp:10-22 | a stream of constructed frames splits into exactly those frames |
| Rfc6455.UniquelyDecodable | src/http/socks_ws_handler.cpp:10-22 | frame lists with equal bytes are equal |
| Frames.Build | src/http/socks_ws_frame.cpp:89-122 | the constructor throws on opcodes above 15 and payloads above 65535, and otherwise yields the unmasked, shortest encoding |
| Frames.AccessorsOfBuilt | src/http/socks_ws_frame.hpp:40-45 | on a constructed frame `fin`, `mask`, `payloadLength` and `payload` report what went in |
| Frames.AccessorsReadHeader | src/http/socks_ws_frame.cpp:65-77 | the accessors agree with section 5.2 on every header without a 64-bit length; `payload` points right exactly when the 16-bit form is not used for fewer than 126 octets |
| Frames.CreateConnectionClose | src/http/socks_ws_frame.cpp:10-17 | the Close frame of a reason code |
| Frames.CloseFrameOctets | src/http/socks_ws_frame.cpp:10-17 | the four octets of a Close frame |
| Frames.CreatePong | src/http/socks_ws_frame.cpp:19-22 | the Pong frame of a payload, or an exception above 65535 octets |
| Frames.Decode | src/http/socks_ws_frame.cpp:24-63 | FIN, opcode and buffer after decoding are those an RFC reader finds, the buffer grown as AfterDecode says; after a masked read, octet i appended is raw octet i after the key with exactly the bits flipped that key octet i mod 4 has; fewer than two octets throw and change nothing |
| Frames.UnmaskedBits | src/http/socks_ws_frame.cpp:46-56 | the unmasking, bit by bit over the raw octets of a read |
| Frames.MaskedDecodeAppends | src/http/socks_ws_frame.cpp:46-56 | for every key, length form, buffer and tail, a masked frame's payload is appended unmasked and the old octets stay |
| Frames.UnmaskedAppendsIff | src/http/socks_ws_frame.cpp:57-60 | unmasked payloads of a length are appended, whatever they are, exactly when the buffer is empty or the length is zero |
| Frames.CodecRoundTrip | src/http/socks_ws_frame.cpp:24-122 | decoding a constructed frame into an empty buffer returns FIN, opcode and payload |
| Connections.Connection.Send | src/tcp/socks_tcp_handler.hpp:23-31 | for every cutting of the writes all octets go out once and in order, exactly unless a write throws; then a proper prefix is out; none when closed; terminates |
| SendRetry.RetryAccounting | src/tcp/socks_tcp_handler.hpp:25-30 | every retry costs one repeated octet, or wraps the counter and ends the call |
| SendRetry.ExactIffNoRetry | src/tcp/socks_tcp_handler.hpp:25-30 | a finished `send` wrote its buffer and returned its length exactly when no write reported a retry |
| SendRetry.RetryDamage | src/tcp/socks_tcp_handler.hpp:25-30 | a duplicated octet, and a lost message reported as 2^64 - 1 octets |
| TcpEcho.Serve | src/tcp/socks_tcp_worker.cpp:34-54 | for every script of reads and every cutting of writes, unless a write throws the octets echoed are exactly those read and the loop ends as the script says; if one throws the loop is left by it, and a proper prefix is out |
| TcpEcho.CuttingIsIrrelevant | examples/tcp_echo/main.cpp:26-31 | two scripts of reads with the same joined data, whatever idle rounds lie between and whatever follows, deliver the same octets to the echo |
| Reassembly.Reassemble | src/http/socks_http_states_ws.cpp:45-87 | any cut acts as its joined payload under the sticky opcode; before the final frame the buffer is the joined payloads so far |
| Reassembly.DeliveredIffWhole | src/http/socks_http_states_ws.cpp:45-93 | a cut message is delivered, once, with its own opcode, exactly when it is one piece or its first piece is not empty; otherwise an exception escapes and no callback is made |
| Reassembly.CutsAreEquivalent | src/http/socks_http_states_ws.cpp:45-93 | two such cuts of a message leave handler, peer and state in the same condition |
| Reassembly.StreamTransparency | src/http/socks_http_states_ws.cpp:45-93 | for every handler, whatever it throws or closes, a stream of cut messages with short reads anywhere does exactly what the bare messages do: callbacks, octets sent, end state |
| Reassembly.TameClears | src/http/socks_http_states_ws.cpp:76-87 | a handler that never raises `invalid_argument` leaves the buffer empty after every message, unless an exception escapes |
| Reassembly.TameKeepsApart | src/http/socks_http_states_ws.cpp:76-92 | under such a handler nothing is carried over from one message to the next, in any stream |
| Reassembly.ShortReadsIgnored | src/http/socks_http_states_ws.cpp:47-93 | reads of fewer than two octets inserted anywhere change nothing |
| Reassembly.CoalescedFrameIsLost | src/http/socks_http_states_ws.cpp:51 | a second frame in one read has no effect |
| Reassembly.ControlFrameHandledIff | src/http/socks_http_states_ws.cpp:50-87 | a control or reserved frame makes no callback exactly when the buffer is empty; otherwise it is delivered as the last fragment of the message in progress |
| Reassembly.ControlFrameBetween | src/http/socks_http_states_ws.cpp:62-87 | with an empty buffer a close answers and closes, a ping sends its payload, other control frames and reserved ones do nothing; no callback, buffer empty |
| Reassembly.PingIsNotAnsweredByPong | src/http/socks_http_states_ws.cpp:70-75 | the answer to a ping is its payload, which is never the Pong frame |
| Reassembly.DispatchCalls | src/http/socks_http_states_ws.cpp:62-86 | a data opcode makes exactly one callback, a continuation opcode lets an exception escape |
| Reassembly.PerformInOrder | src/http/socks_ws_handler.cpp:10-29 | requests of a handler take effect in their order, and none after one that throws |
| Reassembly.FramesInOrder | src/http/socks_ws_handler.cpp:10-29 | any number of sends put exactly their frames on the wire, in order, and a close a Close frame after them |
| WsState.HttpWsState.OnReceive | src/http/socks_http_states_ws.cpp:45-93 | the object's new state is Reassembly.Receive of the old one, unless a write fails; exactly then the wire is short of its own |
| WsState.HttpWsState.Dispatch | src/http/socks_http_states_ws.cpp:62-87 | the switch, with its exceptions, against Reassembly.Dispatch |
| WsState.HttpWsState.AnswerPing | src/http/socks_http_states_ws.cpp:70-75 | the octets sent are the payload of the Pong frame, computed by the accessors |
| WsState.HttpWsState.Serve | src/tcp/socks_tcp_worker.cpp:38-53 | read after read until closed or thrown out, against Reassembly.Run; if a write fails, a proper prefix of the full output is on the wire |
| WsState.WsConnection.SendBytes | src/http/socks_ws_handler.cpp:10-15 | one binary frame on the wire and the payload length returned, or `invalid_argument` and nothing |
| WsState.WsConnection.SendString | src/http/socks_ws_handler.cpp:17-22 | one text frame with the string up to its NUL, whose length is returned, or `invalid_argument` and nothing |
| WsState.WsConnection.Close | src/http/socks_ws_handler.cpp:24-29 | a Close frame, then the closed flag |
| WsEcho.EchoExactIff | examples/ws_echo/main.cpp:27-28 | a delivered message is echoed faithfully exactly when it has at most 65535 octets and, as text, no NUL |
| WsEcho.OversizedSpoilsNext | src/http/socks_http_states_ws.cpp:76-92 | after an oversized message nothing is sent and the buffer stays; a next message of either kind, however cut, is glued to a binary one, and is lost after a text, which is delivered again |
| WsEcho.MuteForever | src/http/socks_http_states_ws.cpp:45-93 | with such a buffer no masked frames whatever, in any number, change the connection: no octet, no close |
| WsEcho.EchoEndToEnd | examples/ws_echo/main.cpp:22-30 | for all messages, cuts, keys, reserved bits, length forms and short reads, the octets written split by RFC 6455 into exactly the messages sent |
| WsEchoServer.ServeEcho | examples/ws_echo/main.cpp:22-30 | the same for the objects and every cutting of the writes; no exception escapes; if a write fails, a proper prefix of the same octets is on the wire |
| EchoServer.ConnectionEchoes | examples/ws_echo/main.cpp:22-30 | one list of reads, a request cut anyhow and then messages cut anyhow, leads to the 101 response and exactly the client's messages on the wire, the session ready for more |
| EchoServer.ServeConnection | src/tcp/socks_tcp_worker.cpp:18-54 | the same for the objects, through the worker loop and the switch of states, for every cutting of the writes: a client with a key of 24 characters reads a 101 response with the digest of its key and the GUID, and after it a reader splits the wire into the client's messages; exactly if a write throws, a proper prefix is out; the callbacks form a safe trace |
| RequestRuns.CollectRun | src/http/socks_http_states.cpp:15-43 | however a request whose terminator is only at its end is cut, the connection comes to the state a single read would have led to |
| RequestRuns.RequestAnswered | src/http/socks_http_states.cpp:15-43 | for every printed request that fits: the state entered, GET or WebSocket, has the path and the first header values the client printed |
| RequestRuns.MalformedEnds | src/http/socks_http_states.cpp:15-50 | a request without GET or without two spaces ends the connection, however it is cut, with nothing sent |
| HttpServer.TcpServerHandler.DoGetOfHandler | src/http/socks_http_handler.hpp:68-73 | the file handler, or any other handler given by its sends and whether it throws: all its sends go out in order, or a write failed and a proper prefix is out |
| HttpServer.TcpServerHandler.EnterGet | src/http/socks_http_states.cpp:52-58 | `do_GET` of the handler, then a close; if it throws, the GET state is not entered |
| HttpServer.TcpServerHandler.EnterWs | src/http/socks_http_states_ws.cpp:28-43 | the 101 response, then `onConnect`, which may send, close and throw |
| HttpServer.TcpServerHandler.SetNextState | src/http/socks_http.cpp:33-37 | the request decides the state; it becomes the next one only if its `onEnter` returned, otherwise the connection is closed |
| HttpServer.TcpServerHandler.ReceiveInit | src/http/socks_http_states.cpp:15-50 | collecting, parsing, entering, and the close after a malformed request or a failed entry |
| HttpServer.TcpServerHandler.ReceiveWs | src/http/socks_http_states_ws.cpp:45-93 | the session of Reassembly, with the close of the handler seen in the trace |
| HttpServer.TcpServerHandler.OnReceive | src/http/socks_http.cpp:45-53 | the current state sees the read, then the next state takes over: the new state is `Step` of the old one, and to Lifecycle the read is what `Observed` says, a function of the octets |
| HttpServer.ClientWorker.Loop | src/tcp/socks_tcp_worker.cpp:34-54 | for every script of reads, round by round: the end state is `RunAll` of the octets read and the rounds are `LifeOf` the script, or a write failed and a proper prefix of the output is on the wire; the loop stops before the end of the script only when closed, at end of file or by an exception |
| HttpServer.ClientWorker.Run | src/tcp/socks_tcp_worker.cpp:18-32 | whatever throws, `onDisconnect` and the socket's close included, the worker ends inactive, the socket closed here exactly if nothing threw; the callbacks are the run of Lifecycle on those rounds, hence a safe trace |
| HttpServer.ServeClient | src/tcp/socks_tcp_worker.cpp:18-54 | from accept on: wire and callbacks are functions of the script of reads, unless a write fails |
| FileServer.FileAnswered | src/http/socks_http_states.cpp:15-58 | a plain request, however cut and whatever follows it, ends the connection with the page of its path on the wire |
| FileServer.CustomAnswered | src/http/socks_http_states.cpp:52-58 | any other handler: its sends go out in order and the connection ends; the GET state is entered exactly if it does not throw |
| FileServer.ServeFile | src/http/socks_http_handler.cpp:131-164 | for a path that names a file (one slash in front dropped, index.html for none): with ".." in the name a client reads the 403 line, for a missing file the 404 line, and no end of a header; otherwise the 200 line, exactly the file, and its size; exactly if a write throws, a proper prefix is out |
| CloseFinal.CloseIsLast | src/http/socks_ws_handler.cpp:24-29 | in every run under every handler the octets sent are whole frames and bare payloads; the bare payloads are, in order, the buffers of exactly the pings that came; a Close frame is the last item of all, and there exactly when the connection was closed |
| CloseFinal.NoPingsAnswered | src/http/socks_http_states_ws.cpp:70-75 | if no ping frame comes, there are no bare payloads |
| CloseFinal.PeerReadsCloseLast | src/http/socks_ws_handler.cpp:24-29 | when no ping is answered a reader splits these octets into frames and finds a Close frame only last, exactly when the connection was closed |
| ConnectionClose.ConnectionCloseIsLast | src/http/socks_http_states_ws.cpp:28-43 | the same from accept on, after the 101 response, `onConnect` included: what it sends comes first, and it may close or throw |
| ConnectionClose.ConnectionReadsCloseLast | src/http/socks_http_states_ws.cpp:28-93 | off a whole connection that answers no ping a peer reads the 101 response and then frames, a Close only last, exactly when closed |
| CloseFinal.ClosedIsInert | src/tcp/socks_tcp_handler.hpp:26 | a closed connection accepts nothing |
| CloseFinal.NothingAfterClose | src/tcp/socks_tcp_worker.cpp:38 | once closed, further reads change nothing: no callback, no octet |
| Text.FindIsFirst | src/http/socks_http_handler.cpp:33 | `find` reports an occurrence, the first one, whenever there is one |
| HttpParse.TargetSpec | src/http/socks_http_handler.cpp:64-93 | which texts are rejected and why, told from the text, and that the path lies between the first two spaces, up to a question mark |
| HttpParse.RequestInfo.Parse | src/http/socks_http_handler.cpp:64-101 | path, headers and type against the text, and each of the four rejections; the type is GET_WS exactly if the fields contain what isWsRequest looks for |
| HttpParse.ParseHeaders | src/http/socks_http_handler.cpp:21-43 | the line loop, against the recursive reading of lines |
| HttpParse.HeadersEnd | src/http/socks_http_handler.cpp:34-37 | the first line without ": " ends the headers, whatever follows |
| HttpParse.CopyPath | src/http/socks_http_handler.cpp:88-93 | the copy loop takes the text up to the first question mark |
| HttpParse.FirstValuesSpec | src/http/socks_http_handler.cpp:41 | the map holds exactly the keys given, each with its first value |
| HttpParse.PrintParseRoundTrip | src/http/socks_http_handler.cpp:21-101 | a printed request is read back: path without query, first values with their carriage return |
| HttpParse.AsksUpgradeIff | src/http/socks_http_handler.cpp:45-62 | a printed request is a WebSocket request exactly if its first "Upgrade" contains "websocket", its first "Connection" contains "Upgrade" or "upgrade", and it has a "Sec-WebSocket-Key" |
| HttpParse.ParsePrinted | src/http/socks_http_handler.cpp:57-101 | the same for a fresh parser object: path, first values, and the type told from the printed headers |
| HttpInit.HttpInitState.OnReceive | src/http/socks_http_states.cpp:20-30 | the buffer is the received prefix followed by zeros; the parser runs exactly when the text is complete, on what the C string shows |
| HttpInit.ChunkIndependentIff | src/http/socks_http_states.cpp:21-30 | every split of a request has the outcome of a single read exactly when its terminator ends no shorter prefix |
| HttpInit.HttpInitState.Feed | src/http/socks_http_states.cpp:15-30 | the object fed with any such split parses once, after the last read, the whole text |
| HttpInit.SeenWholeIff | src/http/socks_http_states.cpp:28 | a request is seen whole exactly when it leaves room for the NUL |
| HttpInit.FullBufferParsed | src/http/socks_http_states.cpp:21-30 | a full buffer is parsed, without its last octet, whether or not the request is over |
| HttpInit.BufferAsCString | src/http/socks_http_states.cpp:28-30 | read as a C string the zero-filled buffer is the received text |
| PrintedRequests.PrintedIsSplittable | src/http/socks_http_states.cpp:17-27 | in every printed request the terminator occurs only at the end |
| PrintedRequests.PrintedChunkIndependent | src/http/socks_http_states.cpp:15-30 | every printed request that fits is parsed once and whole, however it is cut |
| Handshake.AcceptInputIff | src/http/socks_http_states_ws.cpp:18-26 | the hashed text is key and GUID exactly for 24-character keys |
| Handshake.HandshakeAgreesIff | src/http/socks_http_states_ws.cpp:39-40 | the same from the printed request through the parser; the first key header decides |
| HandshakeRead.ResponseSwitches | src/http/socks_http_states_ws.cpp:28-42 | for every digest and subprotocol without line feeds a client reads off the 101 response the 101 line, the three fixed fields, the subprotocol exactly if there is one, the accept value, and nothing after the empty line |
| HandshakeRead.HandshakeCompletes | src/http/socks_http_states_ws.cpp:18-42 | from a printed request with a 24-character key to the octets: the client reads the digest of its own key and the GUID |
| Lifecycle.LifecycleSafe | src/tcp/socks_tcp_worker.cpp:18-54 | in every run: one state entered at most, entry before reads, no read after close, GET implies closed, `onDisconnect` after `onConnect` and exactly once unless an exception escaped |
| Lifecycle.AtMostOnce | src/http/socks_http.cpp:33-53 | no entry, connect, close or disconnect event occurs twice in a trace |
| WorkerPool.PoolSafe | src/tcp/socks_tcp.cpp:21-55 | in every state of every interleaving: list within the limit, nobody joined twice, off the list only once joined and listed only unjoined until the final loop, accepted = admitted + refused, admitted = listed + gone, and each refusal saw exactly `maxClients` active workers |
| WorkerPool.AllJoinedOnce | src/tcp/socks_tcp.cpp:42 | when `serve` has returned, every started thread is over and was joined exactly once |
| WorkerPool.Server.Cleanup | src/tcp/socks_tcp.cpp:45-55 | the pass over the list, with workers ending in between, is a sequence of machine steps; whoever is still listed was active when it began, everybody who was not has been joined and dropped, and the others keep their order |
| WorkerPool.Server.AdmitOrRefuse | src/tcp/socks_tcp.cpp:34-40 | a worker is started exactly below the limit; a refusal records `maxClients` observed workers and puts a non-empty part of the goodbye on the client's wire; an exception leaves exactly if the factory, or the goodbye, throws |
| WorkerPool.Server.Serve | src/tcp/socks_tcp.cpp:21-43 | for every sequence of polls and every interleaving `serve` is a run of the machine; exactly unless `accept`, the factory or a goodbye throws it returns, every client polled was accepted, each was started as a worker or refused, and every worker is joined once |
| Decimal.ValueOfDigits | examples/ws_push/pusher.cpp:10 | printed numbers read back as themselves |
| Decimal.DenotesIff | examples/ws_push/pusher.cpp:10 | what is printed is the one decimal numeral, without leading zeros, that denotes the number |
| Broadcast.LineInjective | examples/ws_push/pusher.cpp:8-11 | different counter values print different lines |
| Broadcast.LineSays | examples/ws_push/pusher.cpp:8-11 | a line is the numeral of its counter and a line feed |
| Broadcast.ContiguousTicks | examples/ws_push/manager.hpp:15-31 | for every interleaving the text frames a peer reads say, as decimal numerals, consecutive numbers from its connection on, up to the latest while it stays listed and open |
| Broadcast.FirstIsPushesBefore | examples/ws_push/pusher.cpp:3-14 | the first of these numbers is the number of pushes before the peer connected |
| Broadcast.ElemMgr.Push | examples/ws_push/manager.hpp:27-31 | in whatever order the set is visited, every element gets the text once and nobody else does, exactly unless a send throws; then no wire is past where it should be |
| Broadcast.ElemMgr.OnConnect | examples/ws_push/handler.cpp:3-7 | the new connection is listed: the machine's Connect step |
| Broadcast.ElemMgr.OnDisconnect | examples/ws_push/handler.cpp:8-12 | the connection is no longer listed: the machine's Disconnect step |
| Broadcast.ElemMgr.OnData | examples/ws_push/handler.cpp:13 | the data goes back to its own connection as a binary frame, and to no other |
| Broadcast.PusherRunner | examples/ws_push/pusher.cpp:3-14 | with connects, disconnects, closes and echoes of any number between the rounds, one push per counter value from zero on, and every peer reads consecutive values |
| StaleElements.GoneIsListedIff | examples/ws_push/handler.cpp:3-12 | in every state of every run of pool and workers, the connection of a joined and destroyed worker is a push target exactly if its `onConnect` returned and an exception escaped its loop |
| StaleElements.AllLiveIff | src/tcp/socks_tcp_worker.cpp:18-32 | all push targets belong to live handlers exactly as long as no such worker is gone |
| StaleElements.FatalRead | src/http/socks_http_states_ws.cpp:62-66 | a final frame of opcode 0 on an empty buffer lets an exception escape, under every application |
| StaleElements.StaleElementArises | src/tcp/socks_tcp.cpp:45-55 | a run in which the worker of such a client is destroyed and its connection stays a push target |
| FileResponse.LookupSpec | src/http/socks_http_handler.cpp:133-155 | which answer a path gets, told from the name of the file: ".." in it, missing, or found |
| FileResponse.DoGet | src/http/socks_http_handler.cpp:131-164 | that page goes out, in however many sends; exactly if a write throws, a proper prefix |
| FileResponse.ClientReadsFile | src/http/socks_http_handler.cpp:105-122 | off the octets of a file's page a client reads the 200 line, a body that is the file, and a Content-Length that is the number of its octets |
| FileResponse.HeaderEndsIffFound | src/http/socks_http_handler.cpp:114-122 | a page has an end of header exactly when the file is found |
| FileResponse.SendFile | src/http/socks_http_handler.cpp:157-163 | the 4096-octet loop ends and writes each octet once, in order |
| FileResponse.ResponseFraming | src/http/socks_http_handler.cpp:105-122 | as text: header fields and body are read back, the printed length with its value |

## Left out

- The system context (POSIX sockets, poll, signals): reads, writes and polls are arbitrary outcomes, quitting is the end of a script.
- SHA-1, Base64 and logging.
- Connections that a handler closes through the TCP connection behind the WebSocket connection's back.
- What happens to a socket that `run` did not close because of an exception.
- `basePath`: the constructor of the file handler stores it and the code never reads it, so it is no part of FileResponse.Lookup.
- Overlapping `send` calls of several threads on one connection.
- `WsHandlerNullFactory`, whose one handler stays bound to the first connection.
- WorkerPool.Server.Serve: workers are threads with a flag, and what they do to their sockets meanwhile is not modelled.
- Broadcast.ElemMgr.Push: connections are numbered values held by the manager, not shared objects, so aliasing between a handler and the manager is not captured.
- StaleElements.AllLiveIff: what a push does with a connection whose handler is gone; such an access is undefined in the code.
- Broadcast.PusherRunner: fewer than 2^64 actions; a throwing send ends the program, as it does in the code, and nothing is said about the time after it. The sockets of the example are one object that may throw.
- HttpParse.RequestInfo.Parse: the path array is a text of at most 1023 characters; its stale contents after the NUL are not modelled.
- FileResponse.DoGet: files are a map from names to octets, so directories and failing reads are not modelled.
