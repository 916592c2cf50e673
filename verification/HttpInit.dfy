/** `HttpInitState`: collecting a request from TCP reads, and handing it to the parser. */
module HttpInit {
  import opened Delimited
  import opened Text
  import opened HttpParse

  const BUF_SIZE := 4096
  const TERMINATOR := "\r\n\r\n"

  predicate EndsRequest(s: string)
  {
    |s| >= 4 && s[|s| - 4..] == TERMINATOR
  }

  /** When the collected text is handed to the parser: buffer full, or terminator at the very end. */
  predicate Complete(s: string)
  {
    |s| >= BUF_SIZE || EndsRequest(s)
  }

  /** What the parser sees of a collected text: a C string, whose last octet is lost if the buffer is full. */
  function Seen(s: string): string
  {
    UpTo(if |s| >= BUF_SIZE then s[..BUF_SIZE - 1] else s, '\0')
  }

  /** After some reads: still collecting, or parsed a text of a collected length with reads left over. */
  datatype Collected = Waiting(received: string) | Parsed(text: string, len: nat, left: seq<string>)

  function Collect(received: string, chunks: seq<string>): Collected
    decreases |chunks|
  {
    if chunks == [] then Waiting(received)
    else
      var all := received + chunks[0];
      if Complete(all) then Parsed(Seen(all), |all|, chunks[1..]) else Collect(all, chunks[1..])
  }

  function Flatten(chunks: seq<string>): string
  {
    if chunks == [] then "" else chunks[0] + Flatten(chunks[1..])
  }

  /** A split into reads: none is empty, and the first covers the four octets the terminator test looks at. */
  predicate IsSplit(s: string, chunks: seq<string>)
  {
    Flatten(chunks) == s && chunks != [] && |chunks[0]| >= 4 && forall i :: 0 <= i < |chunks| ==> chunks[i] != ""
  }

  /** The terminator does not end any shorter piece of the text that a read could complete. */
  ghost predicate TerminatorOnlyAtEnd(s: string)
  {
    forall k :: 4 <= k < |s| ==> !EndsRequest(s[..k])
  }

  lemma {:induction false} CollectToEnd(received: string, chunks: seq<string>, s: string)
    requires Complete(s) && |s| <= BUF_SIZE && TerminatorOnlyAtEnd(s)
    requires received + Flatten(chunks) == s && chunks != [] && |received + chunks[0]| >= 4
    requires forall i :: 0 <= i < |chunks| ==> chunks[i] != ""
    ensures Collect(received, chunks) == Parsed(Seen(s), |s|, [])
    decreases |chunks|
  {
    NextRead(received, chunks, s);
    hide Complete;
    hide TerminatorOnlyAtEnd;
    hide Flatten;
    if |chunks| == 1 {
      assert chunks[1..] == [];
    } else {
      assert chunks[1..][0] == chunks[1];
      CollectToEnd(received + chunks[0], chunks[1..], s);
    }
  }

  /** One read of a split: the last one completes the text, any other leaves it incomplete. */
  lemma {:induction false} NextRead(received: string, chunks: seq<string>, s: string)
    requires Complete(s) && |s| <= BUF_SIZE && TerminatorOnlyAtEnd(s)
    requires received + Flatten(chunks) == s && chunks != [] && |received + chunks[0]| >= 4
    requires forall i :: 0 <= i < |chunks| ==> chunks[i] != ""
    ensures var all := received + chunks[0];
      && |all| <= |s| && (|chunks| == 1 ==> all == s)
      && (|chunks| > 1 ==> !Complete(all) && all + Flatten(chunks[1..]) == s && |all + chunks[1]| >= 4)
  {
    var all := received + chunks[0];
    assert all + Flatten(chunks[1..]) == s;
    if |chunks| == 1 {
      assert chunks[1..] == [];
    } else {
      assert chunks[1..][0] == chunks[1];
      assert |Flatten(chunks[1..])| > 0;
      assert all == s[..|all|];
    }
  }

  lemma {:induction false} EverySplitAgrees(s: string, chunks: seq<string>)
    requires 4 <= |s| <= BUF_SIZE && Complete(s) && TerminatorOnlyAtEnd(s) && IsSplit(s, chunks)
    ensures Collect("", chunks) == Parsed(Seen(s), |s|, [])
  {
    hide Collect;
    hide Complete;
    hide Seen;
    assert "" + Flatten(chunks) == s && |"" + chunks[0]| >= 4;
    hide TerminatorOnlyAtEnd;
    CollectToEnd("", chunks, s);
  }

  /** The split that goes wrong when the terminator ends a shorter prefix: the rest is left over. */
  lemma {:induction false} CollectEarly(s: string, k: nat)
    requires 4 <= k < |s| <= BUF_SIZE && EndsRequest(s[..k])
    ensures IsSplit(s, [s[..k], s[k..]]) && Collect("", [s[..k], s[k..]]) == Parsed(Seen(s[..k]), k, [s[k..]])
  {
    hide Seen;
    var head, tail := s[..k], s[k..];
    var chunks := [head, tail];
    hide EndsRequest;
    assert chunks[1..] == [tail] && [tail][1..] == [];
    assert Flatten([]) == "";
    assert Flatten([tail]) == tail;
    assert Flatten(chunks) == head + tail == s;
    assert "" + chunks[0] == head;
    assert Complete(head);
  }

  /**
   Chunk independence. A request is parsed exactly once, whole, after its last read, however TCP cuts it, exactly
   when the terminator ends none of its shorter prefixes.
   */
  lemma {:induction false} ChunkIndependentIff(s: string)
    requires 4 <= |s| <= BUF_SIZE && Complete(s)
    ensures (forall chunks :: IsSplit(s, chunks) ==> Collect("", chunks) == Parsed(Seen(s), |s|, []))
            <==> TerminatorOnlyAtEnd(s)
  {
    hide IsSplit;
    hide Collect;
    hide Complete;
    hide Seen;
    hide EndsRequest;
    if TerminatorOnlyAtEnd(s) {
      hide TerminatorOnlyAtEnd;
      forall chunks | IsSplit(s, chunks)
        ensures Collect("", chunks) == Parsed(Seen(s), |s|, [])
      {
        EverySplitAgrees(s, chunks);
      }
    } else {
      var k :| 4 <= k < |s| && EndsRequest(s[..k]);
      CollectEarly(s, k);
      var bad := [s[..k], s[k..]];
      assert IsSplit(s, bad) && Collect("", bad) != Parsed(Seen(s), |s|, []);
    }
  }

  /** The parser sees a NUL-free request whole exactly when it leaves room for the terminating NUL. */
  lemma {:induction false} SeenWholeIff(s: string)
    requires '\0' !in s && |s| <= BUF_SIZE
    ensures Seen(s) == s <==> |s| < BUF_SIZE
  {
    if |s| == BUF_SIZE { assert |Seen(s)| < |s|; }
  }

  /** A full buffer is parsed without its last octet, whether or not the request is over. */
  lemma {:induction false} FullBufferParsed(s: string, chunks: seq<string>)
    requires |s| == BUF_SIZE && '\0' !in s && TerminatorOnlyAtEnd(s) && IsSplit(s, chunks)
    ensures Collect("", chunks) == Parsed(s[..BUF_SIZE - 1], BUF_SIZE, [])
  {
    hide Collect;
    hide IsSplit;
    hide UpTo;
    hide EndsRequest;
    hide TerminatorOnlyAtEnd;
    assert '\0' !in s[..BUF_SIZE - 1];
    EverySplitAgrees(s, chunks);
  }

  datatype Outcome = NeedMore | Handed(result: Target)

  class HttpInitState {
    const recvBuf: array<char>
    const requestInfo: RequestInfo
    var numRecv: nat

    constructor (requestInfo: RequestInfo)
      ensures this.requestInfo == requestInfo && fresh(recvBuf) && Valid() && Received() == ""
    {
      recvBuf := new char[BUF_SIZE](_ => '\0');
      this.requestInfo := requestInfo;
      numRecv := 0;
    }

    /** The buffer holds what was received, then only zeros. */
    ghost predicate Valid()
      reads this, recvBuf
    {
      recvBuf.Length == BUF_SIZE && numRecv <= BUF_SIZE
      && forall i :: numRecv <= i < BUF_SIZE ==> recvBuf[i] == '\0'
    }

    ghost function Received(): string
      reads this, recvBuf
      requires Valid()
    {
      recvBuf[..numRecv]
    }

    /** `memcpy(recvBuf.data() + numRecv, buf, len)`. */
    method Append(chunk: string)
      requires Valid() && numRecv + |chunk| <= BUF_SIZE
      modifies this, recvBuf
      ensures Valid() && Received() == old(Received()) + chunk
    {
      forall i | 0 <= i < |chunk| { recvBuf[numRecv + i] := chunk[i]; }
      numRecv := numRecv + |chunk|;
    }

    /**
     `onReceive`, up to the state change. The caller must not overrun the buffer, nor let the terminator test look
     before its start, nor send a path longer than the parser's array.
     */
    method OnReceive(chunk: string) returns (outcome: Outcome)
      requires Valid() && 4 <= numRecv + |chunk| <= BUF_SIZE
      requires Complete(Received() + chunk) ==> PathFits(Seen(Received() + chunk), numRecv + |chunk|)
      modifies this, recvBuf, requestInfo
      ensures Valid()
      ensures var all := old(Received()) + chunk;
        if !Complete(all) then
          && outcome == NeedMore && Received() == all
          && requestInfo.headers == old(requestInfo.headers) && requestInfo.path == old(requestInfo.path)
        else
          && outcome == Handed(TargetOf(Seen(all), |all|))
          && (outcome.result.Target? ==>
                && requestInfo.path == outcome.result.path
                && requestInfo.headers == HeaderLines(AfterLine(Seen(all)), old(requestInfo.headers))
                && requestInfo.requestType == if IsWsRequest(requestInfo.headers) then GET_WS else GET)
    {
      hide HeaderLines;
      hide HasField;
      hide TargetOf;
      hide UpTo;
      hide Complete;
      hide Seen;
      Append(chunk);
      var complete := SeesEnd();
      if !complete {
        return NeedMore;
      }
      var text := Terminated();
      var result := requestInfo.Parse(text, numRecv);
      outcome := Handed(result);
    }

    /** The `memcmp` against the terminator, unless the buffer is full. */
    method SeesEnd() returns (complete: bool)
      requires Valid() && 4 <= numRecv
      ensures complete == Complete(Received())
    {
      assert recvBuf[numRecv - 4..numRecv] == Received()[numRecv - 4..];
      complete := numRecv == BUF_SIZE || recvBuf[numRecv - 4..numRecv] == TERMINATOR;
    }

    /** The buffer as the parser sees it, once its last octet is zero. */
    method Terminated() returns (text: string)
      requires Valid()
      modifies recvBuf
      ensures Valid() && text == Seen(old(Received())) && '\0' !in text
    {
      hide UpTo;
      ghost var all := Received();
      recvBuf[BUF_SIZE - 1] := '\0';
      BufferAsCString(recvBuf[..], all);
      text := UpTo(recvBuf[..], '\0');
    }

    /**
     The reads of one request. If its terminator is only at the end, any split has the outcome of a single read:
     the parser runs once, after the last one, on the whole text.
     */
    method Feed(chunks: seq<string>, ghost s: string) returns (result: Target)
      requires Valid() && Received() == "" && IsSplit(s, chunks)
      requires 4 <= |s| <= BUF_SIZE && Complete(s) && TerminatorOnlyAtEnd(s) && PathFits(Seen(s), |s|)
      modifies this, recvBuf, requestInfo
      ensures result == TargetOf(Seen(s), |s|)
      ensures result.Target? ==>
                && requestInfo.path == result.path
                && requestInfo.headers == HeaderLines(AfterLine(Seen(s)), old(requestInfo.headers))
                && requestInfo.requestType == if IsWsRequest(requestInfo.headers) then GET_WS else GET
    {
      hide HeaderLines;
      hide TargetOf;
      hide Seen;
      hide Complete;
      hide Flatten;
      hide TerminatorOnlyAtEnd;
      var i := 0;
      var outcome := NeedMore;
      assert chunks[0..] == chunks;
      while i < |chunks|
        invariant 0 <= i <= |chunks| && Valid()
        invariant i < |chunks| ==> Received() + Flatten(chunks[i..]) == s && |Received() + chunks[i]| >= 4
        invariant i < |chunks| ==> outcome == NeedMore && requestInfo.headers == old(requestInfo.headers)
        invariant i == |chunks| ==> outcome == Handed(TargetOf(Seen(s), |s|))
        invariant i == |chunks| && outcome.result.Target? ==>
          && requestInfo.path == outcome.result.path
          && requestInfo.headers == HeaderLines(AfterLine(Seen(s)), old(requestInfo.headers))
          && requestInfo.requestType == if IsWsRequest(requestInfo.headers) then GET_WS else GET
      {
        assert chunks[i..][0] == chunks[i] && chunks[i..][1..] == chunks[i + 1..];
        assert i + 1 < |chunks| ==> chunks[i..][1] == chunks[i + 1];
        NextRead(Received(), chunks[i..], s);
        outcome := OnReceive(chunks[i]);
        i := i + 1;
      }
      result := outcome.result;
    }
  }

  /** Read as a C string, the buffer is the received text up to its first NUL. */
  lemma {:induction false} BufferAsCString(buf: string, all: string)
    requires |buf| == BUF_SIZE && |all| <= BUF_SIZE && buf[BUF_SIZE - 1] == '\0'
    requires forall i :: 0 <= i < BUF_SIZE - 1 ==> buf[i] == if i < |all| then all[i] else '\0'
    ensures UpTo(buf, '\0') == Seen(all)
  {
    hide UpTo;
    var kept := if |all| >= BUF_SIZE then all[..BUF_SIZE - 1] else all;
    var text := UpTo(kept, '\0');
    assert buf[..|text|] == text;
    assert buf[|text|] == '\0' by {
      if |text| < |kept| { assert kept[|text|] == '\0'; }
    }
    assert buf == text + ['\0'] + buf[|text| + 1..];
    UpToEnd(text, '\0', buf[|text| + 1..]);
  }
}

/** Printed requests meet the conditions of chunk independence. */
module PrintedRequests {
  import opened Text
  import opened HttpParse
  import opened HttpInit

  /** An empty line occurs at the end of a text or not at all. */
  ghost predicate BlankOnlyAtEnd(s: string)
  {
    forall i :: 0 <= i && i + 3 <= |s| && s[i] == '\n' && s[i + 1] == '\r' && s[i + 2] == '\n' ==> i + 3 == |s|
  }

  lemma {:induction false} BlankAfterLine(line: string, rest: string)
    requires '\n' !in line && BlankOnlyAtEnd(rest)
    requires |rest| >= 2 && rest[0] == '\r' && rest[1] == '\n' ==> |rest| == 2
    ensures BlankOnlyAtEnd(line + "\n" + rest)
  {
    var s := line + "\n" + rest;
    forall i | 0 <= i && i + 3 <= |s| && s[i] == '\n' && s[i + 1] == '\r' && s[i + 2] == '\n'
      ensures i + 3 == |s|
    {
      assert forall j :: 0 <= j < |line| ==> s[j] in line;
      var d := i - |line| - 1;
      assert s[i + 1] == rest[d + 1] && s[i + 2] == rest[d + 2];
      if d >= 0 { assert s[i] == rest[d]; }
    }
  }

  lemma {:induction false} HeaderTextBlank(hs: seq<(string, string)>)
    requires forall i :: 0 <= i < |hs| ==> PrintableHeader(hs[i])
    ensures var t := HeaderText(hs);
      BlankOnlyAtEnd(t) && |t| >= 2 && t[|t| - 2..] == "\r\n" && (t[0] == '\r' && t[1] == '\n' ==> |t| == 2)
    decreases |hs|
  {
    if hs != [] {
      var h, rest := hs[0], HeaderText(hs[1..]);
      HeaderTextBlank(hs[1..]);
      var line := h.0 + ": " + h.1 + "\r";
      var t := HeaderText(hs);
      assert t == line + "\n" + rest;
      BlankAfterLine(line, rest);
      assert t[0] == line[0] && t[1] == line[1] && line[1] in line;
      assert t[|t| - 2..] == rest[|rest| - 2..];
    }
  }

  lemma {:induction false} TerminatorIsBlank(s: string, k: nat)
    requires 4 <= k <= |s|
    ensures EndsRequest(s[..k]) ==> s[k - 3] == '\n' && s[k - 2] == '\r' && s[k - 1] == '\n'
  {
    var t := s[..k][k - 4..];
    assert t[1] == s[k - 3] && t[2] == s[k - 2] && t[3] == s[k - 1];
  }

  /** Every printed request is complete, and its terminator occurs only at its end. */
  lemma {:induction false} PrintedIsSplittable(r: Request)
    requires Printable(r)
    ensures |Print(r)| >= 4 && EndsRequest(Print(r)) && TerminatorOnlyAtEnd(Print(r))
  {
    var rest := HeaderText(r.headers);
    var line := "GET " + TargetText(r) + " HTTP/1.1\r";
    var s := Print(r);
    HeaderTextBlank(r.headers);
    assert s == line + "\n" + rest;
    hide HeaderText;
    hide Print;
    hide TargetText;
    BlankAfterLine(line, rest);
    EndOfPrinted(r);
    forall k | 4 <= k < |s|
      ensures !EndsRequest(s[..k])
    {
      TerminatorIsBlank(s, k);
    }
  }

  lemma {:induction false} EndOfHeaders(line: string, hs: seq<(string, string)>)
    requires forall i :: 0 <= i < |hs| ==> PrintableHeader(hs[i])
    requires |line| >= 1 && line[|line| - 1] == '\r'
    ensures EndsRequest(line + "\n" + HeaderText(hs))
    decreases |hs|
  {
    var s := line + "\n" + HeaderText(hs);
    if hs == [] {
      assert s[|s| - 4..] == "\r\n\r\n";
    } else {
      var next := hs[0].0 + ": " + hs[0].1 + "\r";
      var t := next + "\n" + HeaderText(hs[1..]);
      assert HeaderText(hs) == t;
      EndOfHeaders(next, hs[1..]);
      assert s[|s| - 4..] == t[|t| - 4..];
    }
  }

  lemma {:induction false} EndOfPrinted(r: Request)
    requires Printable(r)
    ensures EndsRequest(Print(r))
  {
    var line := "GET " + TargetText(r) + " HTTP/1.1\r";
    assert Print(r) == line + "\n" + HeaderText(r.headers);
    EndOfHeaders(line, r.headers);
  }

  /** However TCP cuts a printed request that fits the buffer, it is parsed once, whole, after its last read. */
  lemma {:induction false} PrintedChunkIndependent(r: Request, chunks: seq<string>)
    requires Printable(r) && |Print(r)| < BUF_SIZE && IsSplit(Print(r), chunks)
    ensures Collect("", chunks) == Parsed(Print(r), |Print(r)|, [])
  {
    PrintedIsSplittable(r);
    PrintNulFree(r);
    hide Print;
    ChunkIndependentIff(Print(r));
    SeenWholeIff(Print(r));
  }
}

/** The opening handshake: `createAcceptKey` and the 101 response. */
module Handshake {
  import opened Text
  import opened HttpParse

  const WS_GUID := "258EAFA5-E914-47DA-95CA-C5AB0DC85B11"

  /** The text that is hashed for a stored Sec-WebSocket-Key value. */
  function AcceptInput(stored: string): string
  {
    (if |stored| > 24 then stored[..24] else stored) + WS_GUID
  }

  /** The 101 response; `digest` stands for Base64 of SHA-1. */
  function Response(subprotocol: string, digest: string -> string, headers: Headers): string
    requires "Sec-WebSocket-Key" in headers
  {
    "HTTP/1.1 101 Switching Protocols\r\n"
    + "Upgrade: websocket\r\n"
    + "Connection: Upgrade\r\n"
    + "Sec-WebSocket-Version: 13\r\n"
    + (if subprotocol == "" then "" else "Sec-WebSocket-Protocol: " + subprotocol + "\r\n")
    + "Sec-WebSocket-Accept: " + digest(AcceptInput(headers["Sec-WebSocket-Key"])) + "\r\n\r\n"
  }

  /**
   The parser stores a key with its carriage return. The text hashed is the client's key followed by the GUID
   (section 4.2.2 of RFC 6455) exactly for keys of 24 characters.
   */
  lemma {:induction false} AcceptInputIff(key: string)
    ensures AcceptInput(key + "\r") == key + WS_GUID <==> |key| == 24
    ensures AcceptInput(key + "\r") == (if |key| >= 24 then key[..24] else key + "\r") + WS_GUID
  {
    var s := key + "\r";
    if |key| >= 24 {
      assert s[..24] == key[..24];
      if |key| == 24 { assert s[..24] == key; }
      if |key| > 24 { assert |AcceptInput(s)| < |key + WS_GUID|; }
    } else {
      assert |AcceptInput(s)| == |key + WS_GUID| + 1;
    }
  }

  /** From the printed request to the hash: the first key header decides, and agrees exactly at 24 characters. */
  lemma {:induction false} HandshakeAgreesIff(r: Request, i: nat)
    requires Printable(r) && i < |r.headers| && r.headers[i].0 == "Sec-WebSocket-Key"
    requires forall j :: 0 <= j < i ==> r.headers[j].0 != "Sec-WebSocket-Key"
    ensures var headers := HeaderLines(AfterLine(Print(r)), map[]);
      && "Sec-WebSocket-Key" in headers
      && (AcceptInput(headers["Sec-WebSocket-Key"]) == r.headers[i].1 + WS_GUID <==> |r.headers[i].1| == 24)
  {
    PrintParseRoundTrip(r);
    FirstValuesSpec(r.headers, map[], "Sec-WebSocket-Key");
    AcceptInputIff(r.headers[i].1);
    hide Print;
    hide HeaderLines;
    hide FirstValues;
    hide AcceptInput;
  }
}
