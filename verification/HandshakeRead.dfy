/** The 101 response as a client reads it (section 4.2.2 of RFC 6455). */
module HandshakeRead {
  import opened Bytes
  import opened Text
  import opened HttpParse
  import opened Handshake
  import opened FileResponse

  /** One header field, as the parser stores its value: with the carriage return. */
  predicate HasValue(fields: Headers, key: string, value: string)
  {
    key in fields && fields[key] == value + "\r"
  }

  /**
   A client is switched to WebSocket: it reads the 101 line, the fields that section 4.2.2 asks for, a subprotocol
   exactly if there is one, the accept value, and nothing after the empty line.
   */
  predicate Switches(text: string, subprotocol: string, accept: string)
  {
    && LineOf(text) == "HTTP/1.1 101 Switching Protocols\r"
    && var fields := HeaderLines(AfterLine(text), map[]);
    && HasValue(fields, "Upgrade", "websocket")
    && HasValue(fields, "Connection", "Upgrade")
    && HasValue(fields, "Sec-WebSocket-Version", "13")
    && ("Sec-WebSocket-Protocol" in fields <==> subprotocol != "")
    && (subprotocol != "" ==> HasValue(fields, "Sec-WebSocket-Protocol", subprotocol))
    && HasValue(fields, "Sec-WebSocket-Accept", accept)
    && BodyOf(text) == ""
  }

  function FieldText(key: string, value: string): string
  {
    key + ": " + value + "\r\n"
  }

  /** The last part of the header: the subprotocol, if any, the accept value, and the empty line. */
  function LastFields(subprotocol: string, accept: string): string
  {
    (if subprotocol == "" then "" else FieldText("Sec-WebSocket-Protocol", subprotocol))
    + (FieldText("Sec-WebSocket-Accept", accept) + "\r\n")
  }

  function FirstFields(rest: string): string
  {
    FieldText("Upgrade", "websocket")
    + (FieldText("Connection", "Upgrade") + (FieldText("Sec-WebSocket-Version", "13") + rest))
  }

  const FIRST: Headers :=
    map["Upgrade" := "websocket" + "\r", "Connection" := "Upgrade" + "\r", "Sec-WebSocket-Version" := "13" + "\r"]

  lemma {:induction false} OneFieldRead(key: string, value: string, rest: string, m: Headers)
    requires '\n' !in key && ':' !in key && '\n' !in value
    ensures HeaderLines(FieldText(key, value) + rest, m) == HeaderLines(rest, Emplace(m, key, value + "\r"))
    ensures BodyOf(FieldText(key, value) + rest) == BodyOf(rest)
  {
    hide HeaderLines;
    hide BodyOf;
    hide Find;
    hide Emplace;
    NoDelimiter(key);
    FieldRead(key, value, rest, m);
    assert FieldText(key, value) + rest == key + ": " + value + "\r\n" + rest;
  }

  lemma {:induction false} FirstFieldsRead(rest: string)
    ensures HeaderLines(FirstFields(rest), map[]) == HeaderLines(rest, FIRST)
    ensures BodyOf(FirstFields(rest)) == BodyOf(rest)
  {
    hide HeaderLines;
    hide BodyOf;
    hide FieldText;
    var m1 := Emplace(map[], "Upgrade", "websocket" + "\r");
    var m2 := Emplace(m1, "Connection", "Upgrade" + "\r");
    var r2 := FieldText("Sec-WebSocket-Version", "13") + rest;
    OneFieldRead("Upgrade", "websocket", FieldText("Connection", "Upgrade") + r2, map[]);
    OneFieldRead("Connection", "Upgrade", r2, m1);
    OneFieldRead("Sec-WebSocket-Version", "13", rest, m2);
    assert Emplace(m2, "Sec-WebSocket-Version", "13" + "\r") == FIRST;
  }

  lemma {:induction false} LastFieldsRead(subprotocol: string, accept: string, m: Headers)
    requires '\n' !in subprotocol && '\n' !in accept
    ensures var before := if subprotocol == "" then m else Emplace(m, "Sec-WebSocket-Protocol", subprotocol + "\r");
      HeaderLines(LastFields(subprotocol, accept), m) == Emplace(before, "Sec-WebSocket-Accept", accept + "\r")
    ensures BodyOf(LastFields(subprotocol, accept)) == ""
  {
    hide HeaderLines;
    hide BodyOf;
    hide FieldText;
    hide Emplace;
    var before := if subprotocol == "" then m else Emplace(m, "Sec-WebSocket-Protocol", subprotocol + "\r");
    var rest := FieldText("Sec-WebSocket-Accept", accept) + "\r\n";
    if subprotocol != "" {
      OneFieldRead("Sec-WebSocket-Protocol", subprotocol, rest, m);
    } else {
      assert LastFields(subprotocol, accept) == rest;
    }
    OneFieldRead("Sec-WebSocket-Accept", accept, "\r\n", before);
    EndOfHead("", Emplace(before, "Sec-WebSocket-Accept", accept + "\r"));
    assert "\r\n" + "" == "\r\n";
  }

  lemma {:induction false} ResponseInParts(subprotocol: string, digest: string -> string, headers: Headers)
    requires "Sec-WebSocket-Key" in headers
    ensures var accept := digest(AcceptInput(headers["Sec-WebSocket-Key"]));
      Response(subprotocol, digest, headers) ==
      "HTTP/1.1 101 Switching Protocols\r" + "\n" + FirstFields(LastFields(subprotocol, accept))
  {
    hide AcceptInput;
    hide FieldText;
    var accept := digest(AcceptInput(headers["Sec-WebSocket-Key"]));
    FieldLiterals();
    AcceptText(accept);
    ProtocolText(subprotocol);
    Regroup("HTTP/1.1 101 Switching Protocols\r\n", "Upgrade: websocket\r\n", "Connection: Upgrade\r\n",
            "Sec-WebSocket-Version: 13\r\n",
            if subprotocol == "" then "" else "Sec-WebSocket-Protocol: " + subprotocol + "\r\n",
            "Sec-WebSocket-Accept: ", accept, "\r\n\r\n");
  }

  lemma {:induction false} Regroup(a: string, b: string, c: string, d: string, e: string, f: string, g: string,
                                   h: string)
    ensures a + b + c + d + e + f + g + h == a + (b + (c + (d + (e + (f + g + h)))))
  {
  }

  lemma {:induction false} FieldLiterals()
    ensures FieldText("Upgrade", "websocket") == "Upgrade: websocket\r\n"
    ensures FieldText("Connection", "Upgrade") == "Connection: Upgrade\r\n"
    ensures FieldText("Sec-WebSocket-Version", "13") == "Sec-WebSocket-Version: 13\r\n"
    ensures "HTTP/1.1 101 Switching Protocols\r" + "\n" == "HTTP/1.1 101 Switching Protocols\r\n"
  {
  }

  lemma {:induction false} AcceptText(accept: string)
    ensures FieldText("Sec-WebSocket-Accept", accept) + "\r\n" == "Sec-WebSocket-Accept: " + accept + "\r\n\r\n"
  {
    assert "Sec-WebSocket-Accept" + ": " == "Sec-WebSocket-Accept: ";
    assert "\r\n" + "\r\n" == "\r\n\r\n";
  }

  lemma {:induction false} ProtocolText(subprotocol: string)
    ensures FieldText("Sec-WebSocket-Protocol", subprotocol) == "Sec-WebSocket-Protocol: " + subprotocol + "\r\n"
  {
    assert "Sec-WebSocket-Protocol" + ": " == "Sec-WebSocket-Protocol: ";
  }

  /** What the client reads off the 101 response. */
  lemma {:induction false} ResponseSwitches(subprotocol: string, digest: string -> string, headers: Headers)
    requires "Sec-WebSocket-Key" in headers && '\n' !in subprotocol
    requires '\n' !in digest(AcceptInput(headers["Sec-WebSocket-Key"]))
    ensures Switches(Response(subprotocol, digest, headers), subprotocol,
                     digest(AcceptInput(headers["Sec-WebSocket-Key"])))
  {
    hide Response;
    hide AcceptInput;
    hide HeaderLines;
    hide BodyOf;
    hide AfterLine;
    hide LineOf;
    hide FirstFields;
    hide LastFields;
    var accept := digest(AcceptInput(headers["Sec-WebSocket-Key"]));
    var fields := FirstFields(LastFields(subprotocol, accept));
    ResponseInParts(subprotocol, digest, headers);
    LineSplit("HTTP/1.1 101 Switching Protocols\r", fields);
    BodyAfterFirst("HTTP/1.1 101 Switching Protocols\r", fields);
    FirstFieldsRead(LastFields(subprotocol, accept));
    LastFieldsRead(subprotocol, accept, FIRST);
  }

  lemma {:induction false} BodyAfterFirst(line: string, rest: string)
    requires '\n' !in line && line != "\r"
    ensures BodyOf(line + "\n" + rest) == BodyOf(rest)
  {
    LineSplit(line, rest);
  }

  // On octets

  /** Text without line feeds whose characters are octets, as Base64 is. */
  predicate OneLine(s: string)
  {
    '\n' !in s && Narrow(s)
  }

  lemma {:induction false} LiteralPartsAreNarrow()
    ensures Narrow("HTTP/1.1 101 Switching Protocols\r" + "\n") && Narrow("\r\n")
    ensures Narrow(FieldText("Upgrade", "websocket")) && Narrow(FieldText("Connection", "Upgrade"))
    ensures Narrow(FieldText("Sec-WebSocket-Version", "13"))
  {
  }

  lemma {:induction false} FieldIsNarrow(key: string, value: string)
    requires Narrow(key) && Narrow(value)
    ensures Narrow(FieldText(key, value))
  {
  }

  lemma {:induction false} KeysAreNarrow()
    ensures Narrow("Sec-WebSocket-Protocol") && Narrow("Sec-WebSocket-Accept")
  {
  }

  lemma {:induction false} ResponseIsNarrow(subprotocol: string, accept: string)
    requires Narrow(subprotocol) && Narrow(accept)
    ensures Narrow("HTTP/1.1 101 Switching Protocols\r" + "\n" + FirstFields(LastFields(subprotocol, accept)))
  {
    hide Narrow;
    hide FieldText;
    LiteralPartsAreNarrow();
    KeysAreNarrow();
    var p, a := FieldText("Sec-WebSocket-Protocol", subprotocol), FieldText("Sec-WebSocket-Accept", accept);
    FieldIsNarrow("Sec-WebSocket-Protocol", subprotocol);
    FieldIsNarrow("Sec-WebSocket-Accept", accept);
    NarrowAppend(a, "\r\n");
    NarrowAppend(p, a + "\r\n");
    var last := LastFields(subprotocol, accept);
    assert Narrow(last) by {
      if subprotocol == "" { assert "" + (a + "\r\n") == a + "\r\n"; }
    }
    var u, c, v := FieldText("Upgrade", "websocket"), FieldText("Connection", "Upgrade"),
                   FieldText("Sec-WebSocket-Version", "13");
    NarrowAppend(v, last);
    NarrowAppend(c, v + last);
    NarrowAppend(u, c + (v + last));
    NarrowAppend("HTTP/1.1 101 Switching Protocols\r" + "\n", FirstFields(last));
  }

  /** The handshake from a printed request to the client's reading of the octets sent. */
  ghost predicate Accepted(r: Request, digest: string -> string, subprotocol: string, greeting: seq<Byte>)
  {
    forall i :: 0 <= i < |r.headers| && FirstKeyAt(r, i) && |r.headers[i].1| == 24 ==>
      var accept := digest(r.headers[i].1 + WS_GUID);
      OneLine(accept) ==> Switches(Chars(greeting), subprotocol, accept)
  }

  /** The header that counts as the client's key. */
  predicate FirstKeyAt(r: Request, i: nat)
  {
    && i < |r.headers| && r.headers[i].0 == "Sec-WebSocket-Key"
    && forall j :: 0 <= j < i ==> r.headers[j].0 != "Sec-WebSocket-Key"
  }

  /**
   For a printed request with a key of 24 characters, the client reads off the octets of the response that it is
   switched, and as the accept value the digest of its key and the GUID (section 4.2.2 of RFC 6455).
   */
  lemma {:induction false} HandshakeCompletes(r: Request, digest: string -> string, subprotocol: string)
    requires OneLine(subprotocol) && "Sec-WebSocket-Key" in FirstValues(r.headers, map[])
    ensures Accepted(r, digest, subprotocol, Octets(Response(subprotocol, digest, FirstValues(r.headers, map[]))))
  {
    hide FirstValues;
    hide Response;
    hide AcceptInput;
    hide Switches;
    hide FirstFields;
    hide LastFields;
    hide Octets;
    hide Chars;
    hide Narrow;
    var headers := FirstValues(r.headers, map[]);
    forall i | 0 <= i < |r.headers| && FirstKeyAt(r, i) && |r.headers[i].1| == 24
      ensures var accept := digest(r.headers[i].1 + WS_GUID);
        OneLine(accept) ==> Switches(Chars(Octets(Response(subprotocol, digest, headers))), subprotocol, accept)
    {
      var accept := digest(r.headers[i].1 + WS_GUID);
      FirstValuesSpec(r.headers, map[], "Sec-WebSocket-Key");
      AcceptInputIff(r.headers[i].1);
      if OneLine(accept) {
        ResponseSwitches(subprotocol, digest, headers);
        ResponseInParts(subprotocol, digest, headers);
        ResponseIsNarrow(subprotocol, accept);
        CharsOfOctets(Response(subprotocol, digest, headers));
      }
    }
  }
}
