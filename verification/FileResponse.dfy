/**
 `HttpFileHandler`: `do_GET` with its three answers, the 4096-octet read loop, and what a client reads off each.
 */
module FileResponse {
  import opened Bytes
  import opened Connections
  import opened Decimal
  import opened Text
  import opened HttpParse

  const READ_SIZE := 4096

  function DecimalText(n: nat): (s: string)
    ensures '\n' !in s && Octets(s) == Digits(n) && Narrow(s)
  {
    seq(|Digits(n)|, i requires 0 <= i < |Digits(n)| => Digits(n)[i] as char)
  }

  // What the responses are made of

  /** `HttpConnection::http_response_code`; only `http_200` goes on to end the header. */
  function Status(code: string): string
  {
    "HTTP/1.1 " + code + "\r\nServer: CPP Socks\r\n"
  }

  function StatusLine(): string
  {
    Status("200 OK")
  }

  function LengthLine(n: nat): string
  {
    "Content-Length: " + DecimalText(n) + "\r\n"
  }

  function Head(n: nat): string
  {
    StatusLine() + LengthLine(n) + "\r\n"
  }

  /** A client's view of a response: what follows the first empty line. */
  function BodyOf(s: string): string
    decreases |s|
  {
    if s == "" then "" else if LineOf(s) == "\r" then AfterLine(s) else BodyOf(AfterLine(s))
  }

  lemma {:induction false} FieldRead(key: string, value: string, rest: string, m: Headers)
    requires '\n' !in key && '\n' !in value && Find(key, ": ") < 0
    ensures HeaderLines(key + ": " + value + "\r\n" + rest, m) == HeaderLines(rest, Emplace(m, key, value + "\r"))
    ensures BodyOf(key + ": " + value + "\r\n" + rest) == BodyOf(rest)
  {
    var line := key + ": " + (value + "\r");
    var s := key + ": " + value + "\r\n" + rest;
    assert s == line + "\n" + rest;
    LineSplit(line, rest);
    DelimiterAfterKey(key, value + "\r");
    assert line[..|key|] == key && line[|key| + 2..] == value + "\r";
  }

  lemma {:induction false} NoDelimiter(key: string)
    requires ':' !in key
    ensures Find(key, ": ") < 0
  {
    FindIsFirst(key, ": ");
    forall i: nat
      ensures !OccursAt(key, ": ", i)
    {
      if i + 2 <= |key| { assert key[i..i + 2][0] == key[i]; }
    }
  }

  lemma {:induction false} EndOfHead(body: string, m: Headers)
    ensures HeaderLines("\r\n" + body, m) == m && BodyOf("\r\n" + body) == body
  {
    assert "\r\n" + body == "\r" + "\n" + body;
    LineSplit("\r", body);
    FindIsFirst("\r", ": ");
  }

  /** Two header fields, the empty line, and the body. */
  function Fields(k1: string, v1: string, k2: string, v2: string, body: string): string
  {
    k1 + ": " + v1 + "\r\n" + (k2 + ": " + v2 + "\r\n" + ("\r\n" + body))
  }

  lemma {:induction false} FieldsRead(k1: string, v1: string, k2: string, v2: string, body: string)
    requires '\n' !in k1 && ':' !in k1 && '\n' !in v1 && '\n' !in k2 && ':' !in k2 && '\n' !in v2
    ensures HeaderLines(Fields(k1, v1, k2, v2, body), map[]) == Emplace(Emplace(map[], k1, v1 + "\r"), k2, v2 + "\r")
    ensures BodyOf(Fields(k1, v1, k2, v2, body)) == body
  {
    hide HeaderLines;
    hide BodyOf;
    hide Find;
    hide Emplace;
    NoDelimiter(k1);
    NoDelimiter(k2);
    var m := Emplace(map[], k1, v1 + "\r");
    EndOfHead(body, Emplace(m, k2, v2 + "\r"));
    FieldRead(k2, v2, "\r\n" + body, m);
    FieldRead(k1, v1, k2 + ": " + v2 + "\r\n" + ("\r\n" + body), map[]);
  }

  lemma {:induction false} HeadThenFields(n: nat, body: string)
    ensures Head(n) + body ==
            "HTTP/1.1 200 OK\r" + "\n" + Fields("Server", "CPP Socks", "Content-Length", DecimalText(n), body)
  {
    hide DecimalText;
    StatusThenField();
    hide StatusLine;
    var first, server := "HTTP/1.1 200 OK\r" + "\n", "Server" + ": " + "CPP Socks" + "\r\n";
    assert Head(n) + body == first + server + LengthLine(n) + "\r\n" + body;
    assert first + server + LengthLine(n) + "\r\n" + body == first + (server + (LengthLine(n) + ("\r\n" + body)));
  }

  lemma {:induction false} StatusThenField()
    ensures StatusLine() == "HTTP/1.1 200 OK\r" + "\n" + ("Server" + ": " + "CPP Socks" + "\r\n")
  {
  }

  lemma {:induction false} AfterStatusLine(rest: string)
    ensures var s := "HTTP/1.1 200 OK\r" + "\n" + rest;
      LineOf(s) == "HTTP/1.1 200 OK\r" && AfterLine(s) == rest && BodyOf(s) == BodyOf(rest)
  {
    LineSplit("HTTP/1.1 200 OK\r", rest);
  }

  /** After the header a client finds exactly the body, and the announced length is the given one. */
  lemma {:induction false} ResponseFraming(n: nat, body: string)
    ensures var s := Head(n) + body;
      && LineOf(s) == "HTTP/1.1 200 OK\r" && BodyOf(s) == body
      && HeaderLines(AfterLine(s), map[]) == map["Server" := "CPP Socks\r", "Content-Length" := DecimalText(n) + "\r"]
    ensures Value(Octets(DecimalText(n))) == n
  {
    hide HeaderLines;
    hide BodyOf;
    hide AfterLine;
    hide LineOf;
    hide Fields;
    hide Head;
    hide DecimalText;
    hide Value;
    ValueOfDigits(n);
    HeadThenFields(n, body);
    AfterStatusLine(Fields("Server", "CPP Socks", "Content-Length", DecimalText(n), body));
    FieldsRead("Server", "CPP Socks", "Content-Length", DecimalText(n), body);
    assert "CPP Socks" + "\r" == "CPP Socks\r";
  }

  // What a client makes of the octets

  /** The header fields of a response. */
  function FieldsOf(response: seq<Byte>): Headers
  {
    HeaderLines(AfterLine(Chars(response)), map[])
  }

  /** The number announced in Content-Length, without the carriage return. */
  function Announced(response: seq<Byte>): int
    requires "Content-Length" in FieldsOf(response)
  {
    var value := FieldsOf(response)["Content-Length"];
    if value == "" then 0 else Value(Octets(value[..|value| - 1]))
  }

  /** The octets after the empty line. */
  function BodyOctets(response: seq<Byte>): seq<Byte>
  {
    Octets(BodyOf(Chars(response)))
  }

  lemma {:induction false} NarrowAppend(a: string, b: string)
    requires Narrow(a) && Narrow(b)
    ensures Narrow(a + b)
  {
  }

  lemma {:induction false} LiteralsAreNarrow()
    ensures Narrow(StatusLine()) && Narrow("Content-Length: ") && Narrow("\r\n")
  {
  }

  lemma {:induction false} HeadIsNarrow(n: nat)
    ensures Narrow(Head(n))
  {
    LiteralsAreNarrow();
    hide StatusLine;
    hide DecimalText;
    hide Narrow;
    NarrowAppend("Content-Length: ", DecimalText(n));
    NarrowAppend("Content-Length: " + DecimalText(n), "\r\n");
    NarrowAppend(StatusLine(), LengthLine(n));
    NarrowAppend(StatusLine() + LengthLine(n), "\r\n");
  }

  /** A client reads the file off a response, and its size off Content-Length. */
  predicate Conveys(response: seq<Byte>, file: seq<Byte>)
  {
    && LineOf(Chars(response)) == "HTTP/1.1 200 OK\r"
    && BodyOctets(response) == file
    && "Content-Length" in FieldsOf(response)
    && Announced(response) == |BodyOctets(response)|
  }

  lemma {:induction false} ClientReadsFile(file: seq<Byte>)
    ensures Conveys(Octets(Head(|file|)) + file, file)
  {
    hide Head;
    hide BodyOf;
    hide HeaderLines;
    hide AfterLine;
    hide LineOf;
    hide Value;
    var n := |file|;
    HeadIsNarrow(n);
    CharsOfOctets(Head(n));
    CharsAppend(Octets(Head(n)), file);
    ResponseFraming(n, Chars(file));
    OctetsOfChars(file);
    hide Chars;
    hide Octets;
    hide Narrow;
    var text := DecimalText(n);
    hide DecimalText;
    assert (text + "\r")[..|text + "\r"| - 1] == text;
  }

  /** The file a path names. */
  function FileFor(path: string): string
  {
    if path == "" || path == "/" then "index.html" else if path[0] == '/' then path[1..] else path
  }

  /** The file a path names, told from the path: one slash in front does not belong to the name. */
  predicate Names(path: string, name: string)
  {
    || (path in {"", "/"} && name == "index.html")
    || (name != "" && path == "/" + name)
    || (name != "" && name[0] != '/' && path == name)
  }

  lemma {:induction false} FileForIsNamed(path: string, name: string)
    ensures Names(path, name) <==> name == FileFor(path)
  {
    if path != "" && path[0] == '/' { assert path == "/" + path[1..]; }
    assert name != "" ==> ("/" + name)[1..] == name;
  }

  datatype Verdict = Forbidden | NotFound | Found(file: seq<Byte>)

  /** `basePath` takes no part in this. */
  function Lookup(files: map<string, seq<Byte>>, path: string): Verdict
  {
    var name := FileFor(path);
    if Find(name, "..") >= 0 then Forbidden else if name in files then Found(files[name]) else NotFound
  }

  /** Which file is found, told from its name. */
  lemma {:induction false} LookupSpec(files: map<string, seq<Byte>>, path: string, name: string)
    requires Names(path, name)
    ensures Lookup(files, path) ==
            if Contains(name, "..") then Forbidden else if name in files then Found(files[name]) else NotFound
  {
    hide Find;
    hide FileFor;
    hide Names;
    FileForIsNamed(path, name);
    FoundIffContained(name, "..");
  }

  /** What `do_GET` sends. */
  function Page(files: map<string, seq<Byte>>, path: string): seq<Byte>
  {
    match Lookup(files, path)
    case Forbidden => Octets(Status("403 Forbidden"))
    case NotFound => Octets(Status("404 Not Found"))
    case Found(file) => Octets(Head(|file|)) + file
  }

  /** A client can tell where the header ends. */
  predicate HeaderEnds(response: seq<Byte>)
  {
    Find(Chars(response), "\r\n\r\n") >= 0
  }

  /** A client reads a status line off a response, but no end of its header. */
  predicate Refuses(response: seq<Byte>, status: string)
  {
    LineOf(Chars(response)) == status + "\r" && !HeaderEnds(response)
  }

  lemma {:induction false} TwoLines(first: string, second: string)
    requires '\n' !in first && '\n' !in second && |second| >= 2
    ensures Find(first + "\r\n" + (second + "\r\n"), "\r\n\r\n") < 0
  {
    var s := first + "\r\n" + (second + "\r\n");
    FindIsFirst(s, "\r\n\r\n");
    hide Find;
    forall i: nat
      ensures !OccursAt(s, "\r\n\r\n", i)
    {
      if i + 4 <= |s| {
        var t := s[i..i + 4];
        assert t[1] == s[i + 1] && t[3] == s[i + 3];
      }
    }
  }

  lemma {:induction false} StatusIsNarrow(code: string)
    requires Narrow(code)
    ensures Narrow(Status(code))
  {
  }

  lemma {:induction false} RefusalRead(code: string)
    requires '\n' !in code && Narrow(code)
    ensures Refuses(Octets(Status(code)), "HTTP/1.1 " + code)
  {
    hide Find;
    hide Chars;
    hide Octets;
    hide Narrow;
    var first := "HTTP/1.1 " + code;
    StatusIsNarrow(code);
    assert Status(code) == first + "\r\n" + ("Server: CPP Socks" + "\r\n");
    CharsOfOctets(Status(code));
    assert Status(code) == first + "\r" + "\n" + ("Server: CPP Socks" + "\r\n");
    hide Status;
    TwoLines(first, "Server: CPP Socks");
    LineSplit(first + "\r", "Server: CPP Socks" + "\r\n");
    hide LineOf;
  }

  lemma {:induction false} FoundPage(n: nat, file: seq<Byte>)
    ensures HeaderEnds(Octets(Head(n)) + file)
  {
    hide Find;
    hide Chars;
    hide Octets;
    hide StatusLine;
    hide DecimalText;
    hide Narrow;
    var s := Head(n) + Chars(file);
    HeadIsNarrow(n);
    CharsOfOctets(Head(n));
    CharsAppend(Octets(Head(n)), file);
    FindIsFirst(s, "\r\n\r\n");
    assert OccursAt(s, "\r\n\r\n", |Head(n)| - 4);
  }

  /** The answers 403 and 404 do not end their header: of all pages only a found file's does. */
  lemma {:induction false} HeaderEndsIffFound(files: map<string, seq<Byte>>, path: string)
    ensures HeaderEnds(Page(files, path)) <==> Lookup(files, path).Found?
  {
    hide HeaderEnds;
    hide Lookup;
    hide Octets;
    hide Status;
    hide Head;
    assert Narrow("403 Forbidden") && Narrow("404 Not Found");
    RefusalRead("403 Forbidden");
    RefusalRead("404 Not Found");
    match Lookup(files, path)
    case Found(file) => FoundPage(|file|, file);
    case _ =>
  }

  /** `HttpFileHandler::do_GET`. */
  method DoGet(connection: Connection, files: map<string, seq<Byte>>, path: string) returns (ok: bool)
    requires !connection.closed
    modifies connection.socket
    ensures Written(!ok, old(connection.socket.wire), connection.socket.wire,
                    old(connection.socket.wire) + Page(files, path))
    ensures connection.socket.failures == old(connection.socket.failures) + Once(!ok)
  {
    hide Head;
    hide Status;
    hide Octets;
    hide Find;
    var name := FileFor(path);
    var n;
    if Find(name, "..") >= 0 {
      n, ok := connection.Send(Octets(Status("403 Forbidden")));
      return;
    }
    if name !in files {
      n, ok := connection.Send(Octets(Status("404 Not Found")));
      return;
    }
    var file := files[name];
    ghost var before := connection.socket.wire;
    ok := SendHead(connection, |file|);
    assert before + (Octets(Head(|file|)) + file) == before + Octets(Head(|file|)) + file;
    if !ok { return; }
    ok := SendFile(connection, file);
  }

  /** `http_200`: three sends. */
  method SendHead(connection: Connection, contentLength: nat) returns (ok: bool)
    requires !connection.closed
    modifies connection.socket
    ensures Written(!ok, old(connection.socket.wire), connection.socket.wire,
                    old(connection.socket.wire) + Octets(Head(contentLength)))
    ensures connection.socket.failures == old(connection.socket.failures) + Once(!ok)
  {
    hide LengthLine;
    hide StatusLine;
    hide Octets;
    var a, b, c := Octets(StatusLine()), Octets(LengthLine(contentLength)), Octets("\r\n");
    ghost var before := connection.socket.wire;
    OctetsAppend(StatusLine(), LengthLine(contentLength));
    OctetsAppend(StatusLine() + LengthLine(contentLength), "\r\n");
    assert before + Octets(Head(contentLength)) == before + a + b + c;
    hide Head;
    var n;
    n, ok := connection.Send(a);
    if !ok { return; }
    n, ok := connection.Send(b);
    if !ok { return; }
    n, ok := connection.Send(c);
  }

  /** The read loop of `do_GET`: whole buffers, then the rest, then an empty read that ends it. */
  method SendFile(connection: Connection, file: seq<Byte>) returns (ok: bool)
    requires !connection.closed
    modifies connection.socket
    ensures Written(!ok, old(connection.socket.wire), connection.socket.wire, old(connection.socket.wire) + file)
    ensures connection.socket.failures == old(connection.socket.failures) + Once(!ok)
  {
    var pos := 0;
    var more := true;
    ok := true;
    while more
      invariant 0 <= pos <= |file| && ok
      invariant connection.socket.wire == old(connection.socket.wire) + file[..pos]
      invariant connection.socket.failures == old(connection.socket.failures)
      invariant !more ==> pos == |file|
      decreases |file| - pos, more
    {
      var gcount := if |file| - pos < READ_SIZE then |file| - pos else READ_SIZE;
      var n;
      n, ok := connection.Send(file[pos..pos + gcount]);
      assert file[..pos + n] == file[..pos] + file[pos..pos + gcount][..n];
      if !ok { return; }
      pos := pos + gcount;
      more := gcount > 0;
    }
    assert file[..pos] == file;
  }
}
