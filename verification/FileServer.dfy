/** One connection of the file server, from the first octet of the request to the last octet of the answer. */
module FileServer {
  import opened Bytes
  import opened Connections
  import opened Text
  import opened HttpParse
  import opened HttpInit
  import opened TcpEcho
  import opened HttpServer
  import opened RequestRuns
  import opened FileResponse
  import L = Lifecycle

  /** A request that fits and does not ask for a WebSocket. */
  ghost predicate PlainRequest(r: HttpParse.Request)
  {
    Bounded(r) && !AsksUpgrade(r)
  }

  /** An application whose pages are files. */
  function FileApp(app: Application, files: map<string, seq<Byte>>): Application
  {
    app.(http := Files(files))
  }

  lemma {:induction false} PlainEntered(app: Application, files: map<string, seq<Byte>>, r: HttpParse.Request,
                                        wire: seq<Byte>, tail: seq<seq<Byte>>)
    requires PlainRequest(r)
    ensures var st := Entered(FileApp(app, files), r.path, FirstValues(r.headers, map[]), wire);
      && st == Ended(wire + Page(files, r.path))
      && AllManageable(FileApp(app, files), st, tail) && RunAll(FileApp(app, files), st, tail) == st
  {
    hide Bounded;
    hide AsksUpgrade;
    hide HasField;
    hide Page;
    hide Upgraded;
    AsksUpgradeIff(r);
    hide AllManageable;
    hide RunAll;
    RunAllOver(FileApp(app, files), Ended(wire + Page(files, r.path)), tail);
  }

  /** However the request is cut, and whatever comes after it, the page of its path goes out and nothing else. */
  lemma {:induction false} FileAnswered(app: Application, files: map<string, seq<Byte>>, r: HttpParse.Request,
                                        wire: seq<Byte>, head: seq<seq<Byte>>, tail: seq<seq<Byte>>)
    requires PlainRequest(r) && IsSplit(Print(r), Texts(head))
    ensures AllManageable(FileApp(app, files), Collecting("", wire), head + tail)
    ensures RunAll(FileApp(app, files), Collecting("", wire), head + tail) == Ended(wire + Page(files, r.path))
  {
    hide Bounded;
    hide AsksUpgrade;
    hide IsSplit;
    hide Print;
    hide Entered;
    hide Page;
    hide FileApp;
    hide AllManageable;
    hide RunAll;
    PlainEntered(app, files, r, wire, tail);
    RequestAnswered(FileApp(app, files), r, wire, head, tail);
  }

  /**
   Any other handler: what it sends goes out, in order, and nothing else, and the connection ends. The GET state is
   entered exactly if the handler does not throw.
   */
  lemma {:induction false} CustomAnswered(app: Application, answer: (string, Headers) -> GetAnswer,
                                          r: HttpParse.Request, wire: seq<Byte>)
    requires PlainRequest(r) && app.http == Custom(answer)
    ensures var headers := FirstValues(r.headers, map[]);
      var reaction := answer(r.path, headers);
      && Entered(app, r.path, headers, wire) == Ended(wire + Concat(reaction.sends))
      && EnteredAs(app, r.path, headers, wire) ==
         L.IsGet(if reaction.throws then L.ThrowsBeforeConnect else L.Completes(true))
  {
    hide Bounded;
    hide AsksUpgrade;
    hide HasField;
    hide Concat;
    hide Upgraded;
    hide EntryWs;
    hide FirstValues;
    AsksUpgradeIff(r);
  }

  /** What a client makes of the answer for a file name. */
  ghost predicate Answers(response: seq<Byte>, files: map<string, seq<Byte>>, name: string)
  {
    if Contains(name, "..") then Refuses(response, "HTTP/1.1 403 Forbidden")
    else if name in files then Conveys(response, files[name])
    else Refuses(response, "HTTP/1.1 404 Not Found")
  }

  lemma {:induction false} PageAnswers(files: map<string, seq<Byte>>, path: string, name: string)
    requires Names(path, name)
    ensures Answers(Page(files, path), files, name)
  {
    hide Lookup;
    hide Names;
    hide Contains;
    hide Conveys;
    hide Refuses;
    hide Head;
    hide Octets;
    hide Status;
    hide Narrow;
    LookupSpec(files, path, name);
    CodesAreNarrow();
    RefusalRead("403 Forbidden");
    RefusalRead("404 Not Found");
    assert "HTTP/1.1 " + "403 Forbidden" == "HTTP/1.1 403 Forbidden";
    assert "HTTP/1.1 " + "404 Not Found" == "HTTP/1.1 404 Not Found";
    if name in files { ClientReadsFile(files[name]); }
  }

  lemma {:induction false} CodesAreNarrow()
    ensures Narrow("403 Forbidden") && Narrow("404 Not Found")
  {
  }

  /**
   The connection on its objects, from accept on. Unless a write fails, the answer goes out and the connection is
   closed. If the path names a file that may be read and exists, a client reads exactly that file off the wire, and
   its size off Content-Length; otherwise it reads which error it is, but no end of the header. If a write fails, a
   part of the answer is out, from its beginning.
   */
  method ServeFile(connection: Connection, app: Application, files: map<string, seq<Byte>>, script: seq<ReadOutcome>,
                   ghost r: HttpParse.Request, ghost name: string,
                   ghost head: seq<seq<Byte>>, ghost tail: seq<seq<Byte>>)
    returns (exit: Exit, failed: bool, ghost trace: seq<L.Event>)
    requires !connection.closed && PlainRequest(r) && Names(r.path, name)
    requires IsSplit(Print(r), Texts(head)) && Inputs(script) == head + tail
    modifies connection, connection.socket
    ensures Written(failed, old(connection.socket.wire), connection.socket.wire,
                    old(connection.socket.wire) + Page(files, r.path))
    ensures connection.socket.failures == old(connection.socket.failures) + Once(failed)
    ensures !failed ==>
              && connection.closed && old(connection.socket.wire) <= connection.socket.wire
              && Answers(connection.socket.wire[|old(connection.socket.wire)|..], files, name)
    ensures L.Safe(trace)
  {
    hide *;
    ghost var before := connection.socket.wire;
    FileAnswered(app, files, r, before, head, tail);
    EndedWire(before + Page(files, r.path));
    exit, failed, trace := ServeClient(connection, FileApp(app, files), script);
    PageAnswers(files, r.path, name);
    TakeWritten(failed, before, connection.socket.wire, before + Page(files, r.path));
    assert (before + Page(files, r.path))[|before|..] == Page(files, r.path);
  }

  lemma {:induction false} EndedWire(wire: seq<Byte>)
    ensures OnWire(Ended(wire)) == wire
  {
  }

  lemma {:induction false} TakeWritten(cut: bool, before: seq<Byte>, now: seq<Byte>, after: seq<Byte>)
    requires Written(cut, before, now, after)
    ensures before <= now <= after && (cut <==> now != after)
  {
  }
}
