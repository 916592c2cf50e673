/** C and C++ string primitives used by the request parser, with what they find. */
module Text {
  import opened Bytes

  /** Text as octets. */
  function Octets(s: string): (b: seq<Byte>)
    ensures |b| == |s|
  {
    seq(|s|, i requires 0 <= i < |s| => s[i] as int % 256)
  }

  lemma {:induction false} OctetsAppend(a: string, b: string)
    ensures Octets(a + b) == Octets(a) + Octets(b)
  {
  }

  /** Octets as text. */
  function Chars(b: seq<Byte>): (s: string)
    ensures |s| == |b|
  {
    seq(|b|, i requires 0 <= i < |b| => b[i] as char)
  }

  lemma {:induction false} OctetsOfChars(b: seq<Byte>)
    ensures Octets(Chars(b)) == b
  {
  }

  /** Text of single-octet characters. */
  predicate Narrow(s: string)
  {
    forall i :: 0 <= i < |s| ==> s[i] as int < 256
  }

  lemma {:induction false} CharsOfOctets(s: string)
    requires Narrow(s)
    ensures Chars(Octets(s)) == s
  {
  }

  lemma {:induction false} CharsAppend(a: seq<Byte>, b: seq<Byte>)
    ensures Chars(a + b) == Chars(a) + Chars(b)
  {
  }

  /** `find` / `strstr`: index of the first occurrence, or -1. */
  function Find(s: string, pat: string): (r: int)
    ensures -1 <= r && (r >= 0 ==> r + |pat| <= |s|)
  {
    if |s| < |pat| then -1
    else if pat <= s then 0
    else if s == "" then -1
    else var r := Find(s[1..], pat); if r < 0 then -1 else r + 1
  }

  ghost predicate OccursAt(s: string, pat: string, i: nat)
  {
    i + |pat| <= |s| && s[i..i + |pat|] == pat
  }

  /** `Find` reports an occurrence, reports the first, and reports one whenever there is one. */
  lemma {:induction false} FindIsFirst(s: string, pat: string)
    ensures var r := Find(s, pat);
      && (r >= 0 ==> OccursAt(s, pat, r))
      && (forall i: nat :: OccursAt(s, pat, i) ==> 0 <= r <= i)
  {
    if |s| >= |pat| && !(pat <= s) && s != "" {
      FindIsFirst(s[1..], pat);
      var r := Find(s, pat);
      if r >= 0 {
        assert s[1..][r - 1..r - 1 + |pat|] == s[r..r + |pat|];
      }
      forall i: nat | OccursAt(s, pat, i)
        ensures 0 <= r <= i
      {
        assert i > 0;
        assert s[1..][i - 1..i - 1 + |pat|] == s[i..i + |pat|];
        assert OccursAt(s[1..], pat, i - 1);
      }
    } else if pat <= s {
      assert s[0..|pat|] == pat;
    }
  }

  ghost predicate Contains(s: string, pat: string)
  {
    exists i: nat :: OccursAt(s, pat, i)
  }

  lemma {:induction false} FoundIffContained(s: string, pat: string)
    ensures Find(s, pat) >= 0 <==> Contains(s, pat)
  {
    FindIsFirst(s, pat);
  }

  /** A character that is not in the pattern, added at the end, makes no difference. */
  lemma {:induction false} ContainedBeforeEnd(s: string, c: char, pat: string)
    requires pat != "" && c !in pat
    ensures Contains(s + [c], pat) <==> Contains(s, pat)
  {
    var t := s + [c];
    if i: nat :| OccursAt(s, pat, i) {
      assert t[i..i + |pat|] == s[i..i + |pat|];
      assert OccursAt(t, pat, i);
    }
    if i: nat :| OccursAt(t, pat, i) {
      assert t[i..i + |pat|][|pat| - 1] == t[i + |pat| - 1];
      assert pat[|pat| - 1] in pat;
      assert t[i..i + |pat|] == s[i..i + |pat|];
      assert OccursAt(s, pat, i);
    }
  }

  /** A pattern is found at a place if it occurs there and nowhere before. */
  lemma {:induction false} FoundAt(s: string, pat: string, at: nat)
    requires OccursAt(s, pat, at) && forall i: nat :: i < at ==> !OccursAt(s, pat, i)
    ensures Find(s, pat) == at
  {
    FindIsFirst(s, pat);
  }

  /** `strchr`: the first occurrence of one character at or after a position, or -1. */
  function IndexOf(s: string, c: char): (r: int)
    ensures -1 <= r < |s|
    ensures r >= 0 ==> s[r] == c && c !in s[..r]
    ensures r < 0 ==> c !in s
  {
    if s == "" then -1
    else if s[0] == c then 0
    else var r := IndexOf(s[1..], c);
      assert s == [s[0]] + s[1..];
      if r < 0 then -1 else assert s[..r + 1] == [s[0]] + s[1..][..r]; r + 1
  }

  lemma {:induction false} IndexAfter(a: string, c: char, b: string)
    requires c !in a
    ensures IndexOf(a + [c] + b, c) == |a|
  {
    if a != "" {
      assert (a + [c] + b)[1..] == a[1..] + [c] + b;
      IndexAfter(a[1..], c, b);
    }
  }
}

/** `RequestInfo::parse` and `parseHeaders`. */
module HttpParse {
  import opened Delimited
  import opened Text

  datatype RequestType = UNDEFINED | GET | GET_WS

  type Headers = map<string, string>

  const MAX_PATH_LEN := 1024

  // std::getline

  function LineOf(s: string): (line: string)
    ensures |line| <= |s|
  {
    var i := IndexOf(s, '\n');
    if i < 0 then s else s[..i]
  }

  function AfterLine(s: string): (rest: string)
    ensures s != "" ==> |rest| < |s|
  {
    var i := IndexOf(s, '\n');
    if i < 0 then "" else s[i + 1..]
  }

  lemma {:induction false} LineSplit(line: string, rest: string)
    requires '\n' !in line
    ensures LineOf(line + "\n" + rest) == line && AfterLine(line + "\n" + rest) == rest
    ensures line + "\n" + rest != ""
  {
    IndexAfter(line, '\n', rest);
  }

  /** `std::map::emplace`: an existing entry stays. */
  function Emplace(m: Headers, key: string, value: string): Headers
  {
    if key in m then m else m[key := value]
  }

  /** The header lines of a request, up to the first line without ": ". */
  function HeaderLines(s: string, headers: Headers): Headers
    decreases |s|
  {
    if s == "" then headers else
      var line := LineOf(s);
      var pos := Find(line, ": ");
      if pos < 0 then headers
      else HeaderLines(AfterLine(s), Emplace(headers, line[..pos], line[pos + 2..]))
  }

  /** The first line without ": " ends the headers, whatever follows. */
  lemma {:induction false} HeadersEnd(line: string, rest: string, headers: Headers)
    requires '\n' !in line && !Contains(line, ": ")
    ensures HeaderLines(line + "\n" + rest, headers) == headers
  {
    hide Find;
    LineSplit(line, rest);
    FoundIffContained(line, ": ");
  }

  method ParseHeaders(request: string, headers: Headers) returns (r: Headers)
    ensures r == HeaderLines(AfterLine(request), headers)
  {
    var rest := AfterLine(request);
    r := headers;
    while rest != ""
      invariant HeaderLines(rest, r) == HeaderLines(AfterLine(request), headers)
      decreases |rest|
    {
      var line := LineOf(rest);
      rest := AfterLine(rest);
      var pos := Find(line, ": ");
      if pos < 0 {
        return;
      }
      r := Emplace(r, line[..pos], line[pos + 2..]);
    }
  }

  predicate HasField(headers: Headers, key: string, value: string)
  {
    key in headers && Find(headers[key], value) >= 0
  }

  predicate IsWsRequest(headers: Headers)
  {
    && HasField(headers, "Upgrade", "websocket")
    && (HasField(headers, "Connection", "Upgrade") || HasField(headers, "Connection", "upgrade"))
    && "Sec-WebSocket-Key" in headers
  }

  /** A WebSocket upgrade, from what the header fields contain. */
  ghost predicate AreUpgrade(headers: Headers)
  {
    && "Upgrade" in headers && Contains(headers["Upgrade"], "websocket")
    && "Connection" in headers
    && (Contains(headers["Connection"], "Upgrade") || Contains(headers["Connection"], "upgrade"))
    && "Sec-WebSocket-Key" in headers
  }

  lemma {:induction false} IsWsRequestIff(headers: Headers)
    ensures IsWsRequest(headers) <==> AreUpgrade(headers)
  {
    hide Contains;
    if "Upgrade" in headers { FoundIffContained(headers["Upgrade"], "websocket"); }
    if "Connection" in headers {
      FoundIffContained(headers["Connection"], "Upgrade");
      FoundIffContained(headers["Connection"], "upgrade");
    }
  }

  datatype ParseError = TooShort | UnsupportedType | NoPath | NoVersion

  datatype Target = Target(path: string) | Bad(error: ParseError)

  /** Path part of the request line: between the first two spaces, without the query. */
  function TargetOf(text: string, len: nat): Target
  {
    if len < 3 then Bad(TooShort)
    else if !("GET" <= text) then Bad(UnsupportedType)
    else
      var sp := IndexOf(text, ' ');
      if sp < 0 then Bad(NoPath) else
        var after := text[sp + 1..];
        var end := IndexOf(after, ' ');
        if end < 0 then Bad(NoVersion) else Target(UpTo(after[..end], '?'))
  }

  /** Three parts with single spaces in between, the first two without spaces. */
  predicate SpacedAs(text: string, first: string, second: string, rest: string)
  {
    text == first + " " + (second + " " + rest) && ' ' !in first && ' ' !in second
  }

  lemma {:induction false} SpacedTarget(text: string, len: nat, first: string, second: string, rest: string)
    requires len >= 3 && "GET" <= text && SpacedAs(text, first, second, rest)
    ensures TargetOf(text, len) == Target(UpTo(second, '?'))
  {
    hide UpTo;
    hide IndexOf;
    var after := second + [' '] + rest;
    assert text == first + [' '] + after;
    IndexAfter(first, ' ', after);
    assert text[|first| + 1..] == after;
    IndexAfter(second, ' ', rest);
    assert after[..|second|] == second;
  }

  lemma {:induction false} SplitAt(s: string, i: nat, c: char)
    requires i < |s| && s[i] == c
    ensures s == s[..i] + ([c] + s[i + 1..])
  {
  }

  lemma {:induction false} TargetIsSpaced(text: string, len: nat) returns (first: string, second: string, rest: string)
    requires TargetOf(text, len).Target?
    ensures SpacedAs(text, first, second, rest)
  {
    hide UpTo;
    hide IndexOf;
    var sp := IndexOf(text, ' ');
    var after := text[sp + 1..];
    var end := IndexOf(after, ' ');
    first, second, rest := text[..sp], after[..end], after[end + 1..];
    SplitAt(text, sp, ' ');
    SplitAt(after, end, ' ');
    Respaced(text, first, second, rest);
  }

  lemma {:induction false} Respaced(text: string, first: string, second: string, rest: string)
    requires text == first + ([' '] + (second + ([' '] + rest)))
    ensures text == first + " " + (second + " " + rest)
  {
  }

  lemma {:induction false} TargetErrors(text: string, len: nat)
    ensures var r := TargetOf(text, len);
      && (r == Bad(TooShort) <==> len < 3)
      && (len >= 3 ==> (r == Bad(UnsupportedType) <==> !("GET" <= text)))
      && (len >= 3 && "GET" <= text ==> (r == Bad(NoPath) <==> ' ' !in text))
  {
    hide UpTo;
  }

  /**
   The request line, told from the text: which texts are rejected, and why, and that otherwise the path is what lies
   between the first two spaces, up to a question mark.
   */
  lemma {:induction false} TargetSpec(text: string, len: nat)
    ensures var r := TargetOf(text, len);
      && (r == Bad(TooShort) <==> len < 3)
      && (len >= 3 ==> (r == Bad(UnsupportedType) <==> !("GET" <= text)))
      && (len >= 3 && "GET" <= text ==> (r == Bad(NoPath) <==> ' ' !in text))
      && (len >= 3 && "GET" <= text ==>
            forall first, second, rest :: SpacedAs(text, first, second, rest) ==> r == Target(UpTo(second, '?')))
      && (r.Target? ==> exists first, second, rest :: SpacedAs(text, first, second, rest))
  {
    hide TargetOf;
    hide UpTo;
    hide SpacedAs;
    TargetErrors(text, len);
    forall first, second, rest | len >= 3 && "GET" <= text && SpacedAs(text, first, second, rest)
      ensures TargetOf(text, len) == Target(UpTo(second, '?'))
    {
      SpacedTarget(text, len, first, second, rest);
    }
    if TargetOf(text, len).Target? {
      var first, second, rest := TargetIsSpaced(text, len);
    }
  }

  /** A request whose path overruns the fixed path array is outside the contract of `parse`. */
  predicate PathFits(text: string, len: nat)
  {
    TargetOf(text, len).Target? ==> |TargetOf(text, len).path| < MAX_PATH_LEN
  }

  class RequestInfo {
    var requestType: RequestType
    var path: string
    var headers: Headers

    constructor ()
      ensures requestType == UNDEFINED && path == "" && headers == map[]
    {
      requestType, path, headers := UNDEFINED, "", map[];
    }

    /** `parse`; `request` is the buffer up to its first NUL. */
    method Parse(request: string, len: nat) returns (result: Target)
      requires '\0' !in request && PathFits(request, len)
      modifies this
      ensures result == TargetOf(request, len)
      ensures result.Target? ==>
                && path == result.path
                && headers == HeaderLines(AfterLine(request), old(headers))
                && requestType == (if IsWsRequest(headers) then GET_WS else GET)
                && (requestType == GET_WS <==> AreUpgrade(headers))
      ensures result.Bad? ==>
                && headers == old(headers) && path == old(path)
                && requestType == if result.error in {NoPath, NoVersion} then GET else old(requestType)
    {
      hide HeaderLines;
      hide HasField;
      if len < 3 {
        return Bad(TooShort);
      }
      if !("GET" <= request) {
        return Bad(UnsupportedType);
      }
      requestType := GET;
      var sp := IndexOf(request, ' ');
      if sp < 0 {
        return Bad(NoPath);
      }
      var after := request[sp + 1..];
      var end := IndexOf(after, ' ');
      if end < 0 {
        return Bad(NoVersion);
      }
      path := CopyPath(after[..end]);
      headers := ParseHeaders(request, headers);
      IsWsRequestIff(headers);
      hide AreUpgrade;
      if IsWsRequest(headers) {
        requestType := GET_WS;
      }
      result := Target(path);
    }
  }

  /** The copy loop of `parse`: stops at a question mark. */
  method CopyPath(target: string) returns (path: string)
    ensures path == UpTo(target, '?')
  {
    path := "";
    var cur := 0;
    while cur < |target| && target[cur] != '?'
      invariant 0 <= cur <= |target| && path == target[..cur] && '?' !in path
    {
      path := path + [target[cur]];
      cur := cur + 1;
    }
    if cur < |target| {
      assert target == target[..cur] + ['?'] + target[cur + 1..];
      UpToEnd(path, '?', target[cur + 1..]);
    } else {
      assert target[..cur] == target;
    }
  }

  // Printing a request

  datatype Query = NoQuery | Query(text: string)

  datatype Request = Request(path: string, query: Query, headers: seq<(string, string)>)

  predicate Free(s: string, c: char)
  {
    c !in s
  }

  predicate Printable(r: Request)
  {
    && Free(r.path, ' ') && Free(r.path, '?') && Free(r.path, '\n') && Free(r.path, '\0')
    && (r.query.Query? ==> Free(r.query.text, ' ') && Free(r.query.text, '\n') && Free(r.query.text, '\0'))
    && (forall i :: 0 <= i < |r.headers| ==> PrintableHeader(r.headers[i]))
  }

  predicate PrintableHeader(h: (string, string))
  {
    && Free(h.0, '\n') && Free(h.0, '\0') && Find(h.0, ": ") < 0
    && Free(h.1, '\n') && Free(h.1, '\0')
  }

  function TargetText(r: Request): string
  {
    r.path + (if r.query.Query? then "?" + r.query.text else "")
  }

  function HeaderText(hs: seq<(string, string)>): string
  {
    if hs == [] then "\r\n" else hs[0].0 + ": " + hs[0].1 + "\r\n" + HeaderText(hs[1..])
  }

  function Print(r: Request): string
  {
    "GET " + TargetText(r) + " HTTP/1.1\r\n" + HeaderText(r.headers)
  }

  /** The first value given for each key, as the parser stores it: with the carriage return. */
  function FirstValues(hs: seq<(string, string)>, m: Headers): Headers
    decreases |hs|
  {
    if hs == [] then m else FirstValues(hs[1..], Emplace(m, hs[0].0, hs[0].1 + "\r"))
  }

  /** Which entry of the list the map holds for a key. */
  lemma {:induction false} FirstValuesSpec(hs: seq<(string, string)>, m: Headers, key: string)
    ensures var r := FirstValues(hs, m);
      && (key in r <==> key in m || exists i :: 0 <= i < |hs| && hs[i].0 == key)
      && (key in m ==> key in r && r[key] == m[key])
      && (forall i :: 0 <= i < |hs| && key !in m && hs[i].0 == key && (forall j :: 0 <= j < i ==> hs[j].0 != key) ==>
            key in r && r[key] == hs[i].1 + "\r")
    decreases |hs|
  {
    if hs != [] {
      var m1 := Emplace(m, hs[0].0, hs[0].1 + "\r");
      FirstValuesSpec(hs[1..], m1, key);
      assert hs == [hs[0]] + hs[1..];
      forall i | 0 <= i < |hs| && key !in m && hs[i].0 == key && (forall j :: 0 <= j < i ==> hs[j].0 != key)
        ensures key in FirstValues(hs, m) && FirstValues(hs, m)[key] == hs[i].1 + "\r"
      {
        if i > 0 {
          assert hs[1..][i - 1] == hs[i];
          assert forall j :: 0 <= j < i - 1 ==> hs[1..][j] == hs[j + 1];
        }
      }
    }
  }

  lemma {:induction false} DelimiterAfterKey(key: string, value: string)
    requires Find(key, ": ") < 0
    ensures Find(key + ": " + value, ": ") == |key|
  {
    var s := key + ": " + value;
    FindIsFirst(key, ": ");
    assert s[|key|..|key| + 2] == ": ";
    forall i: nat | i < |key|
      ensures !OccursAt(s, ": ", i)
    {
      if i + 2 <= |key| {
        assert s[i..i + 2] == key[i..i + 2];
        assert !OccursAt(key, ": ", i);
      } else {
        assert s[i..i + 2][1] == ':';
      }
    }
    FoundAt(s, ": ", |key|);
  }

  lemma {:induction false} HeaderLineRead(h: (string, string), rest: string, m: Headers)
    requires PrintableHeader(h)
    ensures HeaderLines(h.0 + ": " + h.1 + "\r\n" + rest, m) == HeaderLines(rest, Emplace(m, h.0, h.1 + "\r"))
  {
    var line := h.0 + ": " + (h.1 + "\r");
    var s := h.0 + ": " + h.1 + "\r\n" + rest;
    assert s == line + "\n" + rest;
    LineSplit(line, rest);
    DelimiterAfterKey(h.0, h.1 + "\r");
    assert line[..|h.0|] == h.0 && line[|h.0| + 2..] == h.1 + "\r";
  }

  lemma {:induction false} HeadersRoundTrip(hs: seq<(string, string)>, m: Headers)
    requires forall i :: 0 <= i < |hs| ==> PrintableHeader(hs[i])
    ensures HeaderLines(HeaderText(hs), m) == FirstValues(hs, m)
    decreases |hs|
  {
    if hs == [] {
      LineSplit("\r", "");
      assert "\r" + "\n" + "" == "\r\n";
      FindIsFirst("\r", ": ");
    } else {
      HeaderLineRead(hs[0], HeaderText(hs[1..]), m);
      HeadersRoundTrip(hs[1..], Emplace(m, hs[0].0, hs[0].1 + "\r"));
    }
  }

  /** The text between the first two spaces, up to a question mark. */
  lemma {:induction false} TargetBetween(t: string, tail: string, len: nat)
    requires ' ' !in t && len >= 3
    ensures TargetOf("GET" + [' '] + (t + [' '] + tail), len) == Target(UpTo(t, '?'))
  {
    hide UpTo;
    hide IndexOf;
    var s := "GET" + [' '] + (t + [' '] + tail);
    IndexAfter("GET", ' ', t + [' '] + tail);
    assert s[4..] == t + [' '] + tail;
    IndexAfter(t, ' ', tail);
    assert (t + [' '] + tail)[..|t|] == t;
  }

  lemma {:induction false} QueryCutOff(r: Request)
    requires Printable(r)
    ensures ' ' !in TargetText(r) && UpTo(TargetText(r), '?') == r.path
  {
    hide IndexOf;
    var t := TargetText(r);
    if r.query.Query? {
      assert t == r.path + ['?'] + r.query.text;
      UpToEnd(r.path, '?', r.query.text);
    } else {
      assert t == r.path;
    }
  }

  lemma {:induction false} TargetRoundTrip(r: Request, len: nat)
    requires Printable(r) && len >= 3
    ensures TargetOf(Print(r), len) == Target(r.path)
  {
    hide HeaderText;
    hide TargetText;
    hide TargetOf;
    hide UpTo;
    hide Printable;
    QueryCutOff(r);
    var t, tail := TargetText(r), "HTTP/1.1\r\n" + HeaderText(r.headers);
    assert Print(r) == "GET" + [' '] + (t + [' '] + tail);
    TargetBetween(t, tail, len);
  }

  lemma {:induction false} HeaderTextNulFree(hs: seq<(string, string)>)
    requires forall i :: 0 <= i < |hs| ==> PrintableHeader(hs[i])
    ensures '\0' !in HeaderText(hs)
    decreases |hs|
  {
    if hs != [] { HeaderTextNulFree(hs[1..]); }
  }

  lemma {:induction false} PrintNulFree(r: Request)
    requires Printable(r)
    ensures '\0' !in Print(r) && |Print(r)| >= 3
  {
    hide HeaderText;
    HeaderTextNulFree(r.headers);
  }

  lemma {:induction false} BodyOfPrint(r: Request)
    requires Printable(r)
    ensures AfterLine(Print(r)) == HeaderText(r.headers)
  {
    hide HeaderText;
    hide AfterLine;
    var line := "GET " + TargetText(r) + " HTTP/1.1\r";
    assert Print(r) == line + "\n" + HeaderText(r.headers);
    LineSplit(line, HeaderText(r.headers));
  }

  /**
   Print/parse round trip: a fresh parser reads back the path without its query, the first value of every header
   key, and an upgrade request exactly when those first values say so.
   */
  lemma {:induction false} PrintParseRoundTrip(r: Request)
    requires Printable(r)
    ensures '\0' !in Print(r) && |Print(r)| >= 3
    ensures TargetOf(Print(r), |Print(r)|) == Target(r.path)
    ensures HeaderLines(AfterLine(Print(r)), map[]) == FirstValues(r.headers, map[])
  {
    PrintNulFree(r);
    TargetRoundTrip(r, |Print(r)|);
    BodyOfPrint(r);
    HeadersRoundTrip(r.headers, map[]);
    hide Print;
    hide TargetOf;
    hide HeaderLines;
  }

  /** The first header of a name has a value that contains a text. */
  ghost predicate FirstHas(hs: seq<(string, string)>, key: string, text: string)
  {
    exists i :: 0 <= i < |hs| && hs[i].0 == key && Contains(hs[i].1, text) && forall j :: 0 <= j < i ==> hs[j].0 != key
  }

  /** A printed request that asks for a WebSocket. */
  ghost predicate AsksUpgrade(r: Request)
  {
    && FirstHas(r.headers, "Upgrade", "websocket")
    && (FirstHas(r.headers, "Connection", "Upgrade") || FirstHas(r.headers, "Connection", "upgrade"))
    && exists i :: 0 <= i < |r.headers| && r.headers[i].0 == "Sec-WebSocket-Key"
  }

  lemma {:induction false} FirstOf(hs: seq<(string, string)>, key: string, k: nat) returns (i: nat)
    requires k < |hs| && hs[k].0 == key
    ensures i < |hs| && hs[i].0 == key && forall j :: 0 <= j < i ==> hs[j].0 != key
  {
    i := k;
    if j :| 0 <= j < k && hs[j].0 == key {
      i := FirstOf(hs, key, j);
    }
  }

  lemma {:induction false} FirstHasIff(hs: seq<(string, string)>, key: string, text: string)
    requires text != "" && '\r' !in text
    ensures var m := FirstValues(hs, map[]);
      FirstHas(hs, key, text) <==> key in m && Contains(m[key], text)
  {
    hide Contains;
    var m := FirstValues(hs, map[]);
    FirstValuesSpec(hs, map[], key);
    hide FirstValues;
    if key in m {
      var k :| 0 <= k < |hs| && hs[k].0 == key;
      var i := FirstOf(hs, key, k);
      ContainedBeforeEnd(hs[i].1, '\r', text);
      assert m[key] == hs[i].1 + ['\r'];
    }
  }

  /** The parser's verdict on a printed request, told from the request alone. */
  lemma {:induction false} AsksUpgradeIff(r: Request)
    ensures IsWsRequest(FirstValues(r.headers, map[])) <==> AsksUpgrade(r)
  {
    hide FirstValues;
    hide FirstHas;
    hide HasField;
    hide Contains;
    IsWsRequestIff(FirstValues(r.headers, map[]));
    FirstHasIff(r.headers, "Upgrade", "websocket");
    FirstHasIff(r.headers, "Connection", "Upgrade");
    FirstHasIff(r.headers, "Connection", "upgrade");
    FirstValuesSpec(r.headers, map[], "Sec-WebSocket-Key");
  }

  /** The same for the parser object: printing a request and parsing it with a fresh `RequestInfo`. */
  method ParsePrinted(r: Request) returns (info: RequestInfo)
    requires Printable(r) && |r.path| < MAX_PATH_LEN
    ensures fresh(info) && info.path == r.path
    ensures info.headers == FirstValues(r.headers, map[])
    ensures info.requestType == if AsksUpgrade(r) then GET_WS else GET
  {
    hide AsksUpgrade;
    hide AreUpgrade;
    hide HasField;
    PrintParseRoundTrip(r);
    AsksUpgradeIff(r);
    hide Print;
    hide TargetOf;
    hide HeaderLines;
    info := new RequestInfo();
    var result := info.Parse(Print(r), |Print(r)|);
  }
}
