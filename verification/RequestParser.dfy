/** The request parser of ApiGateway.cpp and the incremental gate in front of it. */
module RequestParser {
  import opened Wrappers
  import opened Text
  import opened Http
  import opened SocketCalls

  const MAX_REQUEST_LINE := 8 * 1024

  /** A stretch of the buffer, as the string views of the source. */
  datatype View = View(offset: nat, length: nat)

  datatype RequestLine = RequestLine(verb: Method, path: View, query: View)

  datatype Head = Head(line: RequestLine, fields: Fields, contentLength: nat)

  datatype Outcome =
    | NoTerminator
    | Refused(status: nat)
    | NeedBody(total: nat)
    | Parsed(head: Head, bodyStart: nat)

  /** The request line, cut at its first two spaces; views are offsets into the buffer. */
  function ParseRequestLine(line: string): Result<RequestLine, nat> {
    if |line| > MAX_REQUEST_LINE then Err(414)
    else
      var sp1 := Find(line, " ", 0);
      if sp1 < 0 || sp1 >= |line| then Err(400)
      else
        var sp2 := Find(line, " ", sp1 + 1);
        if sp2 < 0 || sp2 >= |line| then Err(400)
        else
          var target := line[sp1 + 1..sp2];
          if target == "" || target[0] != '/' then Err(400)
          else
            match MethodFromString(line[..sp1])
            case None => Err(400)
            case Some(m) => Ok(RequestLine(m, PathView(target, sp1 + 1), QueryView(target, sp1 + 1)))
  }

  /** The target, which starts at `offset`, up to its first question mark. */
  function PathView(target: string, offset: nat): View {
    var q := Find(target, "?", 0);
    View(offset, if q < 0 || q >= |target| then |target| else q)
  }

  /** What is behind that question mark; an absent query is an empty view. */
  function QueryView(target: string, offset: nat): View {
    var q := Find(target, "?", 0);
    if q < 0 || q >= |target| then View(0, 0) else View(offset + q + 1, |target| - q - 1)
  }

  /** `std::stoul` throws out_of_range from 2^64 on; that and a value over the limit are both 413. */
  function ContentLength(value: string): Result<nat, nat> {
    if value == "" then Ok(0)
    else if !AllDigits(value) then Err(400)
    else if DecValue(value) >= ULONG_LIMIT then Err(413)
    else if DecValue(value) > MAX_BODY then Err(413)
    else Ok(DecValue(value))
  }

  function ParseHead(section: string, order: Order): Result<Head, nat> {
    var ls := Lines(section);
    match ParseRequestLine(ls[0])
    case Err(status) => Err(status)
    case Ok(line) =>
      match FoldFields(ls[1..], [])
      case None => Err(400)
      case Some(fields) =>
        match ContentLength(FindHeader(order(fields), "content-length"))
        case Err(status) => Err(status)
        case Ok(n) => Ok(Head(line, fields, n))
  }

  function TryParse(raw: string, order: Order): Outcome {
    var e := Find(raw, BLANK_LINE, 0);
    if e < 0 || e > |raw| then NoTerminator
    else if e + 4 > MAX_HEADER_SECTION then Refused(431)
    else WithHead(raw, e + 4, ParseHead(raw[..e], order))
  }

  /** What a parsed header section, or one refused, makes of the whole. */
  function WithHead(raw: string, bodyStart: nat, head: Result<Head, nat>): Outcome {
    match head
    case Err(status) => Refused(status)
    case Ok(head) =>
      if |raw| < bodyStart + head.contentLength then NeedBody(bodyStart + head.contentLength)
      else Parsed(head, bodyStart)
  }

  // ---------------------------------------------------------------- the parser as written

  method TryParseRequest(raw: string, order: Order) returns (r: Outcome)
    ensures r == TryParse(raw, order)
  {
    var headerEnd := Find(raw, BLANK_LINE, 0);
    if headerEnd < 0 {
      return NoTerminator;
    }
    if headerEnd + 4 > MAX_HEADER_SECTION {
      return Refused(431);
    }
    var head := ParseHeaderSection(raw[..headerEnd], order);
    if head.Err? {
      return Refused(head.error);
    }
    var total := headerEnd + 4 + head.value.contentLength;
    if |raw| < total {
      return NeedBody(total);
    }
    return Parsed(head.value, headerEnd + 4);
  }

  method ParseHeaderSection(section: string, order: Order) returns (r: Result<Head, nat>)
    ensures r == ParseHead(section, order)
  {
    FirstLine(section);
    var line := ParseRequestLine(LineFrom(section, 0));
    if line.Err? {
      return Err(line.error);
    }
    var fields := HeaderLines(section, NextLine(section, 0));
    if fields.None? {
      return Err(400);
    }
    var contentLength := ContentLength(FindHeader(order(fields.value), "content-length"));
    if contentLength.Err? {
      return Err(contentLength.error);
    }
    return Ok(Head(line.value, fields.value, contentLength.value));
  }

  // ---------------------------------------------------------------- the owned request

  datatype Request = Request(verb: Method, path: string, query: string, fields: Fields, body: string)

  function Slice(s: string, v: View): string {
    if v.offset + v.length <= |s| then s[v.offset..v.offset + v.length] else ""
  }

  /** The request a successful parse describes. */
  function RequestOf(raw: string, head: Head, bodyStart: nat): Request {
    Request(head.line.verb, Slice(raw, head.line.path), Slice(raw, head.line.query), head.fields,
            Slice(raw, View(bodyStart, head.contentLength)))
  }

  /** The offsets handed to the worker: an empty query or body is given a dummy position. */
  function QueryOffset(query: View): nat {
    if query.length == 0 then 0 else query.offset
  }

  function BodyOffset(raw: string, head: Head, bodyStart: nat): nat {
    if head.contentLength == 0 then |raw| else bodyStart
  }

  /** `makeRequest`: path and query are copied, the body is the buffer cut in place. */
  method MakeRequest(m: Method, buffer: string, pathOffset: nat, pathLen: nat, queryOffset: nat, queryLen: nat,
                     bodyOffset: nat, bodyLen: nat, fields: Fields) returns (r: Request)
    requires pathOffset + pathLen <= |buffer| && queryOffset + queryLen <= |buffer|
    requires bodyOffset + bodyLen <= |buffer|
    ensures r == Request(m, buffer[pathOffset..pathOffset + pathLen], buffer[queryOffset..queryOffset + queryLen],
                         fields, buffer[bodyOffset..bodyOffset + bodyLen])
  {
    var path := buffer[pathOffset..pathOffset + pathLen];
    var query := buffer[queryOffset..queryOffset + queryLen];
    var body := "";
    if bodyLen > 0 {
      body := buffer[bodyOffset..];
      body := body[..bodyLen];
    }
    r := Request(m, path, query, fields, body);
  }

  predicate Inside(raw: string, head: Head, bodyStart: nat) {
    && head.line.path.offset + head.line.path.length <= |raw|
    && head.line.query.offset + head.line.query.length <= |raw|
    && bodyStart + head.contentLength <= |raw|
  }

  /** Rebuilding the request from offsets gives the request the views described. */
  method OwnedRequest(buffer: string, head: Head, bodyStart: nat) returns (r: Request)
    requires Inside(buffer, head, bodyStart)
    ensures r == RequestOf(buffer, head, bodyStart)
  {
    r := MakeRequest(head.line.verb, buffer, head.line.path.offset, head.line.path.length,
      QueryOffset(head.line.query), head.line.query.length,
      BodyOffset(buffer, head, bodyStart), head.contentLength, head.fields);
  }

  /** Views of a successful parse lie inside the buffer. */
  lemma ViewsInside(raw: string, order: Order)
    requires TryParse(raw, order).Parsed?
    ensures var h, b := TryParse(raw, order).head, TryParse(raw, order).bodyStart;
            Inside(raw, h, b) && h.line.path.length > 0
  {
    var e := Find(raw, BLANK_LINE, 0);
    LineInside(raw[..e]);
    RequestLineInside(Lines(raw[..e])[0]);
  }

  lemma LineInside(s: string)
    ensures |Lines(s)[0]| <= |s|
    ensures Lines(s)[0] <= s
  {}

  lemma RequestLineInside(line: string)
    requires ParseRequestLine(line).Ok?
    ensures var l := ParseRequestLine(line).value;
            && 0 < l.path.length && l.path.offset + l.path.length <= |line|
            && l.query.offset + l.query.length <= |line|
  {
    var sp1 := Find(line, " ", 0);
    var sp2 := Find(line, " ", sp1 + 1);
    var target := line[sp1 + 1..sp2];
    var q := Find(target, "?", 0);
    if q >= 0 {
      BeforeFirst(target, '?', 0);
    }
  }

  // ---------------------------------------------------------------- the connection

  datatype Verdict = Waiting | Dispatched(request: Request) | Rejected(status: nat)

  /** The part of a connection that reading a request uses. */
  datatype Conn = Conn(buffer: string, scanned: nat, headerParsed: bool, expected: nat)

  const FRESH := Conn("", 0, false, 0)

  /** `hasEnoughBytesToParse`: whether to parse now, or the status of an early rejection. */
  function Gate(c: Conn): Result<bool, nat> {
    if c.headerParsed then Ok(|c.buffer| >= c.expected)
    else if Find(c.buffer, BLANK_LINE, if c.scanned >= 3 then c.scanned - 3 else 0) >= 0 then Ok(true)
    else if |c.buffer| > MAX_REQUEST_LINE + 1 && Find(c.buffer, CRLF, 0) < 0 then Err(414)
    else if |c.buffer| >= MAX_HEADER_SECTION then Err(431)
    else Ok(false)
  }

  function Scanned(c: Conn): Conn {
    if !c.headerParsed && (Gate(c).Err? || !Gate(c).value) then c.(scanned := |c.buffer|) else c
  }

  function Feed(c0: Conn, chunk: string, order: Order): (Verdict, Conn) {
    var c := c0.(buffer := c0.buffer + chunk);
    match Gate(c)
    case Err(status) => (Rejected(status), Scanned(c))
    case Ok(false) => (Waiting, Scanned(c))
    case Ok(true) =>
      match TryParse(c.buffer, order)
      case NoTerminator => (Waiting, c)
      case Refused(status) => (Rejected(status), c)
      case NeedBody(total) => (Waiting, c.(headerParsed := true, expected := total))
      case Parsed(head, bodyStart) => (Dispatched(RequestOf(c.buffer, head, bodyStart)), c.(buffer := ""))
  }

  /** The first verdict other than waiting; what arrives after it is not looked at. */
  function FeedAll(c: Conn, chunks: seq<string>, order: Order): Verdict
    decreases |chunks|
  {
    if chunks == [] then Waiting
    else
      var (verdict, c') := Feed(c, chunks[0], order);
      if verdict == Waiting then FeedAll(c', chunks[1..], order) else verdict
  }

  /** The read side of a connection, updated in place. */
  class Connection {
    var readBuffer: string
    var headerScanOffset: nat
    var headerParsed: bool
    var expectedRequestBytes: nat

    constructor ()
      ensures Value() == FRESH
    {
      readBuffer := "";
      headerScanOffset := 0;
      headerParsed := false;
      expectedRequestBytes := 0;
    }

    function Value(): Conn
      reads this
    {
      Conn(readBuffer, headerScanOffset, headerParsed, expectedRequestBytes)
    }

    method HasEnoughBytesToParse() returns (r: Result<bool, nat>)
      modifies this`headerScanOffset
      ensures r == Gate(old(Value())) && Value() == Scanned(old(Value()))
    {
      if headerParsed {
        return Ok(|readBuffer| >= expectedRequestBytes);
      }
      var resumeFrom := if headerScanOffset >= 3 then headerScanOffset - 3 else 0;
      if Find(readBuffer, BLANK_LINE, resumeFrom) >= 0 {
        return Ok(true);
      }
      headerScanOffset := |readBuffer|;
      if |readBuffer| > MAX_REQUEST_LINE + 1 && Find(readBuffer, CRLF, 0) < 0 {
        return Err(414);
      }
      if |readBuffer| >= MAX_HEADER_SECTION {
        return Err(431);
      }
      return Ok(false);
    }

    /** What one successful `recv` does. */
    method OnBytes(chunk: string, order: Order) returns (v: Verdict)
      modifies this
      ensures (v, Value()) == Feed(old(Value()), chunk, order)
    {
      readBuffer := readBuffer + chunk;
      var enough := HasEnoughBytesToParse();
      if enough.Err? {
        return Rejected(enough.error);
      }
      if !enough.value {
        return Waiting;
      }
      var parsed := TryParseRequest(readBuffer, order);
      match parsed {
        case NoTerminator =>
          return Waiting;
        case Refused(status) =>
          return Rejected(status);
        case NeedBody(total) =>
          headerParsed := true;
          expectedRequestBytes := total;
          return Waiting;
        case Parsed(head, bodyStart) =>
          ViewsInside(readBuffer, order);
          var request := OwnedRequest(readBuffer, head, bodyStart);
          readBuffer := "";
          return Dispatched(request);
      }
    }
  }

  // ---------------------------------------------------------------- chunk independence

  function Concat(chunks: seq<string>): string {
    if chunks == [] then "" else Concat(chunks[..|chunks| - 1]) + chunks[|chunks| - 1]
  }

  /** Some arrival leaves more than a full request line in the buffer and no line end. */
  ghost predicate EarlyLongLine(chunks: seq<string>) {
    exists k :: 0 <= k <= |chunks| && LongLine(Concat(chunks[..k]))
  }

  ghost predicate LongLine(s: string) {
    |s| > MAX_REQUEST_LINE + 1 && CrlfFree(s)
  }

  function VerdictOf(raw: string, outcome: Outcome): Verdict {
    match outcome
    case NoTerminator => Waiting
    case Refused(status) => Rejected(status)
    case NeedBody(_) => Waiting
    case Parsed(head, bodyStart) => Dispatched(RequestOf(raw, head, bodyStart))
  }

  /** What becomes of a byte stream, from the stream and its chunking alone. */
  ghost function Expected(chunks: seq<string>, order: Order): Verdict {
    var raw := Concat(chunks);
    var e := Find(raw, BLANK_LINE, 0);
    if EarlyLongLine(chunks) && (e < 0 || e + 4 > MAX_HEADER_SECTION) then Rejected(414)
    else if e < 0 then (if |raw| >= MAX_HEADER_SECTION then Rejected(431) else Waiting)
    else VerdictOf(raw, TryParse(raw, order))
  }

  ghost predicate SameUpToBody(s: string, t: string, order: Order) {
    match TryParse(s, order)
    case NoTerminator => false
    case Refused(status) => TryParse(t, order) == Refused(status)
    case NeedBody(total) =>
      |s| < total &&
      if |t| < total then TryParse(t, order) == NeedBody(total) else TryParse(t, order).Parsed?
    case Parsed(h, b) => TryParse(t, order) == Parsed(h, b) && RequestOf(s, h, b) == RequestOf(t, h, b)
  }

  /** More bytes behind a complete header section change nothing but how much of the body is there. */
  lemma TryParseExtends(s: string, t: string, order: Order)
    requires s <= t && Find(s, BLANK_LINE, 0) >= 0
    ensures SameUpToBody(s, t, order)
  {
    FindInPrefix(s, t, BLANK_LINE);
    var e := Find(s, BLANK_LINE, 0);
    assert s[..e] == t[..e];
    if TryParse(s, order).Parsed? {
      ViewsInside(s, order);
      var Parsed(h, b) := TryParse(s, order);
      SlicePrefix(s, t, h.line.path);
      SlicePrefix(s, t, h.line.query);
      SlicePrefix(s, t, View(b, h.contentLength));
    }
  }

  lemma SlicePrefix(s: string, t: string, v: View)
    requires s <= t && v.offset + v.length <= |s|
    ensures Slice(s, v) == Slice(t, v)
  {}

  lemma CrlfFreePrefix(s: string, t: string)
    requires s <= t && CrlfFree(t)
    ensures CrlfFree(s)
  {
    CrlfFreeSlice(t, 0, |s|);
    assert t[0..|s|] == s;
  }

  /** A long line that ran past the limit is also what the one-shot parser complains about. */
  lemma LongLineRefused(s: string, raw: string, order: Order)
    requires LongLine(s) && s <= raw && 0 <= Find(raw, BLANK_LINE, 0)
    requires Find(raw, BLANK_LINE, 0) + 4 <= MAX_HEADER_SECTION
    ensures TryParse(raw, order) == Refused(414)
  {
    var e := Find(raw, BLANK_LINE, 0);
    var section := raw[..e];
    BlankLineAt(raw, e);
    if e < |s| - 1 {
      AtPrefix(s, raw, CRLF, e);
    }
    var p := Find(section, CRLF, 0);
    if p >= 0 && p < |s| - 1 {
      AtPrefix(section, raw, CRLF, p);
      AtPrefix(s, raw, CRLF, p);
    }
    assert |Lines(section)[0]| >= |s| - 1;
  }

  lemma NoTerminatorInLine(s: string)
    requires CrlfFree(s)
    ensures Find(s, BLANK_LINE, 0) < 0
  {
    var e := Find(s, BLANK_LINE, 0);
    if e >= 0 { BlankLineAt(s, e); }
  }

  lemma {:induction false} ConcatPrefix(chunks: seq<string>, k: nat)
    requires k <= |chunks|
    ensures Concat(chunks[..k]) <= Concat(chunks)
  {
    if k < |chunks| {
      var init := chunks[..|chunks| - 1];
      assert init[..k] == chunks[..k];
      ConcatPrefix(init, k);
    } else {
      assert chunks[..k] == chunks;
    }
  }

  /** The connection waits for its body, or for its header section to end. */
  ghost predicate Open(c: Conn, order: Order) {
    if c.headerParsed then
      Find(c.buffer, BLANK_LINE, 0) >= 0 && TryParse(c.buffer, order) == NeedBody(c.expected)
    else
      Find(c.buffer, BLANK_LINE, 0) < 0 && c.scanned == |c.buffer| < MAX_HEADER_SECTION
  }

  /** The state of a connection that has not been decided. */
  ghost predicate Undecided(c: Conn, done: seq<string>, order: Order) {
    c.buffer == Concat(done) && Open(c, order) && !EarlyLongLine(done)
  }

  lemma EarlyGrows(done: seq<string>, rest: seq<string>)
    requires EarlyLongLine(done)
    ensures EarlyLongLine(done + rest)
  {
    var k :| 0 <= k <= |done| && LongLine(Concat(done[..k]));
    assert (done + rest)[..k] == done[..k];
  }

  /** Once a line end has arrived no later arrival makes a long line. */
  lemma EarlyStops(done: seq<string>, rest: seq<string>)
    requires !EarlyLongLine(done) && !CrlfFree(Concat(done))
    ensures !EarlyLongLine(done + rest)
  {
    var all := done + rest;
    forall k | 0 <= k <= |all| ensures !LongLine(Concat(all[..k])) {
      if k <= |done| {
        assert all[..k] == done[..k];
      } else {
        assert all[..k][..|done|] == done;
        ConcatPrefix(all[..k], |done|);
        if CrlfFree(Concat(all[..k])) { CrlfFreePrefix(Concat(done), Concat(all[..k])); }
      }
    }
  }

  lemma EarlyLast(done: seq<string>, chunk: string)
    requires !EarlyLongLine(done)
    ensures EarlyLongLine(done + [chunk]) <==> LongLine(Concat(done + [chunk]))
  {
    var all := done + [chunk];
    assert all[..|all|] == all;
    forall k | 0 <= k <= |done| ensures all[..k] == done[..k] {}
  }

  lemma {:induction false} FeedAllFrom(c: Conn, done: seq<string>, rest: seq<string>, order: Order)
    requires Undecided(c, done, order)
    ensures FeedAll(c, rest, order) == Expected(done + rest, order)
    decreases |rest|
  {
    if rest == [] {
      assert done + rest == done;
    } else {
      var now := done + [rest[0]];
      assert now + rest[1..] == done + rest;
      assert now[..|now| - 1] == done;
      ConcatPrefix(done + rest, |now|);
      assert (done + rest)[..|now|] == now;
      var (verdict, c') := Feed(c, rest[0], order);
      if verdict == Waiting {
        StillUndecided(c, done, rest[0], order);
        FeedAllFrom(c', now, rest[1..], order);
      } else {
        Decided(c, done, rest[0], rest[1..], order);
      }
    }
  }

  lemma StillUndecided(c: Conn, done: seq<string>, chunk: string, order: Order)
    requires Undecided(c, done, order) && Feed(c, chunk, order).0 == Waiting
    ensures Undecided(Feed(c, chunk, order).1, done + [chunk], order)
  {
    OneMoreChunk(done, chunk);
    EarlyLast(done, chunk);
    if c.headerParsed {
      StaysOpenInBody(c, chunk, order);
    } else {
      StaysOpenInHeader(c, chunk, order);
    }
  }

  lemma OneMoreChunk(done: seq<string>, chunk: string)
    ensures Concat(done + [chunk]) == Concat(done) + chunk
  {
    assert (done + [chunk])[..|done|] == done;
  }

  /** A request that needs its body needs it until all of it is there. */
  lemma BodyStillDue(s: string, t: string, order: Order, total: nat)
    requires s <= t && Find(s, BLANK_LINE, 0) >= 0 && TryParse(s, order) == NeedBody(total)
    ensures |t| < total ==> TryParse(t, order) == NeedBody(total)
    ensures |t| >= total ==> TryParse(t, order).Parsed?
  {
    TryParseExtends(s, t, order);
  }

  lemma WaitsForBody(c: Conn, chunk: string, order: Order)
    requires c.headerParsed && Feed(c, chunk, order).0 == Waiting
    requires |c.buffer + chunk| >= c.expected ==> TryParse(c.buffer + chunk, order).Parsed?
    ensures Feed(c, chunk, order).1 == c.(buffer := c.buffer + chunk) && |c.buffer + chunk| < c.expected
  {}

  lemma StaysOpenInBody(c: Conn, chunk: string, order: Order)
    requires Open(c, order) && c.headerParsed && Feed(c, chunk, order).0 == Waiting
    ensures var c' := Feed(c, chunk, order).1;
            Open(c', order) && c'.buffer == c.buffer + chunk && !LongLine(c'.buffer)
  {
    var buffer := c.buffer + chunk;
    FindInPrefix(c.buffer, buffer, BLANK_LINE);
    TerminatedIsNoLine(buffer);
    BodyStillDue(c.buffer, buffer, order, c.expected);
    WaitsForBody(c, chunk, order);
  }

  lemma StaysOpenInHeader(c: Conn, chunk: string, order: Order)
    requires Open(c, order) && !c.headerParsed && Feed(c, chunk, order).0 == Waiting
    ensures var c' := Feed(c, chunk, order).1;
            Open(c', order) && c'.buffer == c.buffer + chunk && !LongLine(c'.buffer)
  {
    var buffer := c.buffer + chunk;
    ScanResumes(c, buffer);
    if Find(buffer, BLANK_LINE, 0) >= 0 {
      TerminatedIsNoLine(buffer);
      TerminatedIsParsed(buffer, order);
      WaitsWithHeader(c, chunk, order);
    } else {
      WaitsForHeader(c, chunk, order);
    }
  }

  lemma TerminatedIsParsed(raw: string, order: Order)
    requires Find(raw, BLANK_LINE, 0) >= 0
    ensures TryParse(raw, order) != NoTerminator
  {}

  lemma WaitsWithHeader(c: Conn, chunk: string, order: Order)
    requires !c.headerParsed && Gate(c.(buffer := c.buffer + chunk)) == Ok(true)
    requires Feed(c, chunk, order).0 == Waiting && TryParse(c.buffer + chunk, order) != NoTerminator
    ensures TryParse(c.buffer + chunk, order).NeedBody?
    ensures Feed(c, chunk, order).1 ==
            Conn(c.buffer + chunk, c.scanned, true, TryParse(c.buffer + chunk, order).total)
  {}

  lemma WaitsForHeader(c: Conn, chunk: string, order: Order)
    requires !c.headerParsed && Feed(c, chunk, order).0 == Waiting
    requires var buffer := c.buffer + chunk; Find(buffer, BLANK_LINE, if c.scanned >= 3 then c.scanned - 3 else 0) < 0
    ensures var buffer := c.buffer + chunk;
            Feed(c, chunk, order).1 == c.(buffer := buffer, scanned := |buffer|) && |buffer| < MAX_HEADER_SECTION
    ensures !LongLine(c.buffer + chunk)
  {}

  lemma TerminatedIsNoLine(s: string)
    requires Find(s, BLANK_LINE, 0) >= 0
    ensures !LongLine(s)
  {
    if CrlfFree(s) { NoTerminatorInLine(s); }
  }

  lemma ScanResumes(c: Conn, buffer: string)
    requires c.buffer <= buffer && !c.headerParsed && Find(c.buffer, BLANK_LINE, 0) < 0 && c.scanned == |c.buffer|
    ensures Find(buffer, BLANK_LINE, if c.scanned >= 3 then c.scanned - 3 else 0) == Find(buffer, BLANK_LINE, 0)
  {
    assert buffer[..c.scanned] == c.buffer;
    FindResumes(buffer, BLANK_LINE, c.scanned, if c.scanned >= 3 then c.scanned - 3 else 0);
  }

  lemma Decided(c: Conn, done: seq<string>, chunk: string, rest: seq<string>, order: Order)
    requires Undecided(c, done, order) && Feed(c, chunk, order).0 != Waiting
    ensures Feed(c, chunk, order).0 == Expected(done + [chunk] + rest, order)
  {
    var now := done + [chunk];
    OneMoreChunk(done, chunk);
    EarlyLast(done, chunk);
    assert (now + rest)[..|now|] == now;
    ConcatPrefix(now + rest, |now|);
    DecidedByGateOrParser(c, chunk, order);
    if Find(Concat(now), BLANK_LINE, 0) >= 0 {
      DecidedByParser(now, rest, order);
    } else {
      RejectedByGate(now, rest, order);
    }
  }

  /** What the connection decides on depends on the terminator being there. */
  lemma DecidedByGateOrParser(c: Conn, chunk: string, order: Order)
    requires Open(c, order) && Feed(c, chunk, order).0 != Waiting
    ensures var buffer := c.buffer + chunk;
            Feed(c, chunk, order).0 ==
              if Find(buffer, BLANK_LINE, 0) >= 0 then VerdictOf(buffer, TryParse(buffer, order))
              else if LongLine(buffer) then Rejected(414) else Rejected(431)
    ensures Find(c.buffer + chunk, BLANK_LINE, 0) < 0 && !LongLine(c.buffer + chunk) ==>
              |c.buffer + chunk| >= MAX_HEADER_SECTION
  {
    var buffer := c.buffer + chunk;
    if c.headerParsed { FindInPrefix(c.buffer, buffer, BLANK_LINE); } else { ScanResumes(c, buffer); }
  }

  lemma DecidedByParser(now: seq<string>, rest: seq<string>, order: Order)
    requires Concat(now) <= Concat(now + rest) && Find(Concat(now), BLANK_LINE, 0) >= 0
    requires EarlyLongLine(now) <==> LongLine(Concat(now))
    requires VerdictOf(Concat(now), TryParse(Concat(now), order)) != Waiting
    ensures Expected(now + rest, order) == VerdictOf(Concat(now), TryParse(Concat(now), order))
  {
    var buffer, raw := Concat(now), Concat(now + rest);
    TerminatedIsNoLine(buffer);
    LineEnded(buffer);
    EarlyStops(now, rest);
    FindInPrefix(buffer, raw, BLANK_LINE);
    TryParseExtends(buffer, raw, order);
  }

  lemma LineEnded(s: string)
    requires Find(s, BLANK_LINE, 0) >= 0
    ensures !CrlfFree(s)
  {
    if CrlfFree(s) { NoTerminatorInLine(s); }
  }

  /** The two limits the gate enforces while the header is still arriving. */
  lemma RejectedByGate(now: seq<string>, rest: seq<string>, order: Order)
    requires Concat(now) <= Concat(now + rest) && Find(Concat(now), BLANK_LINE, 0) < 0
    requires LongLine(Concat(now)) <==> EarlyLongLine(now)
    ensures LongLine(Concat(now)) ==> Expected(now + rest, order) == Rejected(414)
    ensures !LongLine(Concat(now)) && |Concat(now)| >= MAX_HEADER_SECTION ==>
              Expected(now + rest, order) == Rejected(431)
  {
    var buffer, raw := Concat(now), Concat(now + rest);
    var e := Find(raw, BLANK_LINE, 0);
    if 0 <= e && e + 4 <= |buffer| { FindShrinks(buffer, raw, BLANK_LINE); }
    if LongLine(buffer) {
      EarlyGrows(now, rest);
      if 0 <= e && e + 4 <= MAX_HEADER_SECTION { LongLineRefused(buffer, raw, order); }
    } else if |buffer| >= MAX_HEADER_SECTION {
      EarlyStops(now, rest);
    }
  }

  /** The verdict on a stream, however it is cut into reads. */
  lemma VerdictOfStream(chunks: seq<string>, order: Order)
    ensures FeedAll(FRESH, chunks, order) == Expected(chunks, order)
  {
    assert Concat([]) == "";
    assert !EarlyLongLine([]);
    FeedAllFrom(FRESH, [], chunks, order);
    assert [] + chunks == chunks;
  }

  /** Chunk independence: on a stream that contains a header terminator the reads lead to the
      verdict of parsing the whole stream at once, unless the header section is over its limit and
      a long unfinished request line was seen on the way; then 414 is sent instead of 431. */
  lemma ChunkIndependence(chunks: seq<string>, order: Order)
    requires Find(Concat(chunks), BLANK_LINE, 0) >= 0
    ensures var raw := Concat(chunks);
            FeedAll(FRESH, chunks, order) == VerdictOf(raw, TryParse(raw, order)) <==>
            !(EarlyLongLine(chunks) && Find(raw, BLANK_LINE, 0) + 4 > MAX_HEADER_SECTION)
  {
    VerdictOfStream(chunks, order);
  }

  // ---------------------------------------------------------------- reads that show the difference

  /** A request line of 48005 bytes that ends with the header section, in four reads. */
  function LongLineReads(): (chunks: seq<string>)
    ensures forall i :: 0 <= i < |chunks| ==> 0 < |chunks[i]| <= READ_CHUNK
  {
    ["GET /" + Letters(16000), Letters(16000), Letters(16000), BLANK_LINE]
  }

  function Letters(n: nat): (s: string)
    ensures |s| == n && Free(s, '\r')
  {
    seq(n, _ => 'a')
  }

  /** The first of these reads is answered with 414; parsed at once the whole would be 431. */
  lemma LongLineMasksLargeHeader(order: Order)
    ensures FeedAll(FRESH, LongLineReads(), order) == Rejected(414)
    ensures TryParse(Concat(LongLineReads()), order) == Refused(431)
  {
    var a := "GET /" + Letters(16000);
    assert Free(a, '\r');
    UnfinishedLine(a, order);
    assert FeedAll(FRESH, LongLineReads(), order) == Rejected(414);
    LateTerminator(a, Letters(16000), Letters(16000), order);
  }

  lemma UnfinishedLine(a: string, order: Order)
    requires Free(a, '\r') && |a| > MAX_REQUEST_LINE + 1
    ensures Feed(FRESH, a, order).0 == Rejected(414)
  {
    assert "" + a == a;
    NoLineEnd(a, 0);
  }

  lemma NoLineEnd(a: string, from: nat)
    requires Free(a, '\r')
    ensures Find(a, CRLF, from) < 0 && Find(a, BLANK_LINE, from) < 0
  {
    forall i ensures !At(a, CRLF, i) && !At(a, BLANK_LINE, i) {
      CrlfAt(a, i);
      BlankLineAt(a, i);
    }
  }

  lemma LateTerminator(a: string, b: string, c: string, order: Order)
    requires Free(a, '\r') && Free(b, '\r') && Free(c, '\r') && |a| + |b| + |c| + 4 > MAX_HEADER_SECTION
    ensures TryParse(Concat([a, b, c, BLANK_LINE]), order) == Refused(431)
  {
    var line := a + b + c;
    assert [a, b, c, BLANK_LINE][..3] == [a, b, c] && [a, b, c][..2] == [a, b] && [a, b][..1] == [a] && [a][..0] == [];
    assert Concat([a]) == Concat([]) + a == a;
    assert Concat([a, b]) == a + b;
    assert Concat([a, b, c]) == line;
    FirstBlankLine(line);
  }

  lemma FirstBlankLine(line: string)
    requires Free(line, '\r')
    ensures Find(line + BLANK_LINE, BLANK_LINE, 0) == |line|
  {
    var s := line + BLANK_LINE;
    assert s[|line|..|line| + 4] == BLANK_LINE;
    forall i | 0 <= i < |line| ensures !At(s, BLANK_LINE, i) {
      BlankLineAt(s, i);
      CrlfAt(s, i);
    }
    FindIs(s, BLANK_LINE, 0, |line|);
  }
}
