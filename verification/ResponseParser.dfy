/** `tryParseResponse` and the receive side of HttpClient.cpp. */
module ResponseParser {
  import opened Wrappers
  import opened Text
  import opened Http
  import opened SocketCalls

  const MAX_RESPONSE := MAX_HEADER_SECTION + MAX_BODY
  const INT_MAX := 0x7FFF_FFFF

  datatype Response = Response(status: nat, reason: string, fields: Fields, body: string)

  datatype Outcome = Incomplete | Malformed | Complete(response: Response)

  datatype StatusLine = StatusLine(status: nat, reason: string)

  /** Version, code and reason; the reason may be missing altogether. */
  function ParseStatusLine(line: string): Option<StatusLine> {
    var sp1 := Find(line, " ", 0);
    if sp1 < 0 || sp1 >= |line| then None
    else
      var sp2 := Find(line, " ", sp1 + 1);
      var code := if sp2 < 0 || sp2 >= |line| then line[sp1 + 1..] else line[sp1 + 1..sp2];
      if code == "" || !AllDigits(code) || DecValue(code) > INT_MAX then None
      else Some(StatusLine(DecValue(code), Behind(line, sp2)))
  }

  /** What follows a space that was found, or nothing. */
  function Behind(line: string, space: int): string {
    if space < 0 || space >= |line| then "" else line[space + 1..]
  }

  /** A missing Content-Length means an empty body; an empty, non-decimal or too large one is an
      error. */
  function BodyLength(field: Option<Field>): Option<nat> {
    match field
    case None => Some(0)
    case Some(f) =>
      if f.value == "" || !AllDigits(f.value) then None
      else if DecValue(f.value) >= ULONG_LIMIT || DecValue(f.value) > MAX_BODY then None
      else Some(DecValue(f.value))
  }

  datatype Head = Head(line: StatusLine, fields: Fields, length: nat)

  function ParseHead(section: string, order: Order): Option<Head> {
    var ls := Lines(section);
    match ParseStatusLine(ls[0])
    case None => None
    case Some(line) =>
      match FoldFields(ls[1..], [])
      case None => None
      case Some(fields) =>
        match BodyLength(FindField(order(fields), "content-length"))
        case None => None
        case Some(n) => Some(Head(line, fields, n))
  }

  function TryParse(raw: string, order: Order): (r: Outcome)
    ensures r.Complete? ==> 0 <= Find(raw, BLANK_LINE, 0) && Find(raw, BLANK_LINE, 0) + 4 + |r.response.body| <= |raw|
  {
    var e := Find(raw, BLANK_LINE, 0);
    if e < 0 || e + 4 > |raw| then
      if |raw| > MAX_HEADER_SECTION then Malformed else Incomplete
    else
      WithHead(raw, e + 4, ParseHead(raw[..e], order))
  }

  /** What a parsed header section, or a malformed one, makes of the whole. */
  function WithHead(raw: string, bodyStart: nat, head: Option<Head>): Outcome
    requires bodyStart <= |raw|
  {
    match head
    case None => Malformed
    case Some(h) =>
      if |raw| - bodyStart < h.length then Incomplete
      else Complete(Response(h.line.status, Trim(h.line.reason), h.fields, raw[bodyStart..bodyStart + h.length]))
  }

  /** A terminated message is its head and what follows. */
  lemma HeadFound(raw: string, order: Order)
    ensures var e := Find(raw, BLANK_LINE, 0);
            TryParse(raw, order) ==
              if e < 0 then (if |raw| > MAX_HEADER_SECTION then Malformed else Incomplete)
              else WithHead(raw, e + 4, ParseHead(raw[..e], order))
  {}

  method TryParseResponse(raw: string, order: Order) returns (r: Outcome)
    ensures r == TryParse(raw, order)
  {
    var headerEnd := Find(raw, BLANK_LINE, 0);
    HeadFound(raw, order);
    if headerEnd < 0 {
      return if |raw| > MAX_HEADER_SECTION then Malformed else Incomplete;
    }
    r := ParseTerminated(raw, headerEnd, order);
  }

  /** A response whose header section ends at `headerEnd`. */
  method ParseTerminated(raw: string, headerEnd: nat, order: Order) returns (r: Outcome)
    requires headerEnd + 4 <= |raw|
    ensures r == WithHead(raw, headerEnd + 4, ParseHead(raw[..headerEnd], order))
  {
    var head := ParseHeaderSection(raw[..headerEnd], order);
    if head.None? {
      return Malformed;
    }
    r := TakeBody(raw, headerEnd + 4, head.value);
  }

  /** The body, once all of it is there. */
  method TakeBody(raw: string, bodyStart: nat, head: Head) returns (r: Outcome)
    requires bodyStart <= |raw|
    ensures r == WithHead(raw, bodyStart, Some(head))
  {
    if |raw| - bodyStart < head.length {
      return Incomplete;
    }
    var reason := TrimView(head.line.reason);
    r := Complete(Response(head.line.status, reason, head.fields, raw[bodyStart..bodyStart + head.length]));
  }

  method ParseHeaderSection(section: string, order: Order) returns (r: Option<Head>)
    ensures r == ParseHead(section, order)
  {
    FirstLine(section);
    var line := ParseStatusLine(LineFrom(section, 0));
    if line.None? {
      return None;
    }
    var fields := HeaderLines(section, NextLine(section, 0));
    if fields.None? {
      return None;
    }
    var length := BodyLength(FindField(order(fields.value), "content-length"));
    if length.None? {
      return None;
    }
    return Some(Head(line.value, fields.value, length.value));
  }

  // ---------------------------------------------------------------- receiving

  datatype Progress = Receiving(buffer: string) | Done(response: Response) | Failed

  /** What one successful `recv` does to a client that is receiving. */
  function ReceiveChunk(buffer: string, chunk: string, order: Order): Progress {
    var raw := buffer + chunk;
    if |raw| > MAX_RESPONSE then Failed else ProgressOf(raw, TryParse(raw, order))
  }

  function ProgressOf(raw: string, outcome: Outcome): Progress {
    match outcome
    case Malformed => Failed
    case Complete(response) => Done(response)
    case Incomplete => Receiving(raw)
  }

  function ReceiveAll(buffer: string, chunks: seq<string>, order: Order): Progress
    decreases |chunks|
  {
    if chunks == [] then Receiving(buffer)
    else
      match ReceiveChunk(buffer, chunks[0], order)
      case Receiving(raw) => ReceiveAll(raw, chunks[1..], order)
      case p => p
  }

  function Concat(chunks: seq<string>): string {
    if chunks == [] then "" else chunks[0] + Concat(chunks[1..])
  }

  /** A message the client accepts and that ends exactly where its body ends. */
  ghost predicate ExactMessage(raw: string, response: Response, order: Order) {
    && TryParse(raw, order) == Complete(response)
    && |raw| == Find(raw, BLANK_LINE, 0) + 4 + |response.body|
  }

  lemma SameStart(s: string, t: string, n: nat)
    requires s <= t && n <= |s|
    ensures s[..n] == t[..n]
  {}

  lemma BodyMissing(s: string, raw: string, start: nat, head: Option<Head>, response: Response)
    requires start <= |s| < |raw| == start + |response.body| && WithHead(raw, start, head) == Complete(response)
    ensures WithHead(s, start, head) == Incomplete
  {}

  /** On a strict prefix the parser waits, unless it is a header section that has outgrown its
      limit without having ended. */
  lemma StrictPrefix(raw: string, response: Response, order: Order, s: string)
    requires ExactMessage(raw, response, order) && s < raw
    ensures TryParse(s, order) ==
            if Find(raw, BLANK_LINE, 0) + 4 > |s| && |s| > MAX_HEADER_SECTION then Malformed else Incomplete
  {
    var e := Find(raw, BLANK_LINE, 0);
    if e + 4 <= |s| {
      FindShrinks(s, raw, BLANK_LINE);
      SameStart(s, raw, e);
      HeadFound(s, order);
      HeadFound(raw, order);
      BodyMissing(s, raw, e + 4, ParseHead(raw[..e], order), response);
    } else if Find(s, BLANK_LINE, 0) >= 0 {
      FindInPrefix(s, raw, BLANK_LINE);
    }
  }

  lemma {:induction false} ReceiveFrom(buffer: string, chunks: seq<string>, raw: string, response: Response,
                                       order: Order)
    requires ExactMessage(raw, response, order) && WithinLimits(raw)
    requires buffer < raw && buffer + Concat(chunks) == raw
    ensures ReceiveAll(buffer, chunks, order) == Done(response)
    decreases |chunks|
  {
    assert buffer + "" == buffer;
    if chunks != [] {
      var s := buffer + chunks[0];
      assert s + Concat(chunks[1..]) == raw;
      if s != raw {
        assert s == raw[..|s|];
        StrictPrefix(raw, response, order, s);
        ReceiveFrom(s, chunks[1..], raw, response, order);
      }
    }
  }

  // ---------------------------------------------------------------- reads of limited size

  /** What a sequence of `recv` calls can deliver. */
  ghost predicate Reads(chunks: seq<string>) {
    forall i :: 0 <= i < |chunks| ==> 0 < |chunks[i]| <= READ_CHUNK
  }

  /** A text as it arrives when every read but the last fills its buffer. */
  function FullReads(s: string): (chunks: seq<string>)
    ensures Reads(chunks)
    decreases |s|
  {
    if s == "" then []
    else if |s| <= READ_CHUNK then [s]
    else [s[..READ_CHUNK]] + FullReads(s[READ_CHUNK..])
  }

  lemma {:induction false} ConcatFullReads(s: string)
    ensures Concat(FullReads(s)) == s
    decreases |s|
  {
    if |s| > READ_CHUNK {
      ConcatFullReads(s[READ_CHUNK..]);
    } else if s != "" {
      assert [s][1..] == [] && Concat([s]) == s + "";
    }
  }

  lemma {:induction false} ConcatTwo(a: seq<string>, b: seq<string>)
    ensures Concat(a + b) == Concat(a) + Concat(b)
  {
    if a == [] {
      assert a + b == b;
    } else {
      assert (a + b)[1..] == a[1..] + b;
      ConcatTwo(a[1..], b);
      Regroup(a[0], Concat(a[1..]), Concat(b));
    }
  }

  lemma ConcatLast(chunks: seq<string>, chunk: string)
    ensures Concat(chunks + [chunk]) == Concat(chunks) + chunk
  {
    ConcatTwo(chunks, [chunk]);
    assert [chunk][1..] == [] && Concat([chunk]) == chunk + "";
  }

  /** What one more chunk does to a client that has received `chunks`. */
  lemma {:induction false} ReceiveOneMore(buffer: string, chunks: seq<string>, chunk: string, order: Order, raw: string)
    requires ReceiveAll(buffer, chunks, order) == Receiving(raw)
    ensures ReceiveAll(buffer, chunks + [chunk], order) == ReceiveChunk(raw, chunk, order)
    decreases |chunks|
  {
    var all := chunks + [chunk];
    if chunks == [] {
      assert all[1..] == [];
    } else {
      assert all[1..] == chunks[1..] + [chunk];
      ReceiveOneMore(ReceiveChunk(buffer, chunks[0], order).buffer, chunks[1..], chunk, order, raw);
    }
  }

  /** What has been received is what has been read. */
  lemma {:induction false} ReceivedSoFar(buffer: string, chunks: seq<string>, order: Order)
    requires ReceiveAll(buffer, chunks, order).Receiving?
    ensures ReceiveAll(buffer, chunks, order) == Receiving(buffer + Concat(chunks))
    decreases |chunks|
  {
    if chunks == [] {
      FromNothing(buffer);
      assert buffer + "" == buffer;
    } else {
      ReceivedSoFar(buffer + chunks[0], chunks[1..], order);
      Regroup(buffer, chunks[0], Concat(chunks[1..]));
    }
  }

  lemma Regroup(a: string, b: string, c: string)
    ensures a + (b + c) == a + b + c
  {}

  /** The header section cannot outgrow its limit before it ends, nor the message its own. */
  ghost predicate WithinLimits(raw: string) {
    Find(raw, BLANK_LINE, 0) + 3 <= MAX_HEADER_SECTION && |raw| <= MAX_RESPONSE
  }

  ghost predicate AlwaysReceived(raw: string, response: Response, order: Order) {
    forall chunks :: Reads(chunks) && Concat(chunks) == raw ==> ReceiveAll("", chunks, order) == Done(response)
  }

  /** Chunk independence of receiving: every sequence of reads of the message ends in the same
      complete response exactly when the message is within the limits. */
  lemma ReceiveChunkIndependence(raw: string, response: Response, order: Order)
    requires ExactMessage(raw, response, order)
    ensures AlwaysReceived(raw, response, order) <==> WithinLimits(raw)
  {
    if WithinLimits(raw) {
      forall chunks | Concat(chunks) == raw ensures ReceiveAll("", chunks, order) == Done(response) {
        FromNothing(Concat(chunks));
        ReceiveFrom("", chunks, raw, response, order);
      }
    } else if |raw| > MAX_RESPONSE {
      ConcatFullReads(raw);
      FromNothing(Concat(FullReads(raw)));
      TooLong("", FullReads(raw), raw, response, order);
    } else {
      var chunks := OvergrownHeader(raw, response, order);
    }
  }

  /** A message over the size limit is never received. */
  lemma {:induction false} TooLong(buffer: string, chunks: seq<string>, raw: string, response: Response, order: Order)
    requires ExactMessage(raw, response, order) && |raw| > MAX_RESPONSE
    requires buffer < raw && buffer + Concat(chunks) == raw
    ensures !ReceiveAll(buffer, chunks, order).Done?
    decreases |chunks|
  {
    SomethingLeft(buffer, chunks, raw);
    var s := buffer + chunks[0];
    if |s| < |raw| {
      assert s == raw[..|s|];
      StrictPrefix(raw, response, order, s);
      if ReceiveChunk(buffer, chunks[0], order).Receiving? { TooLong(s, chunks[1..], raw, response, order); }
    } else {
      assert s == raw;
    }
  }

  /** Reads that stop just short of the end of a large header section are fatal: one of the prefixes
      they make is over the limit without a terminator. */
  lemma OvergrownHeader(raw: string, response: Response, order: Order) returns (chunks: seq<string>)
    requires ExactMessage(raw, response, order) && Find(raw, BLANK_LINE, 0) + 3 > MAX_HEADER_SECTION
    ensures Reads(chunks) && Concat(chunks) == raw && ReceiveAll("", chunks, order) == Failed
  {
    var k := Find(raw, BLANK_LINE, 0) + 3;
    var s, t := raw[..k], raw[k..];
    var now, later := FullReads(s), FullReads(t);
    chunks := now + later;
    ConcatFullReads(s);
    ConcatFullReads(t);
    ConcatTwo(now, later);
    Rejoin(raw, k);
    FromNothing(Concat(now));
    OutgrowsOnTheWay("", now, later, raw, s, response, order);
  }

  lemma Rejoin(s: string, k: nat)
    requires k <= |s|
    ensures s[..k] + s[k..] == s && s[..k] <= s
  {}

  lemma FromNothing(s: string)
    ensures "" + s == s
  {}

  lemma {:induction false} OutgrowsOnTheWay(buffer: string, now: seq<string>, later: seq<string>, raw: string,
                                            head: string, response: Response, order: Order)
    requires ExactMessage(raw, response, order) && head <= raw
    requires MAX_HEADER_SECTION < |head| < Find(raw, BLANK_LINE, 0) + 4
    requires |buffer| <= MAX_HEADER_SECTION && buffer + Concat(now) == head
    ensures ReceiveAll(buffer, now + later, order) == Failed
    decreases |now|
  {
    SomethingLeft(buffer, now, head);
    BeforeTheEnd(buffer, now[0], Concat(now[1..]), raw, head, response, order);
    FirstRead(buffer, now, later, order);
    if |buffer + now[0]| <= MAX_HEADER_SECTION {
      OutgrowsOnTheWay(buffer + now[0], now[1..], later, raw, head, response, order);
    }
  }

  lemma SomethingLeft(buffer: string, now: seq<string>, all: string)
    requires buffer + Concat(now) == all && |buffer| < |all|
    ensures now != [] && buffer + now[0] + Concat(now[1..]) == all
  {
    if now != [] { Regroup(buffer, now[0], Concat(now[1..])); }
  }

  lemma FirstRead(buffer: string, now: seq<string>, later: seq<string>, order: Order)
    requires now != []
    ensures ReceiveAll(buffer, now + later, order) ==
            match ReceiveChunk(buffer, now[0], order)
            case Receiving(raw) => ReceiveAll(raw, now[1..] + later, order)
            case p => p
  {
    assert (now + later)[0] == now[0] && (now + later)[1..] == now[1..] + later;
  }

  /** One read that ends in front of the terminator. */
  lemma BeforeTheEnd(buffer: string, chunk: string, rest: string, raw: string, head: string, response: Response,
                     order: Order)
    requires ExactMessage(raw, response, order) && head <= raw && |head| < Find(raw, BLANK_LINE, 0) + 4
    requires buffer + chunk + rest == head
    ensures var s := buffer + chunk;
            ReceiveChunk(buffer, chunk, order) == if |s| > MAX_HEADER_SECTION then Failed else Receiving(s)
  {
    var s := buffer + chunk;
    assert s <= head;
    StrictPrefix(raw, response, order, s);
  }
}
