/** Which byte strings the request parser accepts, and how it answers the others, told from the bytes
    themselves. */
module RequestGrammar {
  import opened Wrappers
  import opened Text
  import opened Characters
  import opened Http
  import opened FieldGrammar
  import opened RequestParser

  // ---------------------------------------------------------------- the request line

  ghost predicate LineParts(line: string, verb: string, target: string, rest: string) {
    line == verb + " " + target + " " + rest && Free(verb, ' ') && Free(target, ' ')
  }

  predicate Names(verb: string, m: Method) {
    match m
    case GET => verb == "GET"
    case POST => verb == "POST"
    case PUT => verb == "PUT"
    case DELETE => verb == "DELETE"
    case PATCH => verb == "PATCH"
    case HEAD => verb == "HEAD"
    case OPTIONS => verb == "OPTIONS"
  }

  ghost predicate RequestLineOf(line: string, verb: string, m: Method, target: string, rest: string) {
    LineParts(line, verb, target, rest) && Names(verb, m) && target != "" && target[0] == '/'
  }

  /** The name of a method, a blank, a target that starts with a slash, a blank. */
  ghost predicate GoodRequestLine(line: string) {
    exists verb, m, target, rest :: RequestLineOf(line, verb, m, target, rest)
  }

  lemma MethodIff(verb: string, m: Method)
    ensures MethodFromString(verb) == Some(m) <==> Names(verb, m)
  {}

  lemma PartsOfLine(line: string, verb: string, target: string, rest: string)
    requires LineParts(line, verb, target, rest)
    ensures line == verb + [' '] + (target + [' '] + rest)
  {}

  lemma SliceOfRest(line: string, i: nat, n: nat)
    requires i + n <= |line|
    ensures line[i..][..n] == line[i..i + n]
  {}

  lemma PartsFound(line: string, verb: string, target: string, rest: string)
    requires LineParts(line, verb, target, rest)
    ensures Find(line, " ", 0) == |verb| && line[..|verb|] == verb
    ensures Find(line, " ", |verb| + 1) == |verb| + 1 + |target|
    ensures line[|verb| + 1..|verb| + 1 + |target|] == target
  {
    var more := target + [' '] + rest;
    PartsOfLine(line, verb, target, rest);
    Cut(line, verb, ' ', more);
    Cut(more, target, ' ', rest);
    FindSuffix(line, " ", |verb| + 1);
    SliceOfRest(line, |verb| + 1, |target|);
  }

  lemma FoundParts(line: string, sp1: nat, sp2: nat)
    requires Find(line, " ", 0) == sp1 < |line| && Find(line, " ", sp1 + 1) == sp2
    ensures sp1 < sp2 < |line| && LineParts(line, line[..sp1], line[sp1 + 1..sp2], line[sp2 + 1..])
  {
    Uncut(line, ' ');
    RestFound(line, sp1 + 1, sp2);
    PutTogether(line, line[..sp1], line[sp1 + 1..sp2], line[sp2 + 1..]);
  }

  lemma RestFound(line: string, from: nat, i: nat)
    requires from <= |line| && Find(line, " ", from) == i
    ensures from <= i < |line| && line[from..] == line[from..i] + [' '] + line[i + 1..] && Free(line[from..i], ' ')
  {
    BeforeFirst(line, ' ', from);
    RestHalves(line, from, i);
  }

  lemma PutTogether(line: string, verb: string, target: string, rest: string)
    requires line == verb + [' '] + (target + [' '] + rest) && Free(verb, ' ') && Free(target, ' ')
    ensures LineParts(line, verb, target, rest)
  {}

  /** A line within the limit is refused with 400 exactly when it is not a request line. */
  lemma RequestLineIff(line: string)
    requires |line| <= 8192
    ensures ParseRequestLine(line).Ok? <==> GoodRequestLine(line)
    ensures ParseRequestLine(line).Err? ==> ParseRequestLine(line).error == 400
  {
    if GoodRequestLine(line) {
      var verb, m, target, rest :| RequestLineOf(line, verb, m, target, rest);
      GoodLineAccepted(line, verb, m, target, rest);
    }
    if ParseRequestLine(line).Ok? {
      var verb, m, target, rest := AcceptedLine(line);
    }
  }

  lemma GoodLineAccepted(line: string, verb: string, m: Method, target: string, rest: string)
    requires |line| <= 8192 && RequestLineOf(line, verb, m, target, rest)
    ensures ParseRequestLine(line) ==
            Ok(RequestLine(m, PathView(target, |verb| + 1), QueryView(target, |verb| + 1)))
  {
    PartsFound(line, verb, target, rest);
    MethodIff(verb, m);
  }

  lemma AcceptedLine(line: string) returns (verb: string, m: Method, target: string, rest: string)
    requires ParseRequestLine(line).Ok?
    ensures RequestLineOf(line, verb, m, target, rest)
  {
    var sp1 := Find(line, " ", 0);
    var sp2 := Find(line, " ", sp1 + 1);
    verb, target, rest := line[..sp1], line[sp1 + 1..sp2], line[sp2 + 1..];
    FoundParts(line, sp1, sp2);
    m := MethodFromString(verb).value;
    MethodIff(verb, m);
  }

  // ---------------------------------------------------------------- every answer

  /** A missing value counts as an empty one. */
  function Given(v: Option<string>): string {
    match v
    case None => ""
    case Some(value) => value
  }

  /** The answer to bytes whose header section ends at `e`, where `v` is the value that decides the length. */
  ghost predicate Answered(raw: string, e: nat, v: Option<string>, o: Outcome)
    requires e + 4 <= |raw|
  {
    var ls := Lines(raw[..e]);
    if e + 4 > 32768 then o == Refused(431)
    else if |ls[0]| > 8192 then o == Refused(414)
    else if !GoodRequestLine(ls[0]) || !NoneMalformed(ls[1..]) then o == Refused(400)
    else LengthValue(ls[1..], v) && LengthAnswered(raw, e + 4, Given(v), o)
  }

  ghost predicate LengthAnswered(raw: string, bodyStart: nat, v: string, o: Outcome) {
    if !Number(v) then o == Refused(400)
    else if DecValue(v) > 10485760 then o == Refused(413)
    else if |raw| < bodyStart + DecValue(v) then o == NeedBody(bodyStart + DecValue(v))
    else o.Parsed? && o.bodyStart == bodyStart && o.head.contentLength == DecValue(v)
  }

  /** How the head decides. */
  ghost predicate HeadAnswered(ls: seq<string>, v: Option<string>, h: Result<Head, nat>)
    requires ls != []
  {
    if |ls[0]| > 8192 then h == Err(414)
    else if !GoodRequestLine(ls[0]) || !NoneMalformed(ls[1..]) then h == Err(400)
    else LengthValue(ls[1..], v) && HeadLength(Given(v), h)
  }

  ghost predicate HeadLength(v: string, h: Result<Head, nat>) {
    if !Number(v) then h == Err(400)
    else if DecValue(v) > 10485760 then h == Err(413)
    else h.Ok? && h.value.contentLength == DecValue(v)
  }

  lemma LengthDecides(line: RequestLine, fields: Fields, v: string)
    ensures HeadLength(v, match ContentLength(v)
                          case Err(status) => Err(status)
                          case Ok(n) => Ok(Head(line, fields, n)))
  {
    AllDigitsIff(v);
  }

  lemma HeadDecides(section: string, order: Order) returns (v: Option<string>)
    requires IsOrder(order)
    ensures HeadAnswered(Lines(section), v, ParseHead(section, order))
  {
    var ls := Lines(section);
    v := None;
    if |ls[0]| <= 8192 {
      RequestLineIff(ls[0]);
      FoldAccepts(ls[1..], []);
      if GoodRequestLine(ls[0]) && NoneMalformed(ls[1..]) {
        var fields := FoldFields(ls[1..], []).value;
        v := ValueOf(FindField(order(fields), "content-length"));
        LengthFound(ls[1..], fields, order);
        LengthDecides(ParseRequestLine(ls[0]).value, fields, Given(v));
      }
    }
  }

  lemma Carried(raw: string, e: nat, v: Option<string>, h: Result<Head, nat>)
    requires e + 4 <= |raw| && e + 4 <= 32768 && HeadAnswered(Lines(raw[..e]), v, h)
    ensures Answered(raw, e, v, WithHead(raw, e + 4, h))
  {
    AllDigitsIff(Given(v));
  }

  /** Every answer of the parser, and exactly when it gives it. */
  lemma EveryAnswer(raw: string, order: Order) returns (v: Option<string>)
    requires IsOrder(order)
    ensures TryParse(raw, order) == NoTerminator <==> Find(raw, "\r\n\r\n", 0) < 0
    ensures var e := Find(raw, "\r\n\r\n", 0); e >= 0 ==> Answered(raw, e, v, TryParse(raw, order))
  {
    var e := Find(raw, BLANK_LINE, 0);
    v := None;
    if 0 <= e && e + 4 <= 32768 {
      v := HeadDecides(raw[..e], order);
      Carried(raw, e, v, ParseHead(raw[..e], order));
    }
  }

  // ---------------------------------------------------------------- what is dispatched

  /** The target is the path, or the path, a question mark and the query. */
  ghost predicate TargetOf(target: string, path: string, query: string) {
    Free(path, '?') && ((target == path && query == "") || target == path + "?" + query)
  }

  /** The line asks for that method, path and query. */
  ghost predicate LineSays(line: string, m: Method, path: string, query: string) {
    exists verb, target, rest :: RequestLineOf(line, verb, m, target, rest) && TargetOf(target, path, query)
  }

  lemma ViewsOfTarget(target: string, s: string, offset: nat)
    requires offset + |target| <= |s| && s[offset..offset + |target|] == target
    ensures TargetOf(target, Slice(s, PathView(target, offset)), Slice(s, QueryView(target, offset)))
  {
    var q := Find(target, "?", 0);
    if q < 0 {
      NotFoundFree(target, '?');
    } else {
      Uncut(target, '?');
      ViewsAt(target, offset, q);
      InnerSlice(s, target, offset, 0, q);
      InnerSlice(s, target, offset, q + 1, |target| - q - 1);
    }
  }

  lemma ViewsAt(target: string, offset: nat, q: nat)
    requires Find(target, "?", 0) == q < |target|
    ensures PathView(target, offset) == View(offset, q)
    ensures QueryView(target, offset) == View(offset + q + 1, |target| - q - 1)
  {}

  lemma InnerSlice(s: string, t: string, offset: nat, i: nat, n: nat)
    requires offset + |t| <= |s| && s[offset..offset + |t|] == t && i + n <= |t|
    ensures Slice(s, View(offset + i, n)) == t[i..i + n]
  {
    Inner(s, t, offset, i, i + n);
  }

  lemma Inner(s: string, t: string, offset: nat, i: nat, j: nat)
    requires offset + |t| <= |s| && s[offset..offset + |t|] == t && i <= j <= |t|
    ensures s[offset + i..offset + j] == t[i..j]
  {
    forall k | i <= k < j ensures s[offset + k] == t[k] { assert s[offset..offset + |t|][k] == t[k]; }
  }

  lemma LineOfRequest(raw: string, line: string, verb: string, m: Method, target: string, rest: string)
    requires line <= raw && RequestLineOf(line, verb, m, target, rest) && |line| <= 8192
    ensures ParseRequestLine(line).Ok?
    ensures var l := ParseRequestLine(line).value;
            l.verb == m && TargetOf(target, Slice(raw, l.path), Slice(raw, l.query))
  {
    GoodLineAccepted(line, verb, m, target, rest);
    PartsFound(line, verb, target, rest);
    ViewsOfTarget(target, raw, |verb| + 1);
  }

  lemma HeadOf(raw: string, order: Order, e: int, o: Outcome)
    requires TryParse(raw, order) == o && o.Parsed? && Find(raw, BLANK_LINE, 0) == e
    ensures 0 <= e && e + 4 + o.head.contentLength <= |raw|
    ensures o.bodyStart == e + 4 && ParseHead(raw[..e], order) == Ok(o.head)
  {}

  lemma HeadLine(raw: string, section: string, order: Order, head: Head)
    requires section <= raw && ParseHead(section, order) == Ok(head)
    ensures LineSays(Lines(section)[0], head.line.verb, Slice(raw, head.line.path), Slice(raw, head.line.query))
  {
    LineInside(section);
    var verb, m, target, rest := AcceptedLine(Lines(section)[0]);
    LineOfRequest(raw, Lines(section)[0], verb, m, target, rest);
  }

  lemma HeadFields(section: string, order: Order, head: Head)
    requires ParseHead(section, order) == Ok(head)
    ensures FieldsAre(Lines(section)[1..], head.fields)
  {
    FieldsFolded(Lines(section)[1..], head.fields);
  }

  /** The request is what the header section before `e` and `n` bytes of body say. */
  ghost predicate Described(raw: string, e: int, n: nat, r: Request) {
    && 0 <= e && e + 4 + n <= |raw| && r.body == raw[e + 4..e + 4 + n]
    && LineSays(Lines(raw[..e])[0], r.verb, r.path, r.query) && FieldsAre(Lines(raw[..e])[1..], r.fields)
  }

  lemma PartsOfRequest(raw: string, e: nat, order: Order, head: Head)
    requires e + 4 + head.contentLength <= |raw| && ParseHead(raw[..e], order) == Ok(head)
    ensures Described(raw, e, head.contentLength, RequestOf(raw, head, e + 4))
  {
    HeadLine(raw, raw[..e], order, head);
    HeadFields(raw[..e], order, head);
    Together(raw, e, head);
  }

  lemma Together(raw: string, e: nat, head: Head)
    requires e + 4 + head.contentLength <= |raw|
    requires LineSays(Lines(raw[..e])[0], head.line.verb, Slice(raw, head.line.path), Slice(raw, head.line.query))
    requires FieldsAre(Lines(raw[..e])[1..], head.fields)
    ensures Described(raw, e, head.contentLength, RequestOf(raw, head, e + 4))
  {}

  /** What a dispatched request is: its method, path and query are those of the first line, its fields are the
      first declarations of their names, and its body is the bytes behind the header section. */
  lemma DispatchedRequest(raw: string, order: Order)
    requires TryParse(raw, order).Parsed?
    ensures var o := TryParse(raw, order);
            Described(raw, Find(raw, "\r\n\r\n", 0), o.head.contentLength, RequestOf(raw, o.head, o.bodyStart))
  {
    var o, e := TryParse(raw, order), Find(raw, BLANK_LINE, 0);
    HeadOf(raw, order, e, o);
    PartsOfRequest(raw, e, order, o.head);
  }
}
