/** One pooled socket across the calls that lease it in turn: when does each call read the answer to
    its own request?  The upstream host sends an answer only after the request it belongs to, but its
    last bytes may arrive when the next call already holds the socket. */
module SocketStream {
  import opened Wrappers
  import opened Text
  import opened Characters
  import opened Http
  import opened ResponseParser
  import HR = HttpResponse
  import Proxy

  /** Whether the upstream host keeps the connection: unless its Connection field says otherwise. */
  function KeepsAlive(fs: Fields): bool {
    match FindField(fs, "connection")
    case None => true
    case Some(f) => EqualsIgnoreCase(f.value, "keep-alive")
  }

  /** The first field called Connection, in any case, decides: the connection is kept if its value is keep-alive, in
      any case, and without such a field. */
  lemma {:induction false} KeepsAliveIff(fs: Fields, k: nat)
    requires k <= |fs| && (forall i :: 0 <= i < k ==> !SameName(fs[i].name, "connection"))
    requires k < |fs| ==> SameName(fs[k].name, "connection")
    ensures KeepsAlive(fs) <==> k == |fs| || SameName(fs[k].value, "keep-alive")
  {
    if fs != [] { SameNameIff(fs[0].name, "connection"); }
    if k > 0 { KeepsAliveIff(fs[1..], k - 1); } else if k < |fs| { SameNameIff(fs[0].value, "keep-alive"); }
  }

  /** The reads of one call: the last of them completes the response. */
  ghost predicate CallReads(chunks: seq<string>, order: Order) {
    && Reads(chunks) && chunks != []
    && ReceiveAll("", chunks, order).Done?
    && ReceiveAll("", chunks[..|chunks| - 1], order).Receiving?
  }

  /** The response that the call is given. */
  ghost function Delivered(chunks: seq<string>, order: Order): Response
    requires CallReads(chunks, order)
  {
    ReceiveAll("", chunks, order).response
  }

  /** The bytes read by each call. */
  function BytesOf(calls: seq<seq<string>>): (got: seq<string>)
    ensures |got| == |calls| && forall k :: 0 <= k < |got| ==> got[k] == Concat(calls[k])
  {
    seq(|calls|, k requires 0 <= k < |calls| => Concat(calls[k]))
  }

  /** Calls on one socket: each completes a response, from what the host had sent by then, and all but
      the last leave the socket to the pool. */
  ghost predicate SocketRun(answers: seq<string>, calls: seq<seq<string>>, order: Order, iterate: Order) {
    && |calls| <= |answers|
    && (forall k :: 0 <= k < |calls| ==> CallReads(calls[k], order))
    && (forall k :: 0 <= k < |calls| ==> SentBy(answers, BytesOf(calls), k))
    && (forall k :: 0 <= k < |calls| - 1 ==> KeepsAlive(iterate(Delivered(calls[k], order).fields)))
  }

  ghost predicate SentBy(answers: seq<string>, got: seq<string>, k: nat)
    requires k < |got| <= |answers|
  {
    Concat(got[..k + 1]) <= Concat(answers[..k + 1])
  }

  /** Every call has read the answer to its own request, all of it and nothing else. */
  ghost predicate InStep(answers: seq<string>, calls: seq<seq<string>>)
    requires |calls| <= |answers|
  {
    forall k :: 0 <= k < |calls| ==> Concat(calls[k]) == answers[k]
  }

  /** An answer that the client accepts, however it is cut into reads. */
  ghost predicate Acceptable(answer: string, order: Order) {
    TryParse(answer, order).Complete? && WithinLimits(answer)
  }

  /** Where the client takes the body of the answer to end. */
  function BodyEnd(answer: string, order: Order): int {
    match TryParse(answer, order)
    case Complete(response) => Find(answer, BLANK_LINE, 0) + 4 + |response.body|
    case _ => -1
  }

  /** The answer ends there too. */
  ghost predicate Framed(answer: string, order: Order) {
    |answer| == BodyEnd(answer, order)
  }

  /** The response that the client takes from the answer leaves the socket to the pool. */
  ghost predicate Kept(answer: string, order: Order, iterate: Order) {
    TryParse(answer, order).Complete? && KeepsAlive(iterate(TryParse(answer, order).response.fields))
  }

  /** The socket is leased again for the request of answer `j`, if the calls before read their own. */
  ghost predicate Reached(answers: seq<string>, j: nat, order: Order, iterate: Order)
    requires j <= |answers|
  {
    forall i :: 0 <= i < j ==> Kept(answers[i], order, iterate)
  }

  ghost predicate AllAcceptable(answers: seq<string>, order: Order) {
    forall j :: 0 <= j < |answers| ==> Acceptable(answers[j], order)
  }

  // ---------------------------------------------------------------- one call

  /** The bytes of a call parse as the response it is given. */
  lemma CallParses(chunks: seq<string>, order: Order)
    requires CallReads(chunks, order)
    ensures TryParse(Concat(chunks), order) == Complete(Delivered(chunks, order))
  {
    var n := |chunks| - 1;
    var init, last := chunks[..n], chunks[n];
    assert chunks == init + [last];
    ReceivedSoFar("", init, order);
    FromNothing(Concat(init));
    ReceiveOneMore("", init, last, order, Concat(init));
    ConcatLast(init, last);
  }

  /** A call that reads from a framed answer reads all of it. */
  lemma ReadsItAll(answer: string, chunks: seq<string>, order: Order)
    requires Acceptable(answer, order) && Framed(answer, order) && CallReads(chunks, order) && Concat(chunks) <= answer
    ensures Concat(chunks) == answer
  {
    CallParses(chunks, order);
    var response := TryParse(answer, order).response;
    assert ExactMessage(answer, response, order);
    if Concat(chunks) < answer { StrictPrefix(answer, response, order, Concat(chunks)); }
  }

  // ---------------------------------------------------------------- bytes sent and bytes read

  lemma ConcatUpTo(parts: seq<string>, k: nat)
    requires k < |parts|
    ensures Concat(parts[..k + 1]) == Concat(parts[..k]) + parts[k]
  {
    assert parts[..k + 1] == parts[..k] + [parts[k]];
    ConcatLast(parts[..k], parts[k]);
  }

  lemma SamePrefixLeft(a: string, b: string, c: string)
    requires a + b <= a + c
    ensures b <= c
  {
    assert b == (a + b)[|a|..] && c == (a + c)[|a|..];
  }

  /** The calls read their own answers up to `i`. */
  ghost predicate InStepUpTo(answers: seq<string>, calls: seq<seq<string>>, i: nat)
    requires i <= |calls| <= |answers|
  {
    BytesOf(calls)[..i] == answers[..i]
  }

  lemma OwnSoFar(answers: seq<string>, calls: seq<seq<string>>, i: nat, m: nat)
    requires m < i <= |calls| <= |answers| && InStepUpTo(answers, calls, i)
    ensures Concat(calls[m]) == answers[m]
  {
    assert BytesOf(calls)[..i][m] == answers[..i][m];
  }

  lemma KeptSoFar(answers: seq<string>, calls: seq<seq<string>>, order: Order, iterate: Order, i: nat)
    requires SocketRun(answers, calls, order, iterate) && i < |calls| && InStepUpTo(answers, calls, i)
    ensures Reached(answers, i, order, iterate)
  {
    forall m | 0 <= m < i ensures Kept(answers[m], order, iterate) {
      OwnSoFar(answers, calls, i, m);
      CallParses(calls[m], order);
    }
  }

  lemma BeginsWithOwn(answers: seq<string>, calls: seq<seq<string>>, i: nat)
    requires i < |calls| <= |answers| && InStepUpTo(answers, calls, i) && SentBy(answers, BytesOf(calls), i)
    ensures Concat(calls[i]) <= answers[i]
  {
    var got := BytesOf(calls);
    ConcatUpTo(got, i);
    ConcatUpTo(answers, i);
    SamePrefixLeft(Concat(got[..i]), got[i], answers[i]);
  }

  /** Calls that read their own answers so far leave the next one all of its own. */
  lemma NextInStep(answers: seq<string>, calls: seq<seq<string>>, order: Order, iterate: Order, i: nat)
    requires SocketRun(answers, calls, order, iterate) && AllAcceptable(answers, order) && i < |calls|
    requires InStepUpTo(answers, calls, i)
    requires Reached(answers, i, order, iterate) ==> Framed(answers[i], order)
    ensures InStepUpTo(answers, calls, i + 1)
  {
    KeptSoFar(answers, calls, order, iterate, i);
    assert SentBy(answers, BytesOf(calls), i);
    BeginsWithOwn(answers, calls, i);
    assert Acceptable(answers[i], order) && CallReads(calls[i], order);
    ReadsItAll(answers[i], calls[i], order);
    OneFurther(BytesOf(calls), answers, i);
  }

  ghost predicate FramedWhereReached(answers: seq<string>, order: Order, iterate: Order) {
    forall j :: 0 <= j < |answers| && Reached(answers, j, order, iterate) ==> Framed(answers[j], order)
  }

  ghost predicate StepHolds(answers: seq<string>, calls: seq<seq<string>>, i: nat)
    requires i < |calls| <= |answers|
  {
    InStepUpTo(answers, calls, i) ==> InStepUpTo(answers, calls, i + 1)
  }

  lemma {:induction false} StepByStep(answers: seq<string>, calls: seq<seq<string>>, k: nat)
    requires k <= |calls| <= |answers|
    requires forall i {:trigger StepHolds(answers, calls, i)} :: 0 <= i < |calls| ==> StepHolds(answers, calls, i)
    ensures InStepUpTo(answers, calls, k)
  {
    if k > 0 {
      StepByStep(answers, calls, k - 1);
      assert StepHolds(answers, calls, k - 1);
    }
  }

  lemma FramedKeepStep(answers: seq<string>, calls: seq<seq<string>>, order: Order, iterate: Order)
    requires SocketRun(answers, calls, order, iterate) && AllAcceptable(answers, order)
    requires FramedWhereReached(answers, order, iterate)
    ensures InStep(answers, calls)
  {
    forall i | 0 <= i < |calls| ensures StepHolds(answers, calls, i) {
      if InStepUpTo(answers, calls, i) {
        FramedHere(answers, order, iterate, i);
        NextInStep(answers, calls, order, iterate, i);
      }
    }
    StepByStep(answers, calls, |calls|);
    AllInStep(answers, calls);
  }

  lemma AllInStep(answers: seq<string>, calls: seq<seq<string>>)
    requires |calls| <= |answers| && InStepUpTo(answers, calls, |calls|)
    ensures InStep(answers, calls)
  {
    forall k | 0 <= k < |calls| ensures Concat(calls[k]) == answers[k] { OwnSoFar(answers, calls, |calls|, k); }
  }

  lemma FramedHere(answers: seq<string>, order: Order, iterate: Order, j: nat)
    requires FramedWhereReached(answers, order, iterate) && j < |answers|
    ensures Reached(answers, j, order, iterate) ==> Framed(answers[j], order)
  {}

  lemma OneFurther(got: seq<string>, answers: seq<string>, i: nat)
    requires i < |got| <= |answers| && got[..i] == answers[..i] && got[i] == answers[i]
    ensures got[..i + 1] == answers[..i + 1]
  {
    assert got[..i + 1] == got[..i] + [got[i]] && answers[..i + 1] == answers[..i] + [answers[i]];
  }

  /** Reading whole answers and then a part of one is within what was sent. */
  lemma PartOfLast(answers: seq<string>, got: seq<string>)
    requires 0 < |got| <= |answers| && got[|got| - 1] <= answers[|got| - 1]
    requires forall i :: 0 <= i < |got| - 1 ==> got[i] == answers[i]
    ensures forall k :: 0 <= k < |got| ==> SentBy(answers, got, k)
  {
    forall k | 0 <= k < |got| ensures SentBy(answers, got, k) {
      assert got[..k] == answers[..k];
      ConcatUpTo(got, k);
      ConcatUpTo(answers, k);
      SamePrefixRight(Concat(got[..k]), got[k], answers[k]);
    }
  }

  lemma SamePrefixRight(a: string, b: string, c: string)
    requires b <= c
    ensures a + b <= a + c
  {}

  // ---------------------------------------------------------------- an unframed answer breaks the step

  /** The part of an answer that the client takes for the response. */
  function Taken(answer: string, order: Order): (part: string)
    ensures part <= answer
  {
    if 0 <= BodyEnd(answer, order) <= |answer| then answer[..BodyEnd(answer, order)] else answer
  }

  lemma TakenIsExact(answer: string, order: Order)
    requires Acceptable(answer, order)
    ensures ExactMessage(Taken(answer, order), TryParse(answer, order).response, order)
    ensures WithinLimits(Taken(answer, order))
    ensures Taken(answer, order) == answer <==> Framed(answer, order)
  {
    BodyInside(answer, order);
    FindShrinks(Taken(answer, order), answer, BLANK_LINE);
    SameUpToBody(Taken(answer, order), answer, TryParse(answer, order).response, order);
  }

  lemma BodyInside(answer: string, order: Order)
    requires TryParse(answer, order).Complete?
    ensures 0 <= Find(answer, BLANK_LINE, 0) && Find(answer, BLANK_LINE, 0) + 4 <= BodyEnd(answer, order) <= |answer|
    ensures |Taken(answer, order)| == BodyEnd(answer, order)
  {}

  /** A text and its beginning up to the end of the body make the same of a head. */
  lemma SameBody(m: string, all: string, start: nat, head: Option<Head>, response: Response)
    requires m <= all && |m| == start + |response.body|
    ensures WithHead(m, start, head) == Complete(response) <==> WithHead(all, start, head) == Complete(response)
  {
    assert m[start..] == all[start..|m|];
  }

  /** They parse alike. */
  lemma SameUpToBody(m: string, all: string, response: Response, order: Order)
    requires m <= all && 0 <= Find(m, BLANK_LINE, 0) == Find(all, BLANK_LINE, 0)
    requires |m| == Find(m, BLANK_LINE, 0) + 4 + |response.body|
    ensures TryParse(m, order) == Complete(response) <==> TryParse(all, order) == Complete(response)
  {
    var e := Find(m, BLANK_LINE, 0);
    SameStart(m, all, e);
    HeadFound(m, order);
    HeadFound(all, order);
    SameBody(m, all, e + 4, ParseHead(m[..e], order), response);
  }

  /** Before its end an exact message is still being received. */
  lemma {:induction false} StillReceiving(buffer: string, chunks: seq<string>, raw: string, response: Response,
                                          order: Order)
    requires ExactMessage(raw, response, order) && WithinLimits(raw) && buffer + Concat(chunks) < raw
    ensures ReceiveAll(buffer, chunks, order).Receiving?
    decreases |chunks|
  {
    if chunks != [] {
      var s := buffer + chunks[0];
      Regroup(buffer, chunks[0], Concat(chunks[1..]));
      assert s < raw;
      StrictPrefix(raw, response, order, s);
      StillReceiving(s, chunks[1..], raw, response, order);
    }
  }

  /** An exact message read to the brim of each buffer is one call's reads. */
  lemma FullReadsAreCall(raw: string, response: Response, order: Order)
    requires ExactMessage(raw, response, order) && WithinLimits(raw)
    ensures CallReads(FullReads(raw), order) && Concat(FullReads(raw)) == raw
  {
    ConcatFullReads(raw);
    FromNothing(raw);
    FoundInside(raw);
    ReceiveFrom("", FullReads(raw), raw, response, order);
    AllButLast(raw, FullReads(raw));
    var init := FullReads(raw)[..|FullReads(raw)| - 1];
    FromNothing(Concat(init));
    StillReceiving("", init, raw, response, order);
  }

  lemma FoundInside(raw: string)
    requires Find(raw, BLANK_LINE, 0) >= 0
    ensures "" < raw && FullReads(raw) != []
  {}

  lemma {:induction false} AllButLast(raw: string, chunks: seq<string>)
    requires chunks != [] && Reads(chunks) && Concat(chunks) == raw
    ensures Concat(chunks[..|chunks| - 1]) < raw
  {
    var n := |chunks| - 1;
    assert chunks == chunks[..n] + [chunks[n]];
    ConcatLast(chunks[..n], chunks[n]);
  }

  /** Calls that take their responses from the first `n` answers. */
  function TakingCalls(answers: seq<string>, n: nat, order: Order): (calls: seq<seq<string>>)
    requires n <= |answers|
    ensures |calls| == n && forall j :: 0 <= j < n ==> calls[j] == FullReads(Taken(answers[j], order))
  {
    seq(n, j requires 0 <= j < n => FullReads(Taken(answers[j], order)))
  }

  lemma TakingCall(answer: string, order: Order)
    requires Acceptable(answer, order)
    ensures CallReads(FullReads(Taken(answer, order)), order)
    ensures Concat(FullReads(Taken(answer, order))) == Taken(answer, order) <= answer
    ensures Delivered(FullReads(Taken(answer, order)), order) == TryParse(answer, order).response
    ensures Taken(answer, order) == answer <==> Framed(answer, order)
  {
    TakenIsExact(answer, order);
    FullReadsAreCall(Taken(answer, order), TryParse(answer, order).response, order);
    CallParses(FullReads(Taken(answer, order)), order);
  }

  /** Calls that each take the response from their answer make a run if all of the answer is taken
      each time but the last. */
  lemma TakingRun(answers: seq<string>, order: Order, iterate: Order, j: nat)
    requires j < |answers| && AllAcceptable(answers, order) && Reached(answers, j, order, iterate)
    requires forall i :: 0 <= i < j ==> Framed(answers[i], order)
    ensures SocketRun(answers, TakingCalls(answers, j + 1, order), order, iterate)
  {
    var calls := TakingCalls(answers, j + 1, order);
    forall k | 0 <= k <= j
      ensures CallReads(calls[k], order) && Delivered(calls[k], order) == TryParse(answers[k], order).response
      ensures Concat(calls[k]) <= answers[k] && (k < j ==> Concat(calls[k]) == answers[k])
    {
      assert Acceptable(answers[k], order);
      TakingCall(answers[k], order);
    }
    PartOfLast(answers, BytesOf(calls));
    forall k | 0 <= k < j ensures KeepsAlive(iterate(Delivered(calls[k], order).fields)) {
      assert Kept(answers[k], order, iterate);
    }
  }

  /** With the first unframed answer a call stops short of its end. */
  lemma UnframedBreaksStep(answers: seq<string>, order: Order, iterate: Order, j: nat)
    requires j < |answers| && AllAcceptable(answers, order) && Reached(answers, j, order, iterate)
    requires !Framed(answers[j], order) && forall i :: 0 <= i < j ==> Framed(answers[i], order)
    ensures var calls := TakingCalls(answers, j + 1, order);
            SocketRun(answers, calls, order, iterate) && !InStep(answers, calls)
  {
    TakingRun(answers, order, iterate, j);
    assert Acceptable(answers[j], order);
    TakingCall(answers[j], order);
    assert TakingCalls(answers, j + 1, order)[j] == FullReads(Taken(answers[j], order));
  }

  lemma {:induction false} FirstUnframed(answers: seq<string>, order: Order, k: nat) returns (j: nat)
    requires k < |answers| && !Framed(answers[k], order)
    ensures j <= k && !Framed(answers[j], order) && forall i :: 0 <= i < j ==> Framed(answers[i], order)
  {
    j := k;
    if i :| 0 <= i < k && !Framed(answers[i], order) {
      j := FirstUnframed(answers, order, i);
    }
  }

  /** On a pooled socket every call reads the answer to its own request, whatever the reads, if and
      only if every answer that the socket is kept for ends where the client takes its body to end. */
  lemma OwnAnswersIff(answers: seq<string>, order: Order, iterate: Order)
    requires AllAcceptable(answers, order)
    ensures (forall calls :: SocketRun(answers, calls, order, iterate) ==> InStep(answers, calls)) <==>
            FramedWhereReached(answers, order, iterate)
  {
    if k :| 0 <= k < |answers| && Reached(answers, k, order, iterate) && !Framed(answers[k], order) {
      var j := FirstUnframed(answers, order, k);
      UnframedBreaksStep(answers, order, iterate, j);
    } else {
      forall calls | SocketRun(answers, calls, order, iterate) ensures InStep(answers, calls) {
        FramedKeepStep(answers, calls, order, iterate);
      }
    }
  }

  // ---------------------------------------------------------------- what the next call is given

  /** After a call that stopped short, the next call on the socket begins with the bytes left over. */
  lemma NextCallReadsLeftover(answers: seq<string>, calls: seq<seq<string>>, order: Order, iterate: Order, j: nat)
    requires SocketRun(answers, calls, order, iterate) && j + 1 < |calls|
    requires (forall i :: 0 <= i < j ==> Concat(calls[i]) == answers[i]) && Concat(calls[j]) < answers[j]
    ensures Concat(calls[j + 1]) <= answers[j][|Concat(calls[j])|..] + answers[j + 1]
  {
    var got := BytesOf(calls);
    assert got[..j] == answers[..j];
    assert SentBy(answers, got, j + 1);
    ConcatUpTo(got, j);
    ConcatUpTo(got, j + 1);
    ConcatUpTo(answers, j);
    ConcatUpTo(answers, j + 1);
    LeftoverFirst(Concat(got[..j]), got[j], got[j + 1], answers[j], answers[j + 1]);
  }

  lemma LeftoverFirst(before: string, got: string, next: string, answer: string, following: string)
    requires got <= answer && before + got + next <= before + answer + following
    ensures next <= answer[|got|..] + following
  {
    var all := before + got;
    assert before + answer + following == all + (answer[|got|..] + following);
    SamePrefixLeft(all, next, answer[|got|..] + following);
  }

  lemma OneLeft(parts: seq<string>)
    requires parts != []
    ensures Concat(parts) == parts[0] + Concat(parts[1..])
    ensures |parts| == 1 ==> parts[1..] == []
    ensures |parts| == 2 ==> parts[1..] == [parts[1]]
  {}

  lemma TwoParts(a: string, b: string)
    ensures Concat([a]) == a && Concat([a, b]) == a + b
  {
    OneLeft([a]);
    OneLeft([a, b]);
    OneLeft([b]);
    assert a + "" == a && b + "" == b;
  }

  /** What an answer has behind the response taken from it is, if it is a response itself, what the
      next call on the socket is given, whatever the host answers to that call's own request. */
  lemma NextCallDelivers(answer: string, forged: string, own: string, order: Order, iterate: Order)
    returns (calls: seq<seq<string>>)
    requires Acceptable(answer, order) && Kept(answer, order, iterate) && answer == Taken(answer, order) + forged
    requires Acceptable(forged, order) && Framed(forged, order)
    ensures SocketRun([answer, own], calls, order, iterate) && |calls| == 2
    ensures Delivered(calls[0], order) == TryParse(answer, order).response
    ensures Concat(calls[1]) == forged && Delivered(calls[1], order) == TryParse(forged, order).response
  {
    TakingCall(answer, order);
    TakingCall(forged, order);
    var a, b := FullReads(Taken(answer, order)), FullReads(forged);
    TwoCalls(answer, own, a, b, order, iterate);
    calls := [a, b];
  }

  /** Two calls that read all of one answer between them. */
  lemma TwoCalls(answer: string, own: string, a: seq<string>, b: seq<string>, order: Order, iterate: Order)
    requires CallReads(a, order) && CallReads(b, order) && answer == Concat(a) + Concat(b)
    requires KeepsAlive(iterate(Delivered(a, order).fields))
    ensures SocketRun([answer, own], [a, b], order, iterate)
  {
    SentBoth(answer, Concat(a), Concat(b), own, BytesOf([a, b]));
  }

  lemma SentBoth(answer: string, first: string, forged: string, own: string, got: seq<string>)
    requires answer == first + forged && got == [first, forged]
    ensures SentBy([answer, own], got, 0) && SentBy([answer, own], got, 1)
  {
    var answers := [answer, own];
    assert answers[..1] == [answer] && got[..1] == [first] && answers[..2] == answers && got[..2] == got;
    TwoParts(answer, own);
    TwoParts(first, forged);
  }

  /** Bytes behind an exact message change nothing of what the client takes. */
  lemma MoreBehind(m: string, response: Response, all: string, order: Order)
    requires ExactMessage(m, response, order) && m <= all
    ensures TryParse(all, order) == Complete(response) && Taken(all, order) == m
    ensures Find(all, BLANK_LINE, 0) == Find(m, BLANK_LINE, 0)
  {
    FindInPrefix(m, all, BLANK_LINE);
    SameUpToBody(m, all, response, order);
    TakenIs(m, all, order);
  }

  lemma TakenIs(m: string, all: string, order: Order)
    requires m <= all && |m| == BodyEnd(all, order)
    ensures Taken(all, order) == m
  {
    SameStart(m, all, |m|);
    assert m[..|m|] == m;
  }

  /** Without a Content-Length the client takes the body to be empty: a body sent by another framing
      is not framed. */
  lemma OtherFramingIsUnframed(answer: string, order: Order)
    requires TryParse(answer, order).Complete? && |answer| > Find(answer, BLANK_LINE, 0) + 4
    requires FindField(order(TryParse(answer, order).response.fields), "content-length").None?
    ensures !Framed(answer, order)
  {
    var head := HeadOf(answer, order);
    HeadWithoutLength(answer[..Find(answer, BLANK_LINE, 0)], order, head);
  }

  lemma HeadOf(answer: string, order: Order) returns (head: Head)
    requires TryParse(answer, order).Complete?
    ensures ParseHead(answer[..Find(answer, BLANK_LINE, 0)], order) == Some(head)
    ensures head.fields == TryParse(answer, order).response.fields
    ensures head.length == |TryParse(answer, order).response.body|
  {
    HeadFound(answer, order);
    head := ParseHead(answer[..Find(answer, BLANK_LINE, 0)], order).value;
  }

  lemma HeadWithoutLength(section: string, order: Order, head: Head)
    requires ParseHead(section, order) == Some(head) && FindField(order(head.fields), "content-length").None?
    ensures head.length == 0
  {}

  /** Two responses in one answer: the client takes the first. */
  lemma FirstIsTaken(first: string, r: Response, second: string, answer: string, order: Order)
    requires ExactMessage(first, r, order) && WithinLimits(first) && answer == first + second
    requires second != "" && |answer| <= MAX_RESPONSE
    ensures TryParse(answer, order) == Complete(r) && Taken(answer, order) == first
    ensures Acceptable(answer, order) && !Framed(answer, order)
  {
    MoreBehind(first, r, answer, order);
  }

  /** Two responses sent for one request: the next call is given the second of them. */
  lemma SecondIsDelivered(first: string, r: Response, second: string, r': Response, answer: string, own: string,
                          order: Order, iterate: Order)
    returns (calls: seq<seq<string>>)
    requires ExactMessage(first, r, order) && WithinLimits(first) && KeepsAlive(iterate(r.fields))
    requires ExactMessage(second, r', order) && WithinLimits(second)
    requires answer == first + second && |answer| <= MAX_RESPONSE
    ensures Acceptable(answer, order) && !Framed(answer, order) && SocketRun([answer, own], calls, order, iterate)
    ensures |calls| == 2 && Delivered(calls[0], order) == r && Delivered(calls[1], order) == r'
  {
    FoundInside(second);
    FirstIsTaken(first, r, second, answer, order);
    calls := NextCallDelivers(answer, second, own, order, iterate);
  }

  // ---------------------------------------------------------------- an example

  lemma ShortAnswer(body: string)
    requires |body| < 10
    ensures |Proxy.PlainAnswer(200, body)| < 100
  {
    Proxy.DecOfThreeDigits(200);
    Proxy.LongDecimals(|body|);
    var line, field := HR.StatusLineText(200, "OK"), FieldLine(HR.LengthField(body));
    assert FieldLines([HR.LengthField(body)]) == [field];
    assert [line] + [field] == [line, field];
    TwoLines(line, field);
  }

  lemma TwoLines(a: string, b: string)
    ensures |Block([a, b])| == |a| + |b| + 4
  {
    assert [a, b][1..] == [b] && [b][1..] == [];
    assert Block([b]) == b + CRLF + "";
    assert Block([a, b]) == a + CRLF + Block([b]);
  }

  lemma PlainAnswerIsExact(body: string, order: Order)
    requires |body| < 10 && IsOrder(order)
    ensures var m := Proxy.PlainAnswer(200, body);
            ExactMessage(m, Response(200, "OK", [HR.LengthField(body)], body), order) && WithinLimits(m) && |m| < 100
  {
    ShortAnswer(body);
    Proxy.PlainAnswerAccepted(200, body, order);
  }

  lemma PlainAnswerKept(body: string, iterate: Order)
    requires IsOrder(iterate)
    ensures KeepsAlive(iterate([HR.LengthField(body)]))
  {
    FindNoneInAnyOrder([HR.LengthField(body)], iterate, "connection");
  }

  /** Two plain answers sent for one request: the second is delivered to the next call. */
  lemma TwoAnswersForOne(own: string, order: Order, iterate: Order) returns (calls: seq<seq<string>>)
    requires IsOrder(order) && IsOrder(iterate)
    ensures var answer := Proxy.PlainAnswer(200, "") + Proxy.PlainAnswer(200, "x");
            Acceptable(answer, order) && !Framed(answer, order) && SocketRun([answer, own], calls, order, iterate)
    ensures |calls| == 2 && Delivered(calls[1], order) == Response(200, "OK", [HR.LengthField("x")], "x")
  {
    var first, second := Proxy.PlainAnswer(200, ""), Proxy.PlainAnswer(200, "x");
    PlainAnswerIsExact("", order);
    PlainAnswerIsExact("x", order);
    PlainAnswerKept("", iterate);
    var response := Response(200, "OK", [HR.LengthField("")], "");
    var response' := Response(200, "OK", [HR.LengthField("x")], "x");
    calls := SecondIsDelivered(first, response, second, response', first + second, own, order, iterate);
  }
}
