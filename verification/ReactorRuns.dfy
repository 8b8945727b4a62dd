/** What the reactor's clients send and get, over whole runs. */
module ReactorRuns {
  import opened Counting
  import opened Http
  import RequestParser
  import opened Reactor

  // ---------------------------------------------------------------- answers

  ghost function Pending(q: Queues, it: Item): nat {
    Times(q.tasks, it) + Times(q.active, it)
  }

  ghost predicate CompletionOk(log: Log, done: Completion) {
    done.item.gen in log.responses && log.responses[done.item.gen] == done.bytes
  }

  /** Work in progress has no answer yet, and a completion carries the answer. */
  ghost predicate Answers(s: State) {
    && (forall it :: Pending(s.queues, it) > 0 ==> it.gen !in s.log.responses)
    && (forall i :: 0 <= i < |s.queues.completions| ==> CompletionOk(s.log, s.queues.completions[i]))
  }

  /** The data of one connection in its phase. */
  ghost predicate ConnData(c: Config, s: State, fd: Fd)
    requires fd in s.net.conns
  {
    var conn := s.net.conns[fd];
    var g, log := conn.gen, s.log;
    && (fd in s.net.readers ==>
          RequestParser.Undecided(conn.input, ReceivedBy(log, g), c.order) && g !in log.requests && g !in log.responses)
    && (fd !in s.net.writers ==> SentTo(log, g) == "")
    && (conn.awaiting ==> g in log.requests)
    && (fd in s.net.writers ==>
          && g in log.responses && conn.writeBuffer == log.responses[g]
          && conn.writeOffset <= |conn.writeBuffer| && SentTo(log, g) == conn.writeBuffer[..conn.writeOffset])
  }

  ghost predicate Data(c: Config, s: State) {
    forall fd :: fd in s.net.conns ==> ConnData(c, s, fd)
  }

  ghost predicate Unknown(log: Log, g: Gen) {
    g !in log.received && g !in log.requests && g !in log.responses && g !in log.sent
  }

  ghost predicate OnlyKnown(s: State) {
    forall g :: g >= s.net.nextGen ==> Unknown(s.log, g)
  }

  // ---------------------------------------------------------------- lemmas on items

  lemma PlacedIsOwed(s: State, it: Item)
    requires Work(s) && !Torn(s) && Places(s.queues, it) > 0
    ensures Owed(s, it) && Places(s.queues, it) == 1
  {}

  /** A generation has at most one item, in one place. */
  lemma OneItemPerGen(s: State, it: Item, other: Item)
    requires Descriptors(s.net) && Work(s) && !Torn(s)
    requires Places(s.queues, it) > 0 && Places(s.queues, other) > 0 && it.gen == other.gen
    ensures it == other
  {
    PlacedIsOwed(s, it);
    PlacedIsOwed(s, other);
  }

  lemma ActivePending(q: Queues, i: nat)
    requires i < |q.active|
    ensures Pending(q, q.active[i]) > 0
  {
    TimesMember(q.active, q.active[i]);
  }

  lemma CompletionPlaced(q: Queues, i: nat)
    requires i < |q.completions|
    ensures Places(q, q.completions[i].item) > Pending(q, q.completions[i].item)
  {
    var items := ItemsOf(q.completions);
    TimesMember(items, items[i]);
  }

  /** A connection that does not wait has nothing in the queues. */
  lemma NothingForReader(s: State, fd: Fd, it: Item)
    requires Descriptors(s.net) && Work(s) && !Torn(s) && fd in s.net.conns && !s.net.conns[fd].awaiting
    requires it.gen == s.net.conns[fd].gen
    ensures Places(s.queues, it) == 0
  {
    if Places(s.queues, it) > 0 { PlacedIsOwed(s, it); }
  }

  lemma PendingAfter(s: State, e: Event, it: Item)
    requires Allowed(s, e)
    ensures Pending(QueuesAfter(s, e), it) <= Pending(s.queues, it) + (if Adds(s, e, it) then 1 else 0)
    ensures e.Complete? && it == s.queues.active[e.i] ==> Pending(QueuesAfter(s, e), it) + 1 == Pending(s.queues, it)
  {
    var q := s.queues;
    match e
    case Recv(_, verdict, _) =>
      if verdict.Dispatched? { TimesSnoc(q.tasks, NewItem(s, e), it); }
    case TakeTask =>
      TimesTail(q.tasks, it);
      TimesSnoc(q.active, q.tasks[0], it);
    case SkipTask(i) =>
      TimesRemove(q.active, i, it);
    case Complete(i, bytes) =>
      TimesRemove(q.active, i, it);
    case _ =>
  }

  // ---------------------------------------------------------------- steps

  /** The invariants that do not speak of data. */
  ghost predicate Protocol(s: State) {
    Descriptors(s.net) && Filters(s.net) && Reports(s) && Work(s)
  }

  lemma StepKeepsProtocol(c: Config, s: State, e: Event)
    requires Protocol(s) && Allowed(s, e)
    ensures Protocol(Apply(c, s, e))
  {
    WorkIsExpected(s);
    StepKeepsDescriptors(c, s, e);
    StepKeepsFilters(c, s, e);
    StepKeepsReports(c, s, e);
    StepKeepsWork(c, s, e);
  }

  /** The generation a step gives an answer to. */
  ghost predicate AnswersGen(s: State, e: Event, g: Gen)
    requires Allowed(s, e)
  {
    match e
    case Recv(_, verdict, _) => verdict.Rejected? && g == Current(s).gen
    case Complete(i, _) => g == s.queues.active[i].gen
    case _ => false
  }

  lemma ResponsesAfter(c: Config, s: State, e: Event, g: Gen)
    requires Allowed(s, e) && !AnswersGen(s, e, g)
    ensures var t := LogAfter(c, s, e);
            (g in t.responses <==> g in s.log.responses) && (g in t.responses ==> t.responses[g] == s.log.responses[g])
  {}

  /** A step answers nobody whose completion or other task is still there. */
  lemma AnswersOnce(s: State, e: Event, it: Item)
    requires Protocol(s) && Allowed(s, e) && !Torn(s) && AnswersGen(s, e, it.gen)
    ensures Pending(QueuesAfter(s, e), it) == 0
    ensures Times(ItemsOf(s.queues.completions), it) == 0
  {
    PendingAfter(s, e, it);
    if e.Recv? {
      assert PhaseOk(s.net, s.loop.pc.fd);
      NothingForReader(s, s.loop.pc.fd, it);
    } else {
      var mine := s.queues.active[e.i];
      ActivePending(s.queues, e.i);
      if Places(s.queues, it) > 0 {
        OneItemPerGen(s, it, mine);
        PlacedIsOwed(s, it);
      }
    }
  }

  lemma NewItemUnanswered(c: Config, s: State, e: Event)
    requires Protocol(s) && Data(c, s) && Allowed(s, e) && e.Recv? && e.verdict.Dispatched?
    ensures NewItem(s, e).gen !in s.log.responses
  {
    assert ConnData(c, s, s.loop.pc.fd);
  }

  lemma StepKeepsAnswers(c: Config, s: State, e: Event)
    requires Protocol(s) && Answers(s) && Data(c, s) && Allowed(s, e)
    ensures Answers(Apply(c, s, e))
  {
    var t := Apply(c, s, e);
    forall it | Pending(t.queues, it) > 0 ensures it.gen !in t.log.responses {
      PendingAfter(s, e, it);
      if Adds(s, e, it) { NewItemUnanswered(c, s, e); }
      if AnswersGen(s, e, it.gen) { AnswersOnce(s, e, it); }
      ResponsesAfter(c, s, e, it.gen);
    }
    forall i | 0 <= i < |t.queues.completions| ensures CompletionOk(t.log, t.queues.completions[i]) {
      CompletionsAfter(c, s, e, i);
    }
  }

  lemma CompletionsAfter(c: Config, s: State, e: Event, i: nat)
    requires Protocol(s) && Answers(s) && Data(c, s) && Allowed(s, e) && i < |QueuesAfter(s, e).completions|
    ensures CompletionOk(LogAfter(c, s, e), QueuesAfter(s, e).completions[i])
  {
    var q, done := s.queues, QueuesAfter(s, e).completions[i];
    if !(e.Complete? && i == |q.completions|) {
      var k := if e.Pop? then i + 1 else i;
      assert done == q.completions[k];
      assert CompletionOk(s.log, q.completions[k]);
      CompletionPlaced(q, k);
      if AnswersGen(s, e, done.item.gen) { AnswersOnce(s, e, done.item); }
      ResponsesAfter(c, s, e, done.item.gen);
    }
  }

  // ---------------------------------------------------------------- the data of a connection

  /** The generation whose history a step extends. */
  ghost predicate Touches(s: State, e: Event, g: Gen)
    requires Allowed(s, e)
  {
    match e
    case Recv(_, _, _) => g == Current(s).gen
    case Send(_) => g == Current(s).gen
    case Complete(i, _) => g == s.queues.active[i].gen
    case _ => false
  }

  ghost predicate SameHistory(a: Log, b: Log, g: Gen) {
    && (g in a.received <==> g in b.received) && ReceivedBy(a, g) == ReceivedBy(b, g)
    && (g in a.sent <==> g in b.sent) && SentTo(a, g) == SentTo(b, g)
    && (g in a.requests <==> g in b.requests) && (g in a.requests ==> a.requests[g] == b.requests[g])
    && (g in a.responses <==> g in b.responses) && (g in a.responses ==> a.responses[g] == b.responses[g])
  }

  lemma HistoryElsewhere(c: Config, s: State, e: Event, g: Gen)
    requires Allowed(s, e) && !Touches(s, e, g)
    ensures SameHistory(s.log, LogAfter(c, s, e), g)
  {}

  /** The connection a step changes, if any. */
  ghost predicate Moves(s: State, e: Event, fd: Fd)
    requires Allowed(s, e)
  {
    match e
    case Accept(f) => fd == f
    case Recv(_, _, _) => fd == s.loop.pc.fd
    case Send(_) => fd == s.loop.pc.fd
    case Pop => fd == s.queues.completions[0].item.fd
    case RecvEnd => fd == s.loop.pc.fd
    case SendError => fd == s.loop.pc.fd
    case SendDone => fd == s.loop.pc.fd
    case CloseNext(f) => fd == f
    case _ => false
  }

  lemma ConnElsewhere(c: Config, s: State, e: Event, fd: Fd)
    requires Allowed(s, e) && !Moves(s, e, fd)
    ensures var n, t := s.net, NetAfter(c, s, e);
            && (fd in n.conns <==> fd in t.conns) && (fd in n.conns ==> n.conns[fd] == t.conns[fd])
            && (fd in n.readers <==> fd in t.readers) && (fd in n.writers <==> fd in t.writers)
  {}

  lemma OtherConnData(c: Config, s: State, e: Event, fd: Fd)
    requires Protocol(s) && Data(c, s) && Allowed(s, e) && fd in s.net.conns && !Moves(s, e, fd)
    ensures fd in NetAfter(c, s, e).conns && ConnData(c, Apply(c, s, e), fd)
  {
    ConnElsewhere(c, s, e, fd);
    assert ConnData(c, s, fd);
    var g := s.net.conns[fd].gen;
    if Touches(s, e, g) {
      assert e.Complete?;
      AnsweredAwaits(c, s, e, fd);
    } else {
      HistoryElsewhere(c, s, e, g);
    }
  }

  /** A worker's answer concerns a connection that waits. */
  lemma AnsweredAwaits(c: Config, s: State, e: Event, fd: Fd)
    requires Protocol(s) && Data(c, s) && Allowed(s, e) && e.Complete? && fd in s.net.conns
    requires s.net.conns[fd].gen == s.queues.active[e.i].gen
    ensures ConnData(c, Apply(c, s, e), fd)
  {
    var it := s.queues.active[e.i];
    ActivePending(s.queues, e.i);
    PlacedIsOwed(s, it);
    assert it.fd == fd && PhaseOk(s.net, fd) && ConnData(c, s, fd);
  }

  lemma RecvKeepsData(c: Config, s: State, e: Event)
    requires Protocol(s) && Data(c, s) && Enabled(c, s, e) && e.Recv?
    ensures ConnData(c, Apply(c, s, e), s.loop.pc.fd)
  {
    var fd := s.loop.pc.fd;
    assert PhaseOk(s.net, fd) && ConnData(c, s, fd);
    if e.verdict.Waiting? {
      RequestParser.StillUndecided(Current(s).input, ReceivedBy(s.log, Current(s).gen), e.chunk, c.order);
    }
  }

  lemma SendKeepsData(c: Config, s: State, e: Event)
    requires Protocol(s) && Data(c, s) && Allowed(s, e) && e.Send?
    ensures ConnData(c, Apply(c, s, e), s.loop.pc.fd)
  {
    var fd := s.loop.pc.fd;
    assert PhaseOk(s.net, fd) && ConnData(c, s, fd);
    var conn := Current(s);
    var o := conn.writeOffset;
    assert conn.writeBuffer[..o + e.n] == conn.writeBuffer[..o] + conn.writeBuffer[o..o + e.n];
  }

  lemma PopKeepsData(c: Config, s: State)
    requires Protocol(s) && Data(c, s) && Answers(s) && Allowed(s, Pop)
    ensures var fd := s.queues.completions[0].item.fd;
            fd in NetAfter(c, s, Pop).conns && ConnData(c, Apply(c, s, Pop), fd)
  {
    PoppedIsOwed(s);
    var fd := s.queues.completions[0].item.fd;
    assert PhaseOk(s.net, fd) && ConnData(c, s, fd) && CompletionOk(s.log, s.queues.completions[0]);
    var bytes := s.queues.completions[0].bytes;
    assert bytes[..0] == "";
  }

  lemma AcceptKeepsData(c: Config, s: State, e: Event)
    requires Protocol(s) && OnlyKnown(s) && Allowed(s, e) && e.Accept?
    ensures ConnData(c, Apply(c, s, e), e.fd)
  {
    var g := s.net.nextGen;
    assert Unknown(s.log, g);
    assert e.fd !in s.net.writers;
    StartsUndecided(c.order);
  }

  lemma StartsUndecided(order: Order)
    ensures RequestParser.Undecided(RequestParser.FRESH, [], order)
  {
    assert RequestParser.Concat([]) == "";
    assert !RequestParser.EarlyLongLine([]);
  }

  lemma StepKeepsData(c: Config, s: State, e: Event)
    requires Protocol(s) && Answers(s) && Data(c, s) && OnlyKnown(s) && Enabled(c, s, e)
    ensures Data(c, Apply(c, s, e)) && OnlyKnown(Apply(c, s, e))
  {
    var t := Apply(c, s, e);
    forall fd | fd in t.net.conns ensures ConnData(c, t, fd) {
      if !Moves(s, e, fd) {
        ConnElsewhere(c, s, e, fd);
        OtherConnData(c, s, e, fd);
      } else {
        match e
        case Accept(_) => AcceptKeepsData(c, s, e);
        case Recv(_, _, _) => RecvKeepsData(c, s, e);
        case Send(_) => SendKeepsData(c, s, e);
        case Pop => PopKeepsData(c, s);
        case _ =>
      }
    }
    StepKeepsKnown(c, s, e);
  }

  lemma StepKeepsKnown(c: Config, s: State, e: Event)
    requires Protocol(s) && OnlyKnown(s) && Allowed(s, e)
    ensures OnlyKnown(Apply(c, s, e))
  {
    var t := Apply(c, s, e);
    assert t.net.nextGen >= s.net.nextGen;
    if e.Complete? {
      ActivePending(s.queues, e.i);
      PlacedIsOwed(s, s.queues.active[e.i]);
    }
    forall g | g >= t.net.nextGen ensures Unknown(t.log, g) {
      assert Unknown(s.log, g);
      HistoryElsewhere(c, s, e, g);
    }
  }

  // ---------------------------------------------------------------- history

  /** Why a generation got its answer: a worker gave it, or the parser rejected what was received. */
  ghost predicate AnswerReason(c: Config, log: Log, g: Gen)
    requires g in log.responses
  {
    || g in log.requests
    || exists status :: RequestParser.Expected(ReceivedBy(log, g), c.order) == RequestParser.Rejected(status)
                        && log.responses[g] == c.rejection(status)
  }

  ghost predicate GenHistory(c: Config, log: Log, g: Gen) {
    && (g in log.requests ==>
          RequestParser.Expected(ReceivedBy(log, g), c.order) == RequestParser.Dispatched(log.requests[g]))
    && (g in log.responses ==> AnswerReason(c, log, g))
    && (SentTo(log, g) != "" ==> g in log.responses && SentTo(log, g) <= log.responses[g])
  }

  ghost predicate History(c: Config, log: Log) {
    forall g :: GenHistory(c, log, g)
  }

  lemma RecvKeepsHistory(c: Config, s: State, e: Event)
    requires Protocol(s) && Data(c, s) && History(c, s.log) && Enabled(c, s, e) && e.Recv?
    ensures GenHistory(c, LogAfter(c, s, e), Current(s).gen)
  {
    var conn := Current(s);
    var done := ReceivedBy(s.log, conn.gen);
    assert PhaseOk(s.net, s.loop.pc.fd) && ConnData(c, s, s.loop.pc.fd) && GenHistory(c, s.log, conn.gen);
    if !e.verdict.Waiting? {
      RequestParser.Decided(conn.input, done, e.chunk, [], c.order);
      assert done + [e.chunk] + [] == done + [e.chunk];
      assert ReceivedBy(LogAfter(c, s, e), conn.gen) == done + [e.chunk];
    }
  }

  lemma SendKeepsHistory(c: Config, s: State, e: Event)
    requires Protocol(s) && Data(c, s) && History(c, s.log) && Allowed(s, e) && e.Send?
    ensures GenHistory(c, LogAfter(c, s, e), Current(s).gen)
  {
    var conn := Current(s);
    assert PhaseOk(s.net, s.loop.pc.fd) && ConnData(c, s, s.loop.pc.fd) && GenHistory(c, s.log, conn.gen);
    SendKeepsData(c, s, e);
  }

  lemma AnswerKeepsHistory(c: Config, s: State, e: Event)
    requires Protocol(s) && Data(c, s) && History(c, s.log) && Allowed(s, e) && e.Complete?
    ensures GenHistory(c, LogAfter(c, s, e), s.queues.active[e.i].gen)
  {
    var it := s.queues.active[e.i];
    ActivePending(s.queues, e.i);
    PlacedIsOwed(s, it);
    assert PhaseOk(s.net, it.fd) && ConnData(c, s, it.fd) && GenHistory(c, s.log, it.gen);
  }

  lemma StepKeepsHistory(c: Config, s: State, e: Event)
    requires Protocol(s) && Data(c, s) && History(c, s.log) && Enabled(c, s, e)
    ensures History(c, LogAfter(c, s, e))
  {
    forall g ensures GenHistory(c, LogAfter(c, s, e), g) {
      assert GenHistory(c, s.log, g);
      if !Touches(s, e, g) {
        HistoryElsewhere(c, s, e, g);
      } else {
        match e
        case Recv(_, _, _) => RecvKeepsHistory(c, s, e);
        case Send(_) => SendKeepsHistory(c, s, e);
        case Complete(_, _) => AnswerKeepsHistory(c, s, e);
      }
    }
  }

  // ---------------------------------------------------------------- runs

  ghost predicate Inv(c: Config, s: State) {
    Protocol(s) && Answers(s) && Data(c, s) && OnlyKnown(s) && History(c, s.log)
  }

  lemma StepKeepsInv(c: Config, s: State, e: Event)
    requires Inv(c, s) && Enabled(c, s, e)
    ensures Inv(c, Apply(c, s, e))
  {
    StepKeepsProtocol(c, s, e);
    StepKeepsAnswers(c, s, e);
    StepKeepsData(c, s, e);
    StepKeepsHistory(c, s, e);
  }

  ghost predicate IsStep(c: Config, s: State, e: Event, t: State) {
    Enabled(c, s, e) && t == Apply(c, s, e)
  }

  /** `states` are the states a run of `events` goes through. */
  ghost predicate IsRun(c: Config, events: seq<Event>, states: seq<State>) {
    && |states| == |events| + 1
    && states[0] == START
    && forall i :: 0 <= i < |events| ==> IsStep(c, states[i], events[i], states[i + 1])
  }

  /** `stop`, a signal that is handled, or teardown. */
  ghost predicate Stops(s: State, e: Event) {
    e.RequestStop? || e.TearDown? || (e.Next? && s.loop.batch != [] && s.loop.batch[0].Signal?)
  }

  /** `run` was called and nothing has stopped the loop since. */
  ghost predicate Up(events: seq<Event>, states: seq<State>, i: nat)
    requires i <= |events| < |states|
  {
    exists j :: 0 <= j < i && UpSince(events, states, j, i)
  }

  ghost predicate UpSince(events: seq<Event>, states: seq<State>, j: int, i: nat)
    requires 0 <= j < i <= |events| < |states|
  {
    events[j].Run? && forall k :: j < k < i ==> !Stops(states[k], events[k])
  }

  lemma UpStep(events: seq<Event>, states: seq<State>, i: nat)
    requires 0 < i <= |events| < |states|
    ensures Up(events, states, i) <==>
            events[i - 1].Run? || (Up(events, states, i - 1) && !Stops(states[i - 1], events[i - 1]))
  {
    if events[i - 1].Run? { assert UpSince(events, states, i - 1, i); }
    if Up(events, states, i - 1) && !Stops(states[i - 1], events[i - 1]) {
      var j :| 0 <= j < i - 1 && UpSince(events, states, j, i - 1);
      assert UpSince(events, states, j, i);
    }
    if Up(events, states, i) && !events[i - 1].Run? {
      var j :| 0 <= j < i && UpSince(events, states, j, i);
      assert UpSince(events, states, j, i - 1);
    }
  }

  lemma RunningStep(c: Config, s: State, e: Event)
    requires Enabled(c, s, e)
    ensures Apply(c, s, e).loop.running <==> e.Run? || (s.loop.running && !Stops(s, e))
  {}

  lemma {:induction false} RunningIff(c: Config, events: seq<Event>, states: seq<State>, i: nat)
    requires IsRun(c, events, states) && i <= |events|
    ensures states[i].loop.running <==> Up(events, states, i)
  {
    if i > 0 {
      RunningIff(c, events, states, i - 1);
      assert IsStep(c, states[i - 1], events[i - 1], states[i]);
      RunningStep(c, states[i - 1], events[i - 1]);
      UpStep(events, states, i);
    }
  }

  /** The loop polls only while nothing has stopped it, and is left only when something has. */
  lemma PollsUntilStopped(c: Config, events: seq<Event>, states: seq<State>, i: nat)
    requires IsRun(c, events, states) && i < |events|
    ensures events[i].Poll? ==> Up(events, states, i)
    ensures events[i].LeaveLoop? ==> !Up(events, states, i)
  {
    RunningIff(c, events, states, i);
    assert IsStep(c, states[i], events[i], states[i + 1]);
  }

  // ---------------------------------------------------------------- completions are looked for

  /** The loop is between a poll and the next. */
  predicate InRound(pc: Pc) {
    pc.Dispatching? || pc.Accepting? || pc.Reading? || pc.Writing? || pc.Draining?
  }

  /** Between the steps `i` and `j` the loop has found no completion left. */
  ghost predicate FoundEmpty(events: seq<Event>, states: seq<State>, i: int, j: int)
    requires j <= |events| < |states|
  {
    exists k :: 0 <= i < k < j && events[k].PopNone? && states[k].queues.completions == []
  }

  lemma StaysInRound(c: Config, s: State, e: Event)
    requires Enabled(c, s, e) && InRound(s.loop.pc) && !e.PopNone?
    ensures InRound(Apply(c, s, e).loop.pc)
    ensures s.loop.pc.Draining? ==> Apply(c, s, e).loop.pc == s.loop.pc
  {}

  /** From a state of a round the loop gets to its next poll only by finding the queue empty, and so it gets out of
      draining. */
  lemma {:induction false} RoundGoesOn(c: Config, events: seq<Event>, states: seq<State>, i: nat, j: nat)
    requires IsRun(c, events, states) && i < j <= |events| && !FoundEmpty(events, states, i, j)
    requires InRound(states[i + 1].loop.pc)
    ensures InRound(states[j].loop.pc)
    ensures states[i + 1].loop.pc.Draining? ==> states[j].loop.pc.Draining?
  {
    if j > i + 1 {
      NotFoundBefore(events, states, i, j);
      RoundGoesOn(c, events, states, i, j - 1);
      RoundStep(c, events, states, j - 1);
    }
  }

  lemma RoundStep(c: Config, events: seq<Event>, states: seq<State>, i: nat)
    requires IsRun(c, events, states) && i < |events| && InRound(states[i].loop.pc)
    requires events[i].PopNone? ==> states[i].queues.completions != []
    ensures InRound(states[i + 1].loop.pc)
    ensures states[i].loop.pc.Draining? ==> states[i + 1].loop.pc.Draining?
  {
    RunStep(c, events, states, i);
    NotPopNone(c, states[i], events[i]);
    StaysInRound(c, states[i], events[i]);
  }

  lemma RunStep(c: Config, events: seq<Event>, states: seq<State>, i: nat)
    requires IsRun(c, events, states) && i < |events|
    ensures Enabled(c, states[i], events[i]) && states[i + 1] == Apply(c, states[i], events[i])
  {
    assert IsStep(c, states[i], events[i], states[i + 1]);
  }

  lemma NotPopNone(c: Config, s: State, e: Event)
    requires Enabled(c, s, e) && (e.PopNone? ==> s.queues.completions != [])
    ensures !e.PopNone?
  {}

  lemma NotFoundBefore(events: seq<Event>, states: seq<State>, i: nat, j: nat)
    requires i + 1 < j <= |events| < |states| && !FoundEmpty(events, states, i, j)
    ensures !FoundEmpty(events, states, i, j - 1)
    ensures events[j - 1].PopNone? ==> states[j - 1].queues.completions != []
  {}

  /** Between a poll and the next the loop has seen the completion queue empty, and so it has between a reported
      wake and whatever report it handles after that. */
  lemma DrainedBetween(c: Config, events: seq<Event>, states: seq<State>, i: nat, j: nat)
    requires IsRun(c, events, states) && i < j < |events|
    requires (events[i].Poll? && events[j].Poll?) ||
             (HandlesWake(states[i], events[i]) && (events[j].Next? || events[j].Poll?))
    ensures FoundEmpty(events, states, i, j)
  {
    assert IsStep(c, states[i], events[i], states[i + 1]);
    assert IsStep(c, states[j], events[j], states[j + 1]);
    if !FoundEmpty(events, states, i, j) { RoundGoesOn(c, events, states, i, j); }
  }

  ghost predicate HandlesWake(s: State, e: Event) {
    e.Next? && s.loop.batch != [] && s.loop.batch[0].Wake?
  }

  /** The pool hands the tasks out in the order of the queue. */
  lemma FrontTaskTaken(c: Config, s: State)
    requires Enabled(c, s, TakeTask)
    ensures var q, r := s.queues, Apply(c, s, TakeTask).queues;
            && |r.active| == |q.active| + 1 && q.active == r.active[..|q.active|]
            && q.tasks == [r.active[|q.active|]] + r.tasks
  {}

  lemma {:induction false} RunKeepsInv(c: Config, events: seq<Event>, states: seq<State>, i: nat)
    requires IsRun(c, events, states) && i <= |events|
    ensures Inv(c, states[i])
  {
    if i > 0 {
      RunKeepsInv(c, events, states, i - 1);
      assert IsStep(c, states[i - 1], events[i - 1], states[i]);
      StepKeepsInv(c, states[i - 1], events[i - 1]);
    }
  }

  /** In every reachable state a connection has one phase and its filter: reading with the read
      filter, writing with the write filter, or waiting with neither; and until teardown a waiting
      connection has its own request in exactly one of the queue, the workers and the completions,
      and nobody else's work is there. */
  lemma PhasesAndWork(c: Config, events: seq<Event>, states: seq<State>, i: nat, fd: Fd)
    requires IsRun(c, events, states) && i <= |events| && fd in states[i].net.conns
    ensures var s := states[i];
            var conn := s.net.conns[fd];
            && (if conn.awaiting then fd !in s.net.readers && fd !in s.net.writers
                else fd in s.net.readers <==> fd !in s.net.writers)
            && (conn.awaiting ==> conn.gen in s.log.requests)
            && (conn.awaiting && !s.loop.abandoning ==>
                  Places(s.queues, Item(fd, conn.gen, s.log.requests[conn.gen])) == 1)
            && (!Torn(s) ==> forall it: Item :: it.fd == fd && Places(s.queues, it) > 0 ==>
                  conn.awaiting && it == Item(fd, conn.gen, s.log.requests[conn.gen]))
  {
    RunKeepsInv(c, events, states, i);
    var s := states[i];
    assert PhaseOk(s.net, fd) && ConnData(c, s, fd);
    if s.net.conns[fd].awaiting {
      assert Owed(s, Item(fd, s.net.conns[fd].gen, s.log.requests[s.net.conns[fd].gen])) ;
    }
  }

  /** No handler is ever called, and no completion delivered, for a client that is gone: a report
      finds the client it was made for, in the phase it was made for, and so does a completion, and
      a handler at work has its connection throughout.  The guards of the handlers are never needed. */
  lemma NothingStale(c: Config, events: seq<Event>, states: seq<State>, i: nat)
    requires IsRun(c, events, states) && i < |events|
    ensures var s := states[i];
            && (events[i].Next? && s.loop.batch != [] && ForClient(s.loop.batch[0]) ==>
                  var r := s.loop.batch[0];
                  && r.fd in s.net.conns && s.net.conns[r.fd].gen == r.gen && !s.net.conns[r.fd].awaiting
                  && states[i + 1].loop.pc == if r.Readable? then Reading(r.fd, r.gen) else Writing(r.fd, r.gen))
            && (events[i].Pop? ==> s.queues.completions != [] && Owed(s, s.queues.completions[0].item))
            && (s.loop.pc.Reading? || s.loop.pc.Writing? ==>
                  AtConn(s) && Current(s).gen == s.loop.pc.gen && !Current(s).awaiting)
  {
    RunKeepsInv(c, events, states, i);
    var s := states[i];
    assert IsStep(c, s, events[i], states[i + 1]);
    if s.loop.batch != [] && ForClient(s.loop.batch[0]) { ReportIsTrue(s); }
    if events[i].Pop? { PoppedIsOwed(s); }
    if s.loop.pc.Reading? || s.loop.pc.Writing? { assert PhaseOk(s.net, s.loop.pc.fd); }
  }

  /** The report to be handled next is about a connection that is not awaiting. */
  lemma ReportIsTrue(s: State)
    requires Descriptors(s.net) && Filters(s.net) && Reports(s) && s.loop.batch != [] && ForClient(s.loop.batch[0])
    ensures var r := s.loop.batch[0];
            && r.fd in s.net.conns && s.net.conns[r.fd].gen == r.gen && !s.net.conns[r.fd].awaiting
            && Handler(s.net, r) == if r.Readable? then Reading(r.fd, r.gen) else Writing(r.fd, r.gen)
  {
    assert Fires(s.net, s.loop.batch[0]) && PhaseOk(s.net, s.loop.batch[0].fd);
  }

  /** What is written to a client is always a prefix of the one response decided for it: the one a
      worker gave for the request parsed from that client's own bytes, or the rejection of them. */
  lemma OwnResponse(c: Config, events: seq<Event>, states: seq<State>, i: nat, g: Gen)
    requires IsRun(c, events, states) && i <= |events|
    ensures var log := states[i].log;
            && (SentTo(log, g) != "" ==> g in log.responses && SentTo(log, g) <= log.responses[g])
            && (g in log.responses ==> AnswerReason(c, log, g))
            && (g in log.requests ==>
                  RequestParser.Expected(ReceivedBy(log, g), c.order) == RequestParser.Dispatched(log.requests[g]))
  {
    RunKeepsInv(c, events, states, i);
    assert GenHistory(c, states[i].log, g);
  }

  ghost predicate Keeps(a: Log, b: Log, g: Gen) {
    && (g in a.requests ==> g in b.requests && b.requests[g] == a.requests[g])
    && (g in a.responses ==> g in b.responses && b.responses[g] == a.responses[g])
  }

  ghost predicate KeptInStep(states: seq<State>, k: nat, g: Gen)
    requires k + 1 < |states|
  {
    Keeps(states[k].log, states[k + 1].log, g)
  }

  lemma {:induction false} KeptThroughout(states: seq<State>, i: nat, j: nat, g: Gen)
    requires i <= j < |states|
    requires forall k {:trigger KeptInStep(states, k, g)} :: i <= k < j ==> KeptInStep(states, k, g)
    ensures Keeps(states[i].log, states[j].log, g)
    decreases j
  {
    if i < j {
      KeptThroughout(states, i, j - 1, g);
      assert KeptInStep(states, j - 1, g);
      KeepsOn(states[i].log, states[j - 1].log, states[j].log, g);
    }
  }

  /** Decisions are final: a request or a response once there never changes. */
  lemma DecisionsAreFinal(c: Config, events: seq<Event>, states: seq<State>, i: nat, j: nat, g: Gen)
    requires IsRun(c, events, states) && i <= j <= |events|
    ensures Keeps(states[i].log, states[j].log, g)
  {
    forall k | i <= k < j ensures KeptInStep(states, k, g) { DecisionsKept(c, events, states, k, g); }
    KeptThroughout(states, i, j, g);
  }

  lemma KeepsOn(a: Log, b: Log, d: Log, g: Gen)
    requires Keeps(a, b, g) && Keeps(b, d, g)
    ensures Keeps(a, d, g)
  {}

  lemma DecisionsKept(c: Config, events: seq<Event>, states: seq<State>, i: nat, g: Gen)
    requires IsRun(c, events, states) && i < |events|
    ensures Keeps(states[i].log, states[i + 1].log, g)
  {
    assert IsStep(c, states[i], events[i], states[i + 1]);
    RunKeepsInv(c, events, states, i);
    StepKeepsDecisions(c, states[i], events[i], g);
  }

  lemma StepKeepsDecisions(c: Config, s: State, e: Event, g: Gen)
    requires Inv(c, s) && Enabled(c, s, e)
    ensures Keeps(s.log, LogAfter(c, s, e), g)
  {
    if !Touches(s, e, g) {
      HistoryElsewhere(c, s, e, g);
    } else if e.Complete? {
      ActivePending(s.queues, e.i);
    } else {
      assert PhaseOk(s.net, s.loop.pc.fd) && ConnData(c, s, s.loop.pc.fd);
    }
  }

  /** A dispatched request is completed at most once, by a worker that holds that very request. */
  lemma CompletedOnce(c: Config, events: seq<Event>, states: seq<State>, i: nat, j: nat)
    requires IsRun(c, events, states) && i < j < |events| && events[i].Complete? && events[j].Complete?
    ensures events[i].i < |states[i].queues.active| && events[j].i < |states[j].queues.active|
    ensures var done, other := states[i].queues.active[events[i].i], states[j].queues.active[events[j].i];
            && done.gen != other.gen
            && done.gen in states[i].log.requests && states[i].log.requests[done.gen] == done.request
  {
    assert IsStep(c, states[i], events[i], states[i + 1]);
    assert IsStep(c, states[j], events[j], states[j + 1]);
    RunKeepsInv(c, events, states, i);
    RunKeepsInv(c, events, states, j);
    var done, other := states[i].queues.active[events[i].i], states[j].queues.active[events[j].i];
    ActivePending(states[i].queues, events[i].i);
    PlacedIsOwed(states[i], done);
    ActivePending(states[j].queues, events[j].i);
    DecisionsAreFinal(c, events, states, i + 1, j, done.gen);
  }

  /** A client closed because everything is sent has got its whole response. */
  lemma SentInFull(c: Config, events: seq<Event>, states: seq<State>, i: nat)
    requires IsRun(c, events, states) && i < |events| && events[i].SendDone?
    ensures var s := states[i];
            && AtConn(s) && Current(s).gen in s.log.responses
            && SentTo(s.log, Current(s).gen) == s.log.responses[Current(s).gen]
  {
    RunKeepsInv(c, events, states, i);
    var s := states[i];
    assert IsStep(c, s, events[i], states[i + 1]);
    assert PhaseOk(s.net, s.loop.pc.fd) && ConnData(c, s, s.loop.pc.fd);
    assert Current(s).writeBuffer[..|Current(s).writeBuffer|] == Current(s).writeBuffer;
  }

  /** No client descriptor is closed twice, and by the end of teardown each is closed. */
  lemma ClosedExactlyOnce(c: Config, events: seq<Event>, states: seq<State>, i: nat, g: Gen)
    requires IsRun(c, events, states) && i <= |events|
    ensures var s := states[i];
            && Times(s.net.closed, g) == (if g < s.net.nextGen && !Live(s.net, g) then 1 else 0)
            && (s.loop.pc.Ended? && g < s.net.nextGen ==> Times(s.net.closed, g) == 1)
  {
    RunKeepsInv(c, events, states, i);
    NobodyLeft(c, events, states, i);
  }

  lemma {:induction false} NobodyLeft(c: Config, events: seq<Event>, states: seq<State>, i: nat)
    requires IsRun(c, events, states) && i <= |events|
    ensures states[i].loop.pc.Ended? ==> states[i].net.conns == map[]
  {
    if i > 0 {
      NobodyLeft(c, events, states, i - 1);
      assert IsStep(c, states[i - 1], events[i - 1], states[i]);
      EndedIsEmpty(c, states[i - 1], events[i - 1]);
    }
  }

  lemma EndedIsEmpty(c: Config, s: State, e: Event)
    requires Allowed(s, e) && (s.loop.pc.Ended? ==> s.net.conns == map[])
    ensures LoopAfter(s, e).pc.Ended? ==> NetAfter(c, s, e).conns == map[]
  {}
}
