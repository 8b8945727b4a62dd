/** The reactor, its worker pool and its completion queue as a protocol.

    The reactor thread takes one step for each system call or queue operation, and the workers and
    `stop` step in between.  The descriptors the kernel hands out may be used again after a close,
    so every accepted client has a generation of its own.  No code reads generations; they appear in
    the model to say whom a task, a completion or a reported event was meant for. */
module Reactor {
  import opened Counting
  import opened Http
  import opened SocketCalls
  import RequestParser

  type Fd = nat
  type Gen = nat
  type Request = RequestParser.Request
  type Input = RequestParser.Conn
  type Verdict = RequestParser.Verdict

  datatype Conn = Conn(gen: Gen, input: Input, awaiting: bool, writeBuffer: string, writeOffset: nat)

  /** The connections of the gateway, and the kernel's side of them: the open client descriptors and
      the filters registered for them.  `closed` lists the generations in the order of closing. */
  datatype Net = Net(
    conns: map<Fd, Conn>, open: map<Fd, Gen>, readers: set<Fd>, writers: set<Fd>, nextGen: Gen, closed: seq<Gen>)

  /** What a poll reports. */
  datatype Ready =
    | Readable(fd: Fd, gen: Gen)
    | Writable(fd: Fd, gen: Gen)
    | Incoming
    | Wake
    | Signal

  datatype Pc =
    | Polling
    | Dispatching
    | Accepting
    | Reading(fd: Fd, gen: Gen)
    | Writing(fd: Fd, gen: Gen)
    | Draining(last: bool)
    | Stopped
    | Joining
    | Closing
    | Ended

  datatype Loop = Loop(pc: Pc, batch: seq<Ready>, running: bool, abandoning: bool)

  /** A task in the pool: the descriptor it will answer to and the request it works on. */
  datatype Item = Item(fd: Fd, gen: Gen, request: Request)

  datatype Completion = Completion(item: Item, bytes: string)

  datatype Queues = Queues(tasks: seq<Item>, active: seq<Item>, completions: seq<Completion>)

  /** History by generation: the bytes received, the request made of them, the response decided on
      and the bytes sent. */
  datatype Log = Log(
    received: map<Gen, seq<string>>, requests: map<Gen, Request>, responses: map<Gen, string>, sent: map<Gen, string>)

  datatype State = State(net: Net, loop: Loop, queues: Queues, log: Log)

  const START := State(
    Net(map[], map[], {}, {}, 0, []), Loop(Stopped, [], false, false), Queues([], [], []),
    Log(map[], map[], map[], map[]))

  /** The header order used by the parser and the text of a rejection are parameters. */
  datatype Config = Config(order: Order, rejection: nat -> string)

  datatype Event =
    | Run
    | Poll(batch: seq<Ready>)
    | LeaveLoop
    | Next
    | Accept(fd: Fd)
    | AcceptNone
    | Recv(chunk: string, verdict: Verdict, input: Input)
    | RecvEnd
    | RecvAgain
    | RecvInterrupted
    | Send(n: nat)
    | SendError
    | SendAgain
    | SendInterrupted
    | SendDone
    | Pop
    | PopNone
    | TakeTask
    | SkipTask(i: nat)
    | Complete(i: nat, bytes: string)
    | RequestStop
    | TearDown
    | WorkersJoined
    | CloseNext(fd: Fd)
    | TornDown

  /** The kernel reports a registered filter for the client that holds the descriptor now. */
  ghost predicate Fires(n: Net, r: Ready) {
    match r
    case Readable(fd, gen) => fd in n.readers && fd in n.open && n.open[fd] == gen
    case Writable(fd, gen) => fd in n.writers && fd in n.open && n.open[fd] == gen
    case _ => true
  }

  predicate ForClient(r: Ready) {
    r.Readable? || r.Writable?
  }

  /** A poll reports a filter at most once. */
  ghost predicate Reported(n: Net, batch: seq<Ready>) {
    && (forall i :: 0 <= i < |batch| ==> Fires(n, batch[i]))
    && (forall i, j :: 0 <= i < j < |batch| ==> batch[i] != batch[j])
  }

  ghost predicate Enabled(c: Config, s: State, e: Event) {
    Allowed(s, e) && (e.Recv? ==> FedBy(c, s, e))
  }

  /** The parser decides what a read leads to. */
  ghost predicate FedBy(c: Config, s: State, e: Event)
    requires Allowed(s, e) && e.Recv?
  {
    (e.verdict, e.input) == RequestParser.Feed(Current(s).input, e.chunk, c.order)
  }

  /** The handler at work has a connection. */
  predicate AtConn(s: State) {
    (s.loop.pc.Reading? || s.loop.pc.Writing?) && s.loop.pc.fd in s.net.conns
  }

  function Current(s: State): Conn
    requires AtConn(s)
  {
    s.net.conns[s.loop.pc.fd]
  }

  predicate Unsent(s: State) {
    s.loop.pc.Writing? && AtConn(s) && Current(s).writeOffset < |Current(s).writeBuffer|
  }

  ghost predicate Allowed(s: State, e: Event) {
    var pc := s.loop.pc;
    match e
    case Run => pc.Stopped?
    case Poll(batch) => pc.Polling? && s.loop.running && Reported(s.net, batch)
    case LeaveLoop => pc.Polling? && !s.loop.running
    case Next => pc.Dispatching?
    case Accept(fd) => pc.Accepting? && fd !in s.net.open
    case AcceptNone => pc.Accepting?
    case Recv(chunk, _, _) => pc.Reading? && AtConn(s) && 0 < |chunk| <= READ_CHUNK
    case RecvEnd => pc.Reading? && AtConn(s)
    case RecvAgain => pc.Reading?
    case RecvInterrupted => pc.Reading?
    case Send(n) => Unsent(s) && 0 < n <= |Current(s).writeBuffer| - Current(s).writeOffset
    case SendError => Unsent(s)
    case SendAgain => Unsent(s)
    case SendInterrupted => Unsent(s)
    case SendDone => pc.Writing? && AtConn(s) && !Unsent(s)
    case Pop => pc.Draining? && s.queues.completions != []
    case PopNone => pc.Draining? && s.queues.completions == []
    case TakeTask => s.queues.tasks != []
    case SkipTask(i) => i < |s.queues.active| && s.loop.abandoning
    case Complete(i, _) => i < |s.queues.active|
    case RequestStop => true
    case TearDown => pc.Stopped?
    case WorkersJoined => pc.Joining? && s.queues.tasks == [] && s.queues.active == []
    case CloseNext(fd) => pc.Closing? && fd in s.net.conns
    case TornDown => pc.Closing? && s.net.conns == map[]
  }

  // ---------------------------------------------------------------- what a step does

  /** Closing a descriptor also drops its filters. */
  function Close(n: Net, fd: Fd): Net {
    Net(n.conns - {fd}, n.open - {fd}, n.readers - {fd}, n.writers - {fd}, n.nextGen,
        if fd in n.open then n.closed + [n.open[fd]] else n.closed)
  }

  function Admit(n: Net, fd: Fd): Net {
    Net(n.conns[fd := Conn(n.nextGen, RequestParser.FRESH, false, "", 0)], n.open[fd := n.nextGen],
        n.readers + {fd}, n.writers, n.nextGen + 1, n.closed)
  }

  function Judge(c: Config, n: Net, fd: Fd, verdict: Verdict, input: Input): Net
    requires fd in n.conns
  {
    var conn := n.conns[fd].(input := input);
    match verdict
    case Waiting => n.(conns := n.conns[fd := conn])
    case Dispatched(_) => n.(conns := n.conns[fd := conn.(awaiting := true)], readers := n.readers - {fd})
    case Rejected(status) =>
      n.(conns := n.conns[fd := conn.(writeBuffer := c.rejection(status), writeOffset := 0)],
         readers := n.readers - {fd}, writers := n.writers + {fd})
  }

  function Advance(n: Net, fd: Fd, k: nat): Net
    requires fd in n.conns
  {
    n.(conns := n.conns[fd := n.conns[fd].(writeOffset := n.conns[fd].writeOffset + k)])
  }

  /** A completion whose descriptor is not in the table is dropped. */
  function Deliver(n: Net, fd: Fd, bytes: string): Net {
    if fd !in n.conns then n
    else n.(conns := n.conns[fd := n.conns[fd].(writeBuffer := bytes, writeOffset := 0, awaiting := false)],
            writers := n.writers + {fd})
  }

  function NetAfter(c: Config, s: State, e: Event): Net
    requires Allowed(s, e)
  {
    match e
    case Accept(fd) => Admit(s.net, fd)
    case Recv(_, verdict, input) => Judge(c, s.net, s.loop.pc.fd, verdict, input)
    case Send(n) => Advance(s.net, s.loop.pc.fd, n)
    case Pop => Deliver(s.net, s.queues.completions[0].item.fd, s.queues.completions[0].bytes)
    case RecvEnd => Close(s.net, s.loop.pc.fd)
    case SendError => Close(s.net, s.loop.pc.fd)
    case SendDone => Close(s.net, s.loop.pc.fd)
    case CloseNext(fd) => Close(s.net, fd)
    case _ => s.net
  }

  /** The handler a report leads to; the guards are those at the top of the handlers. */
  function Handler(n: Net, r: Ready): Pc {
    match r
    case Incoming => Accepting
    case Wake => Draining(false)
    case Signal => Dispatching
    case Readable(fd, gen) => if fd !in n.conns || n.conns[fd].awaiting then Dispatching else Reading(fd, gen)
    case Writable(fd, gen) => if fd !in n.conns then Dispatching else Writing(fd, gen)
  }

  function LoopAfter(s: State, e: Event): Loop
    requires Allowed(s, e)
  {
    var l := s.loop;
    match e
    case Run => l.(pc := Polling, running := true)
    case Poll(batch) => l.(pc := Dispatching, batch := batch)
    case LeaveLoop => l.(pc := Stopped)
    case Next =>
      if l.batch == [] then l.(pc := Draining(true))
      else Loop(Handler(s.net, l.batch[0]), l.batch[1..], l.running && !l.batch[0].Signal?, l.abandoning)
    case Recv(chunk, verdict, _) => if verdict.Waiting? && |chunk| == READ_CHUNK then l else l.(pc := Dispatching)
    case PopNone => l.(pc := if l.pc.last then Polling else Dispatching)
    case RequestStop => l.(running := false)
    case TearDown => l.(pc := Joining, running := false, abandoning := true)
    case WorkersJoined => l.(pc := Closing)
    case TornDown => l.(pc := Ended)
    case AcceptNone => l.(pc := Dispatching)
    case RecvEnd => l.(pc := Dispatching)
    case RecvAgain => l.(pc := Dispatching)
    case SendError => l.(pc := Dispatching)
    case SendAgain => l.(pc := Dispatching)
    case SendDone => l.(pc := Dispatching)
    case _ => l
  }

  function Without(items: seq<Item>, i: nat): seq<Item>
    requires i < |items|
  {
    items[..i] + items[i + 1..]
  }

  function QueuesAfter(s: State, e: Event): Queues
    requires Allowed(s, e)
  {
    var q := s.queues;
    match e
    case Recv(_, verdict, _) =>
      if verdict.Dispatched? then q.(tasks := q.tasks + [Item(s.loop.pc.fd, Current(s).gen, verdict.request)]) else q
    case TakeTask => Queues(q.tasks[1..], q.active + [q.tasks[0]], q.completions)
    case SkipTask(i) => q.(active := Without(q.active, i))
    case Complete(i, bytes) =>
      q.(active := Without(q.active, i), completions := q.completions + [Completion(q.active[i], bytes)])
    case Pop => q.(completions := q.completions[1..])
    case _ => q
  }

  function ReceivedBy(log: Log, g: Gen): seq<string> {
    if g in log.received then log.received[g] else []
  }

  function SentTo(log: Log, g: Gen): string {
    if g in log.sent then log.sent[g] else ""
  }

  function LogAfter(c: Config, s: State, e: Event): Log
    requires Allowed(s, e)
  {
    var log := s.log;
    match e
    case Recv(chunk, verdict, _) =>
      var g := Current(s).gen;
      Log(log.received[g := ReceivedBy(log, g) + [chunk]],
          if verdict.Dispatched? then log.requests[g := verdict.request] else log.requests,
          if verdict.Rejected? then log.responses[g := c.rejection(verdict.status)] else log.responses,
          log.sent)
    case Send(n) =>
      var conn := Current(s);
      var chunk := conn.writeBuffer[conn.writeOffset..conn.writeOffset + n];
      log.(sent := log.sent[conn.gen := SentTo(log, conn.gen) + chunk])
    case Complete(i, bytes) => log.(responses := log.responses[s.queues.active[i].gen := bytes])
    case _ => log
  }

  function Apply(c: Config, s: State, e: Event): State
    requires Allowed(s, e)
  {
    State(NetAfter(c, s, e), LoopAfter(s, e), QueuesAfter(s, e), LogAfter(c, s, e))
  }

  // ---------------------------------------------------------------- descriptors

  ghost predicate Live(n: Net, g: Gen) {
    exists fd :: fd in n.conns && n.conns[fd].gen == g
  }

  /** The table of connections is the set of open descriptors; every generation is live at one
      descriptor or closed once. */
  ghost predicate Descriptors(n: Net) {
    && n.open.Keys == n.conns.Keys
    && (forall fd :: fd in n.conns ==> n.open[fd] == n.conns[fd].gen < n.nextGen)
    && (forall f, g :: f in n.conns && g in n.conns && f != g ==> n.conns[f].gen != n.conns[g].gen)
    && (forall g: Gen :: Times(n.closed, g) == if g < n.nextGen && !Live(n, g) then 1 else 0)
  }

  lemma CloseKeepsDescriptors(n: Net, fd: Fd)
    requires Descriptors(n) && fd in n.conns
    ensures Descriptors(Close(n, fd))
  {
    var t := Close(n, fd);
    forall g: Gen ensures Times(t.closed, g) == if g < t.nextGen && !Live(t, g) then 1 else 0 {
      TimesSnoc(n.closed, n.open[fd], g);
      if Live(n, g) {
        var f :| f in n.conns && n.conns[f].gen == g;
        if f != fd { assert f in t.conns && t.conns[f].gen == g; }
      }
    }
  }

  lemma AdmitKeepsDescriptors(n: Net, fd: Fd)
    requires Descriptors(n) && fd !in n.open
    ensures Descriptors(Admit(n, fd))
  {
    var t := Admit(n, fd);
    assert t.conns[fd].gen == n.nextGen;
    forall g: Gen ensures Live(t, g) <==> Live(n, g) || g == n.nextGen {
      if Live(n, g) {
        var f :| f in n.conns && n.conns[f].gen == g;
        assert t.conns[f].gen == g;
      }
    }
  }

  /** Steps that change neither the set of connections nor their generations. */
  ghost predicate SameGens(n: Net, t: Net) {
    && t.conns.Keys == n.conns.Keys && t.open == n.open && t.nextGen == n.nextGen && t.closed == n.closed
    && (forall fd :: fd in n.conns ==> t.conns[fd].gen == n.conns[fd].gen)
  }

  lemma SameGensKeepDescriptors(n: Net, t: Net)
    requires Descriptors(n) && SameGens(n, t)
    ensures Descriptors(t)
  {
    forall g: Gen ensures Live(t, g) <==> Live(n, g) {
      if Live(n, g) {
        var f :| f in n.conns && n.conns[f].gen == g;
        assert t.conns[f].gen == g;
      }
      if Live(t, g) {
        var f :| f in t.conns && t.conns[f].gen == g;
        assert n.conns[f].gen == g;
      }
    }
  }

  lemma JudgeSameGens(c: Config, n: Net, fd: Fd, verdict: Verdict, input: Input)
    requires fd in n.conns
    ensures SameGens(n, Judge(c, n, fd, verdict, input))
  {}

  lemma AdvanceSameGens(n: Net, fd: Fd, k: nat)
    requires fd in n.conns
    ensures SameGens(n, Advance(n, fd, k))
  {}

  lemma DeliverSameGens(n: Net, fd: Fd, bytes: string)
    ensures SameGens(n, Deliver(n, fd, bytes))
  {}

  lemma StepKeepsDescriptors(c: Config, s: State, e: Event)
    requires Descriptors(s.net) && Allowed(s, e)
    ensures Descriptors(NetAfter(c, s, e))
  {
    var n, t := s.net, NetAfter(c, s, e);
    if e.Accept? {
      AdmitKeepsDescriptors(n, e.fd);
    } else if fd :| fd in n.conns && t == Close(n, fd) {
      CloseKeepsDescriptors(n, fd);
    } else if t != n {
      NetGensStay(c, s, e);
      SameGensKeepDescriptors(n, t);
    }
  }

  /** Other steps change no generation. */
  lemma NetGensStay(c: Config, s: State, e: Event)
    requires Allowed(s, e) && !e.Accept? && NetAfter(c, s, e) != s.net
    requires forall fd :: fd in s.net.conns ==> NetAfter(c, s, e) != Close(s.net, fd)
    ensures SameGens(s.net, NetAfter(c, s, e))
  {
    match e
    case Recv(_, verdict, input) => JudgeSameGens(c, s.net, s.loop.pc.fd, verdict, input);
    case Send(k) => AdvanceSameGens(s.net, s.loop.pc.fd, k);
    case Pop => DeliverSameGens(s.net, s.queues.completions[0].item.fd, s.queues.completions[0].bytes);
    case _ =>
  }

  // ---------------------------------------------------------------- filters: the implied phase

  ghost predicate PhaseOk(n: Net, fd: Fd)
    requires fd in n.conns
  {
    if n.conns[fd].awaiting then fd !in n.readers && fd !in n.writers
    else fd in n.readers <==> fd !in n.writers
  }

  /** Every connection reads, awaits or writes, and has the one filter or none that goes with it. */
  ghost predicate Filters(n: Net) {
    && n.readers <= n.conns.Keys && n.writers <= n.conns.Keys
    && (forall fd :: fd in n.conns ==> PhaseOk(n, fd))
  }

  /** The handler at work was called for a filter that is still registered by the same client. */
  ghost predicate Justified(s: State) {
    && (s.loop.pc.Reading? ==> Fires(s.net, Readable(s.loop.pc.fd, s.loop.pc.gen)))
    && (s.loop.pc.Writing? ==> Fires(s.net, Writable(s.loop.pc.fd, s.loop.pc.gen)))
  }

  /** Every completion is for the client that holds its descriptor and waits for it. */
  ghost predicate Expected(s: State) {
    Torn(s) || forall i :: 0 <= i < |s.queues.completions| ==> Awaits(s.net, s.queues.completions[i].item)
  }

  /** Teardown has joined the workers. */
  predicate Torn(s: State) {
    s.loop.pc.Closing? || s.loop.pc.Ended?
  }

  ghost predicate Awaits(n: Net, it: Item) {
    it.fd in n.conns && n.conns[it.fd].gen == it.gen && n.conns[it.fd].awaiting
  }

  lemma StepKeepsFilters(c: Config, s: State, e: Event)
    requires Descriptors(s.net) && Filters(s.net) && Justified(s) && Expected(s) && Allowed(s, e)
    ensures Filters(NetAfter(c, s, e))
  {
    var n, t := s.net, NetAfter(c, s, e);
    if e.Pop? {
      assert Awaits(n, s.queues.completions[0].item);
    }
    forall fd | fd in t.conns ensures PhaseOk(t, fd) {
      if fd in n.conns { assert PhaseOk(n, fd); }
    }
  }

  // ---------------------------------------------------------------- reports

  ghost predicate Unreported(l: Loop, fd: Fd) {
    forall i :: 0 <= i < |l.batch| && ForClient(l.batch[i]) ==> l.batch[i].fd != fd
  }

  /** Two reports of one batch are never about the same descriptor, and each that is still to be
      handled is still true. */
  ghost predicate Reports(s: State) {
    && (forall i :: 0 <= i < |s.loop.batch| ==> Fires(s.net, s.loop.batch[i]))
    && OnePerFd(s.loop.batch)
    && (s.loop.batch != [] ==> InLoop(s.loop.pc))
    && (s.loop.pc.Reading? || s.loop.pc.Writing? ==> Unreported(s.loop, s.loop.pc.fd))
    && (s.loop.pc.Draining? && s.loop.pc.last ==> s.loop.batch == [])
    && Justified(s)
  }

  ghost predicate OnePerFd(batch: seq<Ready>) {
    forall i, j :: 0 <= i < j < |batch| && ForClient(batch[i]) && ForClient(batch[j]) ==> batch[i].fd != batch[j].fd
  }

  /** Between a poll and the drain that ends the round. */
  predicate InLoop(pc: Pc) {
    pc.Dispatching? || pc.Accepting? || pc.Reading? || pc.Writing? || pc.Draining?
  }

  /** With one filter for a descriptor there is one report for it. */
  lemma PollReportsOnce(n: Net, batch: seq<Ready>)
    requires Descriptors(n) && Filters(n) && Reported(n, batch)
    ensures OnePerFd(batch)
  {
    forall i, j | 0 <= i < j < |batch| && ForClient(batch[i]) && ForClient(batch[j])
      ensures batch[i].fd != batch[j].fd
    {
      assert Fires(n, batch[i]) && Fires(n, batch[j]);
      assert PhaseOk(n, batch[i].fd);
    }
  }

  /** A report for another descriptor stays true, whatever happens to this one. */
  lemma OtherReportsStay(c: Config, s: State, e: Event, r: Ready)
    requires Descriptors(s.net) && Filters(s.net) && Expected(s) && Allowed(s, e)
    requires Fires(s.net, r) && ForClient(r)
    requires AtConn(s) ==> r.fd != s.loop.pc.fd
    requires !s.loop.pc.Closing?
    ensures Fires(NetAfter(c, s, e), r)
  {
    if e.Pop? {
      assert PhaseOk(s.net, r.fd);
      assert Awaits(s.net, s.queues.completions[0].item);
      DeliverElsewhere(s.net, s.queues.completions[0].item.fd, s.queues.completions[0].bytes, r);
    } else if e.Recv? {
      JudgeElsewhere(c, s.net, s.loop.pc.fd, e.verdict, e.input, r);
    } else if e.Accept? {
      AdmitElsewhere(s.net, e.fd, r);
    } else if fd :| fd != r.fd && NetAfter(c, s, e) == Close(s.net, fd) {
      CloseElsewhere(s.net, fd, r);
    }
  }

  lemma AdmitElsewhere(n: Net, fd: Fd, r: Ready)
    requires Fires(n, r) && ForClient(r) && fd !in n.open
    ensures Fires(Admit(n, fd), r)
  {}

  lemma CloseElsewhere(n: Net, fd: Fd, r: Ready)
    requires Fires(n, r) && ForClient(r) && fd != r.fd
    ensures Fires(Close(n, fd), r)
  {}

  lemma DeliverElsewhere(n: Net, fd: Fd, bytes: string, r: Ready)
    requires Fires(n, r) && ForClient(r) && r.fd != fd
    ensures Fires(Deliver(n, fd, bytes), r)
  {}

  lemma JudgeElsewhere(c: Config, n: Net, fd: Fd, verdict: Verdict, input: Input, r: Ready)
    requires Fires(n, r) && ForClient(r) && r.fd != fd && fd in n.conns
    ensures Fires(Judge(c, n, fd, verdict, input), r)
  {}

  lemma StepKeepsReports(c: Config, s: State, e: Event)
    requires Descriptors(s.net) && Filters(s.net) && Expected(s) && Reports(s) && Allowed(s, e)
    ensures Reports(Apply(c, s, e))
  {
    if e.Poll? {
      PollReportsOnce(s.net, e.batch);
    } else if e.Next? {
      if s.loop.batch != [] { NextKeepsReports(c, s); }
    } else {
      ReportsStayTrue(c, s, e);
      HandlerStays(s, e);
      HandlerStaysJustified(c, s, e);
      ReportsCarryOver(s, Apply(c, s, e));
    }
  }

  /** A handler that goes on still has the filter it was called for. */
  lemma HandlerStaysJustified(c: Config, s: State, e: Event)
    requires Descriptors(s.net) && Filters(s.net) && Expected(s) && Reports(s) && Allowed(s, e)
    requires !e.Poll? && !e.Next?
    ensures Justified(Apply(c, s, e))
  {
    if s.loop.pc.Reading? || s.loop.pc.Writing? {
      var fd, gen := s.loop.pc.fd, s.loop.pc.gen;
      if e.Recv? {
        if e.verdict.Waiting? { JudgeKeepsReader(c, s.net, fd, gen, e.verdict, e.input); }
      } else if e.Send? {
        AdvanceKeepsWriter(s.net, fd, gen, e.n);
      }
    }
  }

  lemma JudgeKeepsReader(c: Config, n: Net, fd: Fd, gen: Gen, verdict: Verdict, input: Input)
    requires fd in n.conns && Fires(n, Readable(fd, gen)) && verdict.Waiting?
    ensures Fires(Judge(c, n, fd, verdict, input), Readable(fd, gen))
  {}

  lemma AdvanceKeepsWriter(n: Net, fd: Fd, gen: Gen, k: nat)
    requires fd in n.conns && Fires(n, Writable(fd, gen))
    ensures Fires(Advance(n, fd, k), Writable(fd, gen))
  {}

  lemma ReportsCarryOver(s: State, t: State)
    requires Reports(s) && Justified(t) && t.loop.batch == s.loop.batch
    requires forall i :: 0 <= i < |s.loop.batch| ==> Fires(t.net, s.loop.batch[i])
    requires s.loop.batch != [] ==> InLoop(t.loop.pc)
    requires t.loop.pc.Reading? || t.loop.pc.Writing? || t.loop.pc.Draining? ==> t.loop.pc == s.loop.pc
    ensures Reports(t)
  {}

  /** The next report is handled with all that it says still true. */
  lemma NextKeepsReports(c: Config, s: State)
    requires Reports(s) && Allowed(s, Next) && s.loop.batch != []
    ensures Reports(Apply(c, s, Next))
  {
    var l := Apply(c, s, Next).loop;
    assert Fires(s.net, s.loop.batch[0]);
    assert forall i :: 0 <= i < |l.batch| ==> l.batch[i] == s.loop.batch[i + 1];
  }

  lemma ReportsStayTrue(c: Config, s: State, e: Event)
    requires Descriptors(s.net) && Filters(s.net) && Expected(s) && Reports(s) && Allowed(s, e)
    requires !e.Poll? && !e.Next?
    ensures forall i :: 0 <= i < |s.loop.batch| ==> Fires(NetAfter(c, s, e), s.loop.batch[i])
  {
    forall i | 0 <= i < |s.loop.batch| ensures Fires(NetAfter(c, s, e), s.loop.batch[i]) {
      var r := s.loop.batch[i];
      assert Fires(s.net, r);
      if ForClient(r) { OtherReportsStay(c, s, e, r); }
    }
  }

  /** Between polls the batch stays, and a handler stays at its descriptor or returns. */
  lemma HandlerStays(s: State, e: Event)
    requires Allowed(s, e) && !e.Poll? && !e.Next?
    ensures var l, l' := s.loop, LoopAfter(s, e);
            && l'.batch == l.batch
            && (InLoop(l.pc) && l.batch != [] && !(l.pc.Draining? && l.pc.last) ==> InLoop(l'.pc))
            && (l'.pc.Reading? || l'.pc.Writing? || l'.pc.Draining? ==> l'.pc == l.pc)
  {}

  // ---------------------------------------------------------------- work

  function ItemsOf(cs: seq<Completion>): (items: seq<Item>)
    ensures |items| == |cs| && forall i :: 0 <= i < |cs| ==> items[i] == cs[i].item
  {
    seq(|cs|, i requires 0 <= i < |cs| => cs[i].item)
  }

  /** In how many places the work on an item is: queued, on a worker or completed. */
  ghost function Places(q: Queues, it: Item): nat {
    Times(q.tasks, it) + Times(q.active, it) + Times(ItemsOf(q.completions), it)
  }

  /** The connection at the item's descriptor is the one it was made for and waits for it. */
  ghost predicate Owed(s: State, it: Item) {
    Awaits(s.net, it) && it.gen in s.log.requests && s.log.requests[it.gen] == it.request
  }

  /** The work there is is the work owed, each item in one place; once teardown has begun items may
      have been dropped. */
  ghost predicate Work(s: State) {
    if Torn(s) then s.queues.tasks == [] && s.queues.active == [] && s.loop.abandoning
    else
      && (s.loop.pc.Joining? ==> s.loop.abandoning)
      && (forall it :: Places(s.queues, it) <= if Owed(s, it) then 1 else 0)
      && (forall it :: Owed(s, it) && !s.loop.abandoning ==> Places(s.queues, it) == 1)
  }

  lemma WorkIsExpected(s: State)
    requires Work(s)
    ensures Expected(s)
  {
    if !Torn(s) {
      var items := ItemsOf(s.queues.completions);
      forall i | 0 <= i < |items| ensures Awaits(s.net, items[i]) {
        TimesMember(items, items[i]);
        assert Places(s.queues, items[i]) > 0;
        assert Owed(s, items[i]);
      }
    }
  }

  ghost function NewItem(s: State, e: Event): Item
    requires Allowed(s, e) && e.Recv? && e.verdict.Dispatched?
  {
    Item(s.loop.pc.fd, Current(s).gen, e.verdict.request)
  }

  /** The item a step takes out of the queues. */
  ghost predicate Takes(s: State, e: Event, it: Item)
    requires Allowed(s, e)
  {
    match e
    case Pop => s.queues.completions[0].item == it
    case SkipTask(i) => s.queues.active[i] == it
    case _ => false
  }

  ghost predicate Adds(s: State, e: Event, it: Item)
    requires Allowed(s, e)
  {
    e.Recv? && e.verdict.Dispatched? && it == NewItem(s, e)
  }

  lemma PlacesAfter(s: State, e: Event, it: Item)
    requires Allowed(s, e)
    ensures Places(QueuesAfter(s, e), it) + (if Takes(s, e, it) then 1 else 0) ==
            Places(s.queues, it) + (if Adds(s, e, it) then 1 else 0)
  {
    if e.Recv? {
      if e.verdict.Dispatched? { TimesSnoc(s.queues.tasks, NewItem(s, e), it); }
    } else if e.TakeTask? {
      TakePlaces(s.queues, it);
    } else if e.SkipTask? {
      TimesRemove(s.queues.active, e.i, it);
    } else if e.Complete? {
      CompletePlaces(s.queues, e.i, e.bytes, it);
    } else if e.Pop? {
      ItemsTail(s.queues.completions, it);
    }
  }

  lemma TakePlaces(q: Queues, it: Item)
    requires q.tasks != []
    ensures Places(Queues(q.tasks[1..], q.active + [q.tasks[0]], q.completions), it) == Places(q, it)
  {
    TimesTail(q.tasks, it);
    TimesSnoc(q.active, q.tasks[0], it);
  }

  lemma CompletePlaces(q: Queues, i: nat, bytes: string, it: Item)
    requires i < |q.active|
    ensures var more := q.completions + [Completion(q.active[i], bytes)];
            Places(q.(active := Without(q.active, i), completions := more), it) == Places(q, it)
  {
    TimesRemove(q.active, i, it);
    ItemsSnoc(q.completions, Completion(q.active[i], bytes), it);
  }

  lemma ItemsSnoc(cs: seq<Completion>, d: Completion, it: Item)
    ensures Times(ItemsOf(cs + [d]), it) == Times(ItemsOf(cs), it) + if d.item == it then 1 else 0
  {
    assert ItemsOf(cs + [d]) == ItemsOf(cs) + [d.item];
    TimesSnoc(ItemsOf(cs), d.item, it);
  }

  lemma ItemsTail(cs: seq<Completion>, it: Item)
    requires cs != []
    ensures Times(ItemsOf(cs), it) == Times(ItemsOf(cs[1..]), it) + if cs[0].item == it then 1 else 0
  {
    assert ItemsOf(cs[1..]) == ItemsOf(cs)[1..];
    TimesTail(ItemsOf(cs), it);
  }

  /** A connection begins to wait by a dispatch and stops by a delivery. */
  lemma AwaitsAfter(c: Config, s: State, e: Event, it: Item)
    requires Descriptors(s.net) && Filters(s.net) && Justified(s) && Expected(s) && Allowed(s, e)
    requires !s.loop.pc.Closing? && !(e.Recv? && e.verdict.Dispatched? && it.fd == s.loop.pc.fd)
    ensures Awaits(NetAfter(c, s, e), it) <==>
              Awaits(s.net, it) && !(e.Pop? && it.fd == s.queues.completions[0].item.fd)
  {
    if AtConn(s) { assert PhaseOk(s.net, s.loop.pc.fd); }
    match e
    case Accept(fd) => AdmitAwaits(s.net, fd, it);
    case Recv(_, verdict, input) => JudgeAwaits(c, s.net, s.loop.pc.fd, verdict, input, it);
    case Send(n) => AdvanceAwaits(s.net, s.loop.pc.fd, n, it);
    case Pop =>
      assert Awaits(s.net, s.queues.completions[0].item);
      DeliverAwaits(s.net, s.queues.completions[0].item.fd, s.queues.completions[0].bytes, it);
    case RecvEnd => CloseAwaits(s.net, s.loop.pc.fd, it);
    case SendError => CloseAwaits(s.net, s.loop.pc.fd, it);
    case SendDone => CloseAwaits(s.net, s.loop.pc.fd, it);
    case _ =>
  }

  lemma AdmitAwaits(n: Net, fd: Fd, it: Item)
    requires fd !in n.conns
    ensures Awaits(Admit(n, fd), it) <==> Awaits(n, it)
  {}

  lemma DeliverAwaits(n: Net, fd: Fd, bytes: string, it: Item)
    ensures Awaits(Deliver(n, fd, bytes), it) <==> Awaits(n, it) && it.fd != fd
  {}

  lemma JudgeAwaits(c: Config, n: Net, fd: Fd, verdict: Verdict, input: Input, it: Item)
    requires fd in n.conns && !n.conns[fd].awaiting && !(verdict.Dispatched? && it.fd == fd)
    ensures Awaits(Judge(c, n, fd, verdict, input), it) <==> Awaits(n, it)
  {}

  lemma AdvanceAwaits(n: Net, fd: Fd, k: nat, it: Item)
    requires fd in n.conns
    ensures Awaits(Advance(n, fd, k), it) <==> Awaits(n, it)
  {}

  lemma CloseAwaits(n: Net, fd: Fd, it: Item)
    requires fd in n.conns && !n.conns[fd].awaiting
    ensures Awaits(Close(n, fd), it) <==> Awaits(n, it)
  {}

  /** What a client is owed changes by a dispatch and by a delivery only. */
  lemma OwedAfter(c: Config, s: State, e: Event, it: Item)
    requires Descriptors(s.net) && Filters(s.net) && Justified(s) && Expected(s) && Allowed(s, e)
    requires !s.loop.pc.Closing?
    ensures Owed(Apply(c, s, e), it) <==>
              Adds(s, e, it) || (Owed(s, it) && !(e.Pop? && it.fd == s.queues.completions[0].item.fd))
  {
    if e.Recv? && e.verdict.Dispatched? {
      assert PhaseOk(s.net, s.loop.pc.fd);
      if it.fd != s.loop.pc.fd {
        AwaitsAfter(c, s, e, it);
      }
    } else {
      AwaitsAfter(c, s, e, it);
    }
  }

  lemma StepKeepsWork(c: Config, s: State, e: Event)
    requires Descriptors(s.net) && Filters(s.net) && Justified(s) && Work(s) && Allowed(s, e)
    ensures Work(Apply(c, s, e))
  {
    var t := Apply(c, s, e);
    WorkIsExpected(s);
    if !Torn(s) && !Torn(t) {
      forall it ensures Places(t.queues, it) <= (if Owed(t, it) then 1 else 0)
                     && (Owed(t, it) && !t.loop.abandoning ==> Places(t.queues, it) == 1)
      {
        OwnWorkAfter(c, s, e, it);
      }
    }
  }

  lemma OwnWorkAfter(c: Config, s: State, e: Event, it: Item)
    requires Descriptors(s.net) && Filters(s.net) && Justified(s) && Work(s) && Allowed(s, e)
    requires !Torn(s)
    ensures var t := Apply(c, s, e);
            && Places(t.queues, it) <= (if Owed(t, it) then 1 else 0)
            && (Owed(t, it) && !t.loop.abandoning ==> Places(t.queues, it) == 1)
  {
    WorkIsExpected(s);
    PlacesAfter(s, e, it);
    OwedAfter(c, s, e, it);
    assert Places(s.queues, it) <= if Owed(s, it) then 1 else 0;
    if AtConn(s) { assert PhaseOk(s.net, s.loop.pc.fd); }
    if e.Pop? {
      PoppedIsOwed(s);
    }
  }

  lemma PoppedIsOwed(s: State)
    requires Work(s) && !Torn(s) && s.queues.completions != []
    ensures Owed(s, s.queues.completions[0].item)
  {
    var items := ItemsOf(s.queues.completions);
    TimesMember(items, items[0]);
    assert Places(s.queues, items[0]) > 0;
  }
}
