/** What the handlers leave behind, told from the results of their system calls: which results end a
    client, which leave it as it was, and what becomes of the bytes. */
module HandlerEffects {
  import opened Wrappers
  import opened Http
  import opened SocketCalls
  import RequestParser
  import opened Reactor
  import opened HandlerLoops

  // ---------------------------------------------------------------- clients that go and stay

  /** Nothing has changed for other descriptors. */
  ghost predicate OthersSame(n: Net, t: Net, fd: Fd) {
    forall g :: g != fd ==>
                  && (g in t.conns <==> g in n.conns) && (g in n.conns ==> t.conns[g] == n.conns[g])
                  && (g in t.open <==> g in n.open) && (g in n.open ==> t.open[g] == n.open[g])
                  && (g in t.readers <==> g in n.readers) && (g in t.writers <==> g in n.writers)
  }

  /** The descriptor is closed, its connection and its filters are gone, and its client is the last one closed. */
  ghost predicate Gone(n: Net, t: Net, fd: Fd) {
    && fd !in t.conns && fd !in t.open && fd !in t.readers && fd !in t.writers
    && t.closed == (if fd in n.open then n.closed + [n.open[fd]] else n.closed)
    && t.nextGen == n.nextGen && OthersSame(n, t, fd)
  }

  lemma ClosedIsGone(n: Net, fd: Fd)
    ensures Gone(n, Close(n, fd), fd)
  {}

  /** The connection is `conn` now; its descriptor and its filters are as they were. */
  ghost predicate Stays(n: Net, t: Net, fd: Fd, conn: Conn) {
    t == n.(conns := n.conns[fd := conn])
  }

  // ---------------------------------------------------------------- reading

  /** The input of a connection after one result. */
  function InputAfter(order: Order, input: Input, r: RecvResult): Input {
    if r.Bytes? then RequestParser.Feed(input, r.chunk, order).1 else input
  }

  /** The input after the bytes of the results. */
  function Fed(order: Order, input: Input, results: seq<RecvResult>): Input {
    if results == [] then input
    else InputAfter(order, Fed(order, input, results[..|results| - 1]), results[|results| - 1])
  }

  /** After this result the handler calls `recv` again: it was interrupted, or it filled its buffer with bytes
      that do not decide the request. */
  predicate ReadsOn(order: Order, input: Input, r: RecvResult) {
    r.RecvIntr? || (r.Bytes? && |r.chunk| == READ_CHUNK && RequestParser.Feed(input, r.chunk, order).0.Waiting?)
  }

  /** The handler gets as far as the call number `k`. */
  ghost predicate ReadsTo(order: Order, input: Input, results: seq<RecvResult>, k: int) {
    0 <= k <= |results| && forall j :: 0 <= j < k ==> ReadsOn(order, Fed(order, input, results[..j]), results[j])
  }

  ghost predicate Reads(s: State) {
    s.loop.pc.Reading? && AtConn(s)
  }

  /** The state in front of the call number `k`. */
  ghost predicate Before(c: Config, s: State, results: seq<RecvResult>, k: int, m: State)
    requires Reads(s) && 0 <= k <= |results|
  {
    var fd := s.loop.pc.fd;
    && m.loop == s.loop && m.queues == s.queues
    && Stays(s.net, m.net, fd, Current(s).(input := Fed(c.order, Current(s).input, results[..k])))
  }

  lemma {:induction false} ReadPrefix(c: Config, s: State, results: seq<RecvResult>, k: nat) returns (m: State)
    requires Reads(s) && AllRecvOk(results) && ReadsTo(c.order, Current(s).input, results, k)
    ensures Before(c, s, results, k, m) && Reads(m) && ReadLoop(c, m, results[k..]) == ReadLoop(c, s, results)
  {
    if k == 0 {
      m := s;
      assert results[0..] == results;
      assert s.net.conns[s.loop.pc.fd := Current(s)] == s.net.conns;
    } else {
      var t := ReadPrefix(c, s, results, k - 1);
      m := ReadStep(c, t, results[k - 1]);
      assert results[..k][..k - 1] == results[..k - 1];
      assert results[k - 1..][1..] == results[k..];
      ReadOn(c, t, results[k - 1]);
    }
  }

  lemma ReadOn(c: Config, t: State, r: RecvResult)
    requires Reads(t) && RecvOk(r) && ReadsOn(c.order, Current(t).input, r)
    ensures var m := ReadStep(c, t, r);
            && m.loop == t.loop && m.queues == t.queues && Reads(m)
            && Stays(t.net, m.net, t.loop.pc.fd, Current(t).(input := InputAfter(c.order, Current(t).input, r)))
  {}

  /** What the call number `k`, if the handler gets there, leads to.  End of file and an error close the client.  A
      call that would block, or a short read that decides nothing, leaves it with the bytes received.  A whole
      request goes to the workers and its connection waits for them; a refused one is answered. */
  ghost predicate ReadLeaves(c: Config, s: State, results: seq<RecvResult>, k: nat, t: State)
    requires Reads(s) && k <= |results|
  {
    var n, fd := s.net, s.loop.pc.fd;
    var conn := Current(s).(input := Fed(c.order, Current(s).input, results[..k]));
    if k == |results| then Stays(n, t.net, fd, conn) && t.queues == s.queues
    else
      match results[k]
      case Eof => Gone(n, t.net, fd) && t.queues == s.queues
      case RecvFailed => Gone(n, t.net, fd) && t.queues == s.queues
      case RecvWouldBlock => Stays(n, t.net, fd, conn) && t.queues == s.queues
      case RecvIntr => true
      case Bytes(chunk) => Judged(c, s, conn, chunk, t)
  }

  ghost predicate Judged(c: Config, s: State, conn: Conn, chunk: string, t: State)
    requires Reads(s)
  {
    var n, fd := s.net, s.loop.pc.fd;
    var (verdict, input) := RequestParser.Feed(conn.input, chunk, c.order);
    match verdict
    case Waiting => |chunk| < READ_CHUNK ==> Stays(n, t.net, fd, conn.(input := input)) && t.queues == s.queues
    case Dispatched(request) =>
      && t.net == n.(conns := n.conns[fd := conn.(input := input, awaiting := true)], readers := n.readers - {fd})
      && t.queues == s.queues.(tasks := s.queues.tasks + [Item(fd, conn.gen, request)])
    case Rejected(status) =>
      var answered := conn.(input := input, writeBuffer := c.rejection(status), writeOffset := 0);
      && t.net == n.(conns := n.conns[fd := answered], readers := n.readers - {fd}, writers := n.writers + {fd})
      && t.queues == s.queues
  }

  /** The effect of the reading handler, whatever `recv` returns. */
  lemma ReadEffect(c: Config, s: State, results: seq<RecvResult>, k: nat)
    requires Reads(s) && AllRecvOk(results) && ReadsTo(c.order, Current(s).input, results, k)
    ensures ReadLeaves(c, s, results, k, ReadLoop(c, s, results))
  {
    var m := ReadPrefix(c, s, results, k);
    if k < |results| {
      assert results[k..][0] == results[k] && RecvOk(results[k]);
      LastRead(c, s, results, k, m, results[k..]);
    } else {
      assert results[k..] == [];
      NoMoreReads(c, s, results, m);
    }
  }

  /** Whichever call the handler gets to. */
  ghost predicate ReadLeft(c: Config, s: State, results: seq<RecvResult>, t: State) {
    Reads(s) && forall k :: ReadsTo(c.order, Current(s).input, results, k) ==> ReadLeaves(c, s, results, k, t)
  }

  lemma ReadLeftBehind(c: Config, s: State, results: seq<RecvResult>)
    requires Reads(s) && AllRecvOk(results)
    ensures ReadLeft(c, s, results, ReadLoop(c, s, results))
  {
    forall k | ReadsTo(c.order, Current(s).input, results, k)
      ensures ReadLeaves(c, s, results, k, ReadLoop(c, s, results))
    {
      ReadEffect(c, s, results, k);
    }
  }

  lemma NoMoreReads(c: Config, s: State, results: seq<RecvResult>, m: State)
    requires Reads(s) && Before(c, s, results, |results|, m) && Reads(m)
    ensures ReadLeaves(c, s, results, |results|, ReadLoop(c, m, []))
  {}

  lemma LastRead(c: Config, s: State, results: seq<RecvResult>, k: nat, m: State, rest: seq<RecvResult>)
    requires Reads(s) && k < |results| && Before(c, s, results, k, m) && Reads(m)
    requires AllRecvOk(rest) && rest != [] && rest[0] == results[k]
    ensures ReadLeaves(c, s, results, k, ReadLoop(c, m, rest))
  {
    var fd, r := s.loop.pc.fd, results[k];
    match r
    case Bytes(chunk) =>
      var (verdict, input) := RequestParser.Feed(Current(m).input, chunk, c.order);
      if !verdict.Waiting? || |chunk| < READ_CHUNK { JudgedAs(c, s, m, chunk, verdict, input); }
    case Eof => GoneToo(s.net, m.net, fd, Current(m));
    case RecvFailed => GoneToo(s.net, m.net, fd, Current(m));
    case RecvWouldBlock =>
    case RecvIntr =>
  }

  lemma GoneToo(n: Net, m: Net, fd: Fd, conn: Conn)
    requires Stays(n, m, fd, conn)
    ensures Gone(n, Close(m, fd), fd)
  {}

  lemma JudgedAs(c: Config, s: State, m: State, chunk: string, verdict: Verdict, input: Input)
    requires Reads(s) && Reads(m) && m.loop == s.loop && m.queues == s.queues && 0 < |chunk| <= READ_CHUNK
    requires Stays(s.net, m.net, s.loop.pc.fd, Current(m)) && Current(m).gen == Current(s).gen
    requires (verdict, input) == RequestParser.Feed(Current(m).input, chunk, c.order)
    ensures Judged(c, s, Current(m), chunk, Apply(c, m, Recv(chunk, verdict, input)))
  {
    var n, fd, conn := s.net, s.loop.pc.fd, Current(m).(input := input);
    match verdict
    case Waiting => Overwrites(n, m.net, fd, Current(m), conn);
    case Dispatched(_) => Overwrites(n, m.net, fd, Current(m), conn.(awaiting := true));
    case Rejected(status) =>
      Overwrites(n, m.net, fd, Current(m), conn.(writeBuffer := c.rejection(status), writeOffset := 0));
  }

  lemma Overwrites(n: Net, m: Net, fd: Fd, first: Conn, conn: Conn)
    requires Stays(n, m, fd, first)
    ensures m.conns[fd := conn] == n.conns[fd := conn]
  {}

  // ---------------------------------------------------------------- writing

  ghost predicate Writes(s: State) {
    s.loop.pc.Writing? && AtConn(s)
  }

  /** The connection with that much sent. */
  ghost function SentUpTo(s: State, results: seq<SendResult>): Conn
    requires Writes(s)
  {
    Current(s).(writeOffset := OffsetAfter(Current(s).writeOffset, |Current(s).writeBuffer|, results))
  }

  ghost predicate BeforeSend(s: State, results: seq<SendResult>, m: State)
    requires Writes(s)
  {
    m.loop == s.loop && m.queues == s.queues && Stays(s.net, m.net, s.loop.pc.fd, SentUpTo(s, results))
  }

  lemma {:induction false} WritePrefix(c: Config, s: State, results: seq<SendResult>, k: nat) returns (m: State)
    requires Writes(s) && WritesTo(Current(s).writeOffset, |Current(s).writeBuffer|, results, k)
    ensures BeforeSend(s, results[..k], m) && Writes(m) && WriteLoop(c, m, results[k..]) == WriteLoop(c, s, results)
  {
    if k == 0 {
      m := s;
      assert results[0..] == results && results[..0] == [];
      assert s.net.conns[s.loop.pc.fd := Current(s)] == s.net.conns;
    } else {
      var t := WritePrefix(c, s, results, k - 1);
      assert results[..k][..k - 1] == results[..k - 1];
      assert results[k - 1..][1..] == results[k..];
      m := WriteStep(c, t, results[k - 1]);
      WriteOn(c, s, results[..k - 1], t, results[k - 1]);
      assert results[..k] == results[..k - 1] + [results[k - 1]];
    }
  }

  lemma WriteOn(c: Config, s: State, done: seq<SendResult>, t: State, r: SendResult)
    requires Writes(s) && BeforeSend(s, done, t) && Unsent(t) && (r.Took? || r.SendIntr?)
    ensures BeforeSend(s, done + [r], WriteStep(c, t, r)) && Writes(WriteStep(c, t, r))
  {
    var m := WriteStep(c, t, r);
    OneMore(Current(s).writeOffset, |Current(s).writeBuffer|, done, r);
    var sent := if r.Took? then Clip(r.n, ToSend(t)) else 0;
    Advanced(c, t, r, sent);
  }

  lemma Advanced(c: Config, t: State, r: SendResult, sent: nat)
    requires Unsent(t) && (r.Took? || r.SendIntr?) && sent == if r.Took? then Clip(r.n, ToSend(t)) else 0
    ensures var m := WriteStep(c, t, r);
            && m.loop == t.loop && m.queues == t.queues && Writes(m)
            && Stays(t.net, m.net, t.loop.pc.fd, Current(t).(writeOffset := Current(t).writeOffset + sent))
  {}

  /** What the call number `k`, if the handler gets there, leads to.  Once everything is sent, or when `send`
      fails, the client is closed; otherwise it stays, with as much sent as `send` took. */
  ghost predicate WriteLeaves(s: State, results: seq<SendResult>, k: nat, t: State)
    requires Writes(s) && k <= |results|
  {
    var fd, conn := s.loop.pc.fd, SentUpTo(s, results[..k]);
    if conn.writeOffset >= |conn.writeBuffer| then Gone(s.net, t.net, fd) && t.queues == s.queues
    else if k == |results| then Stays(s.net, t.net, fd, conn) && t.queues == s.queues
    else
      match results[k]
      case SendFailed => Gone(s.net, t.net, fd) && t.queues == s.queues
      case SendWouldBlock => Stays(s.net, t.net, fd, conn) && t.queues == s.queues
      case SendIntr => true
      case Took(_) => true
  }

  /** The effect of the writing handler, whatever `send` returns. */
  lemma WriteEffect(c: Config, s: State, results: seq<SendResult>, k: nat)
    requires Writes(s) && WritesTo(Current(s).writeOffset, |Current(s).writeBuffer|, results, k)
    ensures WriteLeaves(s, results, k, WriteLoop(c, s, results))
  {
    var m := WritePrefix(c, s, results, k);
    if k < |results| { assert results[k..][0] == results[k]; }
    LastWrite(c, s, results, k, m, results[k..]);
  }

  /** Whichever call the handler gets to. */
  ghost predicate WriteLeft(s: State, results: seq<SendResult>, t: State) {
    && Writes(s)
    && forall k :: WritesTo(Current(s).writeOffset, |Current(s).writeBuffer|, results, k) ==>
                     WriteLeaves(s, results, k, t)
  }

  lemma WriteLeftBehind(c: Config, s: State, results: seq<SendResult>)
    requires Writes(s)
    ensures WriteLeft(s, results, WriteLoop(c, s, results))
  {
    forall k | WritesTo(Current(s).writeOffset, |Current(s).writeBuffer|, results, k)
      ensures WriteLeaves(s, results, k, WriteLoop(c, s, results))
    {
      WriteEffect(c, s, results, k);
    }
  }

  lemma LastWrite(c: Config, s: State, results: seq<SendResult>, k: nat, m: State, rest: seq<SendResult>)
    requires Writes(s) && k <= |results| && BeforeSend(s, results[..k], m) && Writes(m)
    requires k == |results| <==> rest == []
    requires k < |results| ==> rest[0] == results[k]
    ensures WriteLeaves(s, results, k, WriteLoop(c, m, rest))
  {
    GoneToo(s.net, m.net, s.loop.pc.fd, Current(m));
  }

  // ---------------------------------------------------------------- completions

  /** The bytes of the last completion for the descriptor. */
  function LastFor(cs: seq<Completion>, fd: Fd): Option<string> {
    if cs == [] then None
    else if LastFor(cs[1..], fd).Some? then LastFor(cs[1..], fd)
    else if cs[0].item.fd == fd then Some(cs[0].bytes)
    else None
  }

  /** Every connection with a completion has its bytes to send and waits for nothing else; the others, and the
      descriptors, are as they were. */
  ghost predicate Delivered(n: Net, cs: seq<Completion>, t: Net) {
    && t.open == n.open && t.readers == n.readers && t.closed == n.closed && t.nextGen == n.nextGen
    && t.conns.Keys == n.conns.Keys
    && (forall fd :: fd in n.conns ==> t.conns[fd] == Answering(n.conns[fd], LastFor(cs, fd)))
    && (forall fd :: fd in t.writers <==> fd in n.writers || (fd in n.conns && LastFor(cs, fd).Some?))
  }

  function Answering(conn: Conn, bytes: Option<string>): Conn {
    match bytes
    case None => conn
    case Some(text) => conn.(writeBuffer := text, writeOffset := 0, awaiting := false)
  }

  lemma {:induction false} DrainEffect(c: Config, s: State)
    requires s.loop.pc.Draining?
    ensures var t := DrainLoop(c, s); var cs := s.queues.completions;
            Delivered(s.net, cs, t.net) && t.queues == s.queues.(completions := [])
    decreases |s.queues.completions|
  {
    var cs := s.queues.completions;
    if cs != [] {
      DrainEffect(c, Apply(c, s, Pop));
      var m, t := Apply(c, s, Pop).net, DrainLoop(c, s).net;
      FirstDelivered(s.net, cs, m, t);
    }
  }

  lemma FirstDelivered(n: Net, cs: seq<Completion>, m: Net, t: Net)
    requires cs != [] && m == Deliver(n, cs[0].item.fd, cs[0].bytes) && Delivered(m, cs[1..], t)
    ensures Delivered(n, cs, t)
  {
    forall fd | fd in n.conns ensures t.conns[fd] == Answering(n.conns[fd], LastFor(cs, fd)) {}
  }

  // ---------------------------------------------------------------- new clients

  /** Each descriptor has a fresh connection, a number of its own and a read filter. */
  ghost predicate Admitted(n: Net, fds: seq<Fd>, t: Net) {
    && t.nextGen == n.nextGen + |fds| && t.writers == n.writers && t.closed == n.closed
    && (forall i :: 0 <= i < |fds| ==> AdmittedAt(t, fds[i], n.nextGen + i))
    && (forall g :: g !in fds ==> SameAt(n, t, g))
  }

  ghost predicate AdmittedAt(t: Net, fd: Fd, gen: Gen) {
    && fd in t.conns && t.conns[fd] == Conn(gen, RequestParser.Conn("", 0, false, 0), false, "", 0)
    && fd in t.open && t.open[fd] == gen && fd in t.readers
  }

  ghost predicate SameAt(n: Net, t: Net, g: Fd) {
    && (g in t.conns <==> g in n.conns) && (g in n.conns ==> t.conns[g] == n.conns[g])
    && (g in t.open <==> g in n.open) && (g in n.open ==> t.open[g] == n.open[g])
    && (g in t.readers <==> g in n.readers)
  }

  lemma {:induction false} AcceptEffect(c: Config, s: State, fds: seq<Fd>)
    requires s.loop.pc.Accepting? && Fresh(s.net.open, fds)
    ensures Admitted(s.net, fds, AcceptLoop(c, s, fds).net) && AcceptLoop(c, s, fds).queues == s.queues
    decreases |fds|
  {
    if fds != [] {
      var m := Apply(c, s, Accept(fds[0]));
      AcceptEffect(c, m, fds[1..]);
      FirstAdmitted(s.net, fds, m.net, AcceptLoop(c, s, fds).net);
    }
  }

  lemma FirstAdmitted(n: Net, fds: seq<Fd>, m: Net, t: Net)
    requires fds != [] && Fresh(n.open, fds) && m == Admit(n, fds[0]) && Admitted(m, fds[1..], t)
    ensures Admitted(n, fds, t)
  {
    forall i | 0 <= i < |fds| ensures AdmittedAt(t, fds[i], n.nextGen + i) {
      if i > 0 { assert AdmittedAt(t, fds[1..][i - 1], m.nextGen + (i - 1)); } else { assert SameAt(m, t, fds[0]); }
    }
    forall g | g !in fds ensures SameAt(n, t, g) { assert SameAt(m, t, g); }
  }

  // ---------------------------------------------------------------- the end

  /** A connection closed on the way leaves no descriptor and no filter behind. */
  lemma {:induction false} CloseEffect(n: Net, fds: seq<Fd>, fd: Fd)
    requires fd in n.conns && fd !in CloseLoop(n, fds).conns
    ensures var t := CloseLoop(n, fds); fd !in t.open && fd !in t.readers && fd !in t.writers
    decreases |fds|
  {
    if fd !in CloseLoop(n, fds[..|fds| - 1]).conns { CloseEffect(n, fds[..|fds| - 1], fd); }
  }

  lemma NothingOpen(n: Net, fds: seq<Fd>)
    requires CloseLoop(n, fds).conns == map[]
    ensures var t := CloseLoop(n, fds);
            forall fd :: fd in n.conns ==> fd !in t.open && fd !in t.readers && fd !in t.writers
  {
    var t := CloseLoop(n, fds);
    forall fd | fd in n.conns ensures fd !in t.open && fd !in t.readers && fd !in t.writers {
      CloseEffect(n, fds, fd);
    }
  }
}
