/** The reactor's handlers as loops over the results of their system calls: the steps of the machine in
    Reactor that the results call for, one after the other. */
module HandlerLoops {
  import opened SocketCalls
  import RequestParser
  import opened Reactor
  import opened ReactorRuns

  // ---------------------------------------------------------------- what the handlers do

  /** The step for one result; the loop goes on while the machine is still reading. */
  ghost function ReadStep(c: Config, s: State, result: RecvResult): (t: State)
    requires s.loop.pc.Reading? && AtConn(s) && RecvOk(result)
    ensures t.loop.pc.Reading? ==> t.loop.pc == s.loop.pc && AtConn(t)
  {
    match result
    case Bytes(chunk) =>
      var (verdict, input) := RequestParser.Feed(Current(s).input, chunk, c.order);
      Apply(c, s, Recv(chunk, verdict, input))
    case Eof => Apply(c, s, RecvEnd)
    case RecvWouldBlock => Apply(c, s, RecvAgain)
    case RecvIntr => Apply(c, s, RecvInterrupted)
    case RecvFailed => Apply(c, s, RecvEnd)
  }

  ghost function ReadLoop(c: Config, s: State, results: seq<RecvResult>): State
    requires s.loop.pc.Reading? && AtConn(s) && AllRecvOk(results)
    decreases |results|
  {
    if results == [] then Apply(c, s, RecvAgain)
    else
      var t := ReadStep(c, s, results[0]);
      if t.loop.pc.Reading? then ReadLoop(c, t, results[1..]) else t
  }

  ghost function ToSend(s: State): (n: nat)
    requires Unsent(s)
    ensures n > 0
  {
    |Current(s).writeBuffer| - Current(s).writeOffset
  }

  ghost function WriteStep(c: Config, s: State, result: SendResult): (t: State)
    requires Unsent(s)
    ensures t.loop.pc.Writing? ==> t.loop.pc == s.loop.pc && AtConn(t)
  {
    match result
    case Took(n) => Apply(c, s, Send(Clip(n, ToSend(s))))
    case SendWouldBlock => Apply(c, s, SendAgain)
    case SendIntr => Apply(c, s, SendInterrupted)
    case SendFailed => Apply(c, s, SendError)
  }

  ghost function WriteLoop(c: Config, s: State, results: seq<SendResult>): State
    requires s.loop.pc.Writing? && AtConn(s)
    decreases |results|
  {
    if !Unsent(s) then Apply(c, s, SendDone)
    else if results == [] then Apply(c, s, SendAgain)
    else
      var t := WriteStep(c, s, results[0]);
      if t.loop.pc.Writing? then WriteLoop(c, t, results[1..]) else t
  }

  ghost function DrainLoop(c: Config, s: State): State
    requires s.loop.pc.Draining?
    decreases |s.queues.completions|
  {
    if s.queues.completions == [] then Apply(c, s, PopNone) else DrainLoop(c, Apply(c, s, Pop))
  }

  /** Descriptors the kernel may hand out one after the other. */
  ghost predicate Fresh(open: map<Fd, Gen>, fds: seq<Fd>) {
    && (forall i :: 0 <= i < |fds| ==> fds[i] !in open)
    && (forall i, j :: 0 <= i < j < |fds| ==> fds[i] != fds[j])
  }

  ghost function AcceptLoop(c: Config, s: State, fds: seq<Fd>): State
    requires s.loop.pc.Accepting? && Fresh(s.net.open, fds)
    decreases |fds|
  {
    if fds == [] then Apply(c, s, AcceptNone)
    else AcceptLoop(c, Apply(c, s, Accept(fds[0])), fds[1..])
  }

  /** Closing the connections `fds` in this order. */
  ghost function CloseLoop(n: Net, fds: seq<Fd>): Net
    decreases |fds|
  {
    if fds == [] then n else Close(CloseLoop(n, fds[..|fds| - 1]), fds[|fds| - 1])
  }

  /** Each descriptor is still in the table when its turn comes. */
  ghost predicate Closable(n: Net, fds: seq<Fd>) {
    forall i :: 0 <= i < |fds| ==> fds[i] in CloseLoop(n, fds[..i]).conns
  }

  // ---------------------------------------------------------------- handlers keep the invariant

  lemma ReadStepKeepsInv(c: Config, s: State, result: RecvResult)
    requires Inv(c, s) && s.loop.pc.Reading? && AtConn(s) && RecvOk(result)
    ensures Inv(c, ReadStep(c, s, result))
    ensures ReadStep(c, s, result).loop.pc.Reading? || ReadStep(c, s, result).loop.pc.Dispatching?
  {
    match result
    case Bytes(chunk) =>
      var (verdict, input) := RequestParser.Feed(Current(s).input, chunk, c.order);
      StepKeepsInv(c, s, Recv(chunk, verdict, input));
    case RecvWouldBlock => StepKeepsInv(c, s, RecvAgain);
    case RecvIntr => StepKeepsInv(c, s, RecvInterrupted);
    case _ => StepKeepsInv(c, s, RecvEnd);
  }

  lemma {:induction false} ReadLoopKeepsInv(c: Config, s: State, results: seq<RecvResult>)
    requires Inv(c, s) && s.loop.pc.Reading? && AtConn(s) && AllRecvOk(results)
    ensures Inv(c, ReadLoop(c, s, results)) && ReadLoop(c, s, results).loop.pc.Dispatching?
    decreases |results|
  {
    if results == [] {
      StepKeepsInv(c, s, RecvAgain);
    } else {
      ReadStepKeepsInv(c, s, results[0]);
      var t := ReadStep(c, s, results[0]);
      if t.loop.pc.Reading? { ReadLoopKeepsInv(c, t, results[1..]); }
    }
  }

  lemma WriteStepKeepsInv(c: Config, s: State, result: SendResult)
    requires Inv(c, s) && Unsent(s)
    ensures Inv(c, WriteStep(c, s, result))
    ensures WriteStep(c, s, result).loop.pc.Writing? || WriteStep(c, s, result).loop.pc.Dispatching?
  {
    match result
    case Took(n) => StepKeepsInv(c, s, Send(Clip(n, ToSend(s))));
    case SendWouldBlock => StepKeepsInv(c, s, SendAgain);
    case SendIntr => StepKeepsInv(c, s, SendInterrupted);
    case SendFailed => StepKeepsInv(c, s, SendError);
  }

  lemma {:induction false} WriteLoopKeepsInv(c: Config, s: State, results: seq<SendResult>)
    requires Inv(c, s) && s.loop.pc.Writing? && AtConn(s)
    ensures Inv(c, WriteLoop(c, s, results)) && WriteLoop(c, s, results).loop.pc.Dispatching?
    decreases |results|
  {
    if !Unsent(s) {
      StepKeepsInv(c, s, SendDone);
    } else if results == [] {
      StepKeepsInv(c, s, SendAgain);
    } else {
      WriteStepKeepsInv(c, s, results[0]);
      var t := WriteStep(c, s, results[0]);
      if t.loop.pc.Writing? { WriteLoopKeepsInv(c, t, results[1..]); }
    }
  }

  lemma {:induction false} DrainLoopKeepsInv(c: Config, s: State)
    requires Inv(c, s) && s.loop.pc.Draining?
    ensures Inv(c, DrainLoop(c, s)) && DrainLoop(c, s).queues.completions == []
    decreases |s.queues.completions|
  {
    if s.queues.completions == [] {
      StepKeepsInv(c, s, PopNone);
    } else {
      StepKeepsInv(c, s, Pop);
      DrainLoopKeepsInv(c, Apply(c, s, Pop));
    }
  }

  lemma {:induction false} AcceptLoopKeepsInv(c: Config, s: State, fds: seq<Fd>)
    requires Inv(c, s) && s.loop.pc.Accepting? && Fresh(s.net.open, fds)
    ensures Inv(c, AcceptLoop(c, s, fds)) && AcceptLoop(c, s, fds).loop.pc.Dispatching?
    ensures AcceptLoop(c, s, fds).net.nextGen == s.net.nextGen + |fds|
    decreases |fds|
  {
    if fds == [] {
      StepKeepsInv(c, s, AcceptNone);
    } else {
      StepKeepsInv(c, s, Accept(fds[0]));
      AcceptLoopKeepsInv(c, Apply(c, s, Accept(fds[0])), fds[1..]);
    }
  }

  lemma {:induction false} CloseLoopKeepsInv(c: Config, s: State, fds: seq<Fd>)
    requires Inv(c, s) && s.loop.pc.Closing? && Closable(s.net, fds)
    ensures Inv(c, s.(net := CloseLoop(s.net, fds))) && CloseLoop(s.net, fds).nextGen == s.net.nextGen
    decreases |fds|
  {
    if fds != [] {
      var init := fds[..|fds| - 1];
      forall i | 0 <= i < |init| ensures init[i] in CloseLoop(s.net, init[..i]).conns {
        assert init[..i] == fds[..i];
      }
      CloseLoopKeepsInv(c, s, init);
      var t := s.(net := CloseLoop(s.net, init));
      StepKeepsInv(c, t, CloseNext(fds[|fds| - 1]));
      assert Apply(c, t, CloseNext(fds[|fds| - 1])) == s.(net := CloseLoop(s.net, fds));
    }
  }

  lemma ClosableSnoc(n: Net, fds: seq<Fd>, fd: Fd)
    requires Closable(n, fds) && fd in CloseLoop(n, fds).conns
    ensures Closable(n, fds + [fd]) && CloseLoop(n, fds + [fd]) == Close(CloseLoop(n, fds), fd)
  {
    var all := fds + [fd];
    assert all[..|fds|] == fds;
    forall i | 0 <= i < |all| ensures all[i] in CloseLoop(n, all[..i]).conns {
      if i < |fds| { assert all[..i] == fds[..i]; }
    }
  }
}
