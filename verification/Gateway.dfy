/** The reactor's handlers as they are written, with the results of the system calls as input.
    Between two steps of a handler other threads may step too; here they do not, and each handler is
    shown to take the steps of the machine in Reactor that its results call for. */
module Gateway {
  import opened SocketCalls
  import RequestParser
  import opened Reactor
  import opened ReactorRuns
  import opened HandlerLoops
  import opened HandlerEffects

  class ApiGateway {
    const config: Config
    var connections: map<Fd, Conn>
    var readers: set<Fd>
    var writers: set<Fd>
    var completionQueue: seq<Completion>
    var taskQueue: seq<Item>
    var running: bool
    var abandoning: bool
    /** Numbers the clients, as the request ids of the source do. */
    var nextGen: Gen

    ghost var open: map<Fd, Gen>
    ghost var closed: seq<Gen>
    ghost var pc: Pc
    ghost var batch: seq<Ready>
    ghost var active: seq<Item>
    ghost var log: Log

    ghost function View(): State
      reads this
    {
      State(Net(connections, open, readers, writers, nextGen, closed), Loop(pc, batch, running, abandoning),
            Queues(taskQueue, active, completionQueue), log)
    }

    constructor (config: Config)
      ensures View() == START && this.config == config
    {
      this.config := config;
      connections, readers, writers, completionQueue, taskQueue := map[], {}, {}, [], [];
      running, abandoning, nextGen := false, false, 0;
      open, closed, pc, batch, active, log := map[], [], Stopped, [], [], Log(map[], map[], map[], map[]);
    }

    method CloseConnection(fd: Fd)
      modifies this`connections, this`readers, this`writers, this`open, this`closed
      ensures View() == old(View()).(net := Close(old(View().net), fd))
    {
      readers := readers - {fd};
      writers := writers - {fd};
      closed := if fd in open then closed + [open[fd]] else closed;
      open := open - {fd};
      connections := connections - {fd};
    }

    /** The handler returns without having done anything more. */
    method Leave(ghost e: Event)
      requires e.RecvAgain? || e.SendAgain? || e.AcceptNone?
      requires Allowed(View(), e)
      modifies this`pc
      ensures View() == Apply(config, old(View()), e)
    {
      pc := Dispatching;
    }

    /** The handler closes its connection and returns. */
    method CloseAndLeave(fd: Fd, ghost e: Event)
      requires e.RecvEnd? || e.SendError? || e.SendDone?
      requires Allowed(View(), e) && pc.fd == fd
      modifies this`connections, this`readers, this`writers, this`open, this`closed, this`pc
      ensures View() == Apply(config, old(View()), e)
    {
      CloseConnection(fd);
      pc := Dispatching;
    }

    /** What the reading handler does with the bytes of one call; true when the request is whole or
        refused. */
    method OnBytes(fd: Fd, chunk: string) returns (decided: bool)
      requires pc.Reading? && pc.fd == fd && fd in connections && 0 < |chunk| <= READ_CHUNK
      modifies this`connections, this`readers, this`writers, this`taskQueue, this`pc, this`log
      ensures View() == ReadStep(config, old(View()), Bytes(chunk))
      ensures pc.Reading? <==> !decided && |chunk| == READ_CHUNK
    {
      var (verdict, input) := RequestParser.Feed(connections[fd].input, chunk, config.order);
      OnVerdict(fd, chunk, verdict, input);
      decided := !verdict.Waiting?;
    }

    method OnVerdict(fd: Fd, chunk: string, verdict: Verdict, input: Input)
      requires pc.Reading? && pc.fd == fd && fd in connections && 0 < |chunk| <= READ_CHUNK
      modifies this`connections, this`readers, this`writers, this`taskQueue, this`pc, this`log
      ensures View() == Apply(config, old(View()), Recv(chunk, verdict, input))
    {
      log := LogAfter(config, View(), Recv(chunk, verdict, input));
      Settle(fd, verdict, input);
      if !verdict.Waiting? || |chunk| < READ_CHUNK {
        pc := Dispatching;
      }
    }

    method Settle(fd: Fd, verdict: Verdict, input: Input)
      requires fd in connections
      modifies this`connections, this`readers, this`writers, this`taskQueue
      ensures View().net == Judge(config, old(View()).net, fd, verdict, input)
      ensures taskQueue == old(taskQueue) +
                if verdict.Dispatched? then [Item(fd, old(connections)[fd].gen, verdict.request)] else []
    {
      var conn := connections[fd].(input := input);
      match verdict {
        case Waiting =>
          connections := connections[fd := conn];
        case Dispatched(request) =>
          connections := connections[fd := conn.(awaiting := true)];
          readers := readers - {fd};
          taskQueue := taskQueue + [Item(fd, conn.gen, request)];
        case Rejected(status) =>
          connections := connections[fd := conn.(writeBuffer := config.rejection(status), writeOffset := 0)];
          readers := readers - {fd};
          writers := writers + {fd};
      }
    }

    method OnRecv(fd: Fd, result: RecvResult) returns (leave: bool)
      requires pc.Reading? && pc.fd == fd && fd in connections && RecvOk(result)
      modifies this`connections, this`readers, this`writers, this`open, this`closed, this`taskQueue, this`pc, this`log
      ensures View() == ReadStep(config, old(View()), result)
      ensures leave <==> !pc.Reading?
    {
      match result {
        case Bytes(chunk) =>
          var decided := OnBytes(fd, chunk);
          leave := decided || |chunk| < READ_CHUNK;
        case RecvIntr =>
          leave := false;
        case RecvWouldBlock =>
          leave := true;
          Leave(RecvAgain);
        case _ =>
          leave := true;
          CloseAndLeave(fd, RecvEnd);
      }
    }

    /** `results` is what `recv` returns, call by call; a call behind the last one would block. */
    method OnConnectionReadable(fd: Fd, gen: Gen, results: seq<RecvResult>)
      requires pc == Handler(View().net, Readable(fd, gen)) && AllRecvOk(results)
      modifies this`connections, this`readers, this`writers, this`open, this`closed, this`taskQueue, this`pc, this`log
      ensures View() == if old(pc).Dispatching? then old(View()) else ReadLoop(config, old(View()), results)
      ensures if fd in old(connections) && !old(connections)[fd].awaiting
              then ReadLeft(config, old(View()), results, View()) else View() == old(View())
    {
      if fd !in connections {
        return;
      }
      if connections[fd].awaiting {
        return;
      }
      ReadLeftBehind(config, View(), results);
      ReadAll(fd, results);
    }

    method ReadAll(fd: Fd, results: seq<RecvResult>)
      requires pc.Reading? && pc.fd == fd && fd in connections && AllRecvOk(results)
      modifies this`connections, this`readers, this`writers, this`open, this`closed, this`taskQueue, this`pc, this`log
      ensures View() == ReadLoop(config, old(View()), results)
    {
      var k := 0;
      assert results[0..] == results;
      while k < |results|
        invariant 0 <= k <= |results| && pc == old(pc) && fd in connections
        invariant ReadLoop(config, old(View()), results) == ReadLoop(config, View(), results[k..])
      {
        assert results[k..][1..] == results[k + 1..];
        var leave := OnRecv(fd, results[k]);
        if leave {
          return;
        }
        k := k + 1;
      }
      Leave(RecvAgain);
    }

    method OnSend(fd: Fd, result: SendResult) returns (leave: bool)
      requires pc.Writing? && pc.fd == fd && Unsent(View())
      modifies this`connections, this`readers, this`writers, this`open, this`closed, this`pc, this`log
      ensures View() == WriteStep(config, old(View()), result)
      ensures leave <==> !pc.Writing?
    {
      leave := false;
      match result {
        case Took(n) =>
          OnTook(fd, Clip(n, |connections[fd].writeBuffer| - connections[fd].writeOffset));
        case SendIntr =>
        case SendWouldBlock =>
          leave := true;
          Leave(SendAgain);
        case SendFailed =>
          leave := true;
          CloseAndLeave(fd, SendError);
      }
    }

    method OnTook(fd: Fd, sent: nat)
      requires pc.Writing? && pc.fd == fd && Allowed(View(), Send(sent))
      modifies this`connections, this`log
      ensures View() == Apply(config, old(View()), Send(sent))
    {
      log := LogAfter(config, View(), Send(sent));
      var conn := connections[fd];
      connections := connections[fd := conn.(writeOffset := conn.writeOffset + sent)];
    }

    method OnConnectionWritable(fd: Fd, gen: Gen, results: seq<SendResult>)
      requires pc == Handler(View().net, Writable(fd, gen))
      modifies this`connections, this`readers, this`writers, this`open, this`closed, this`pc, this`log
      ensures View() == if old(pc).Dispatching? then old(View()) else WriteLoop(config, old(View()), results)
      ensures if fd in old(connections) then WriteLeft(old(View()), results, View()) else View() == old(View())
    {
      if fd !in connections {
        return;
      }
      WriteLeftBehind(config, View(), results);
      var k := 0;
      assert results[0..] == results;
      while connections[fd].writeOffset < |connections[fd].writeBuffer|
        invariant 0 <= k <= |results| && pc == Writing(fd, gen) && fd in connections
        invariant WriteLoop(config, old(View()), results) == WriteLoop(config, View(), results[k..])
        decreases |results| - k
      {
        if k == |results| {
          Leave(SendAgain);
          return;
        }
        assert results[k..][1..] == results[k + 1..];
        var leave := OnSend(fd, results[k]);
        if leave {
          return;
        }
        k := k + 1;
      }
      CloseAndLeave(fd, SendDone);
    }

    method DrainCompletionQueue()
      requires pc.Draining?
      modifies this`connections, this`writers, this`completionQueue, this`pc
      ensures View() == DrainLoop(config, old(View()))
      ensures Delivered(old(View()).net, old(completionQueue), View().net) && completionQueue == []
    {
      DrainEffect(config, View());
      while completionQueue != []
        invariant pc == old(pc) && DrainLoop(config, View()) == DrainLoop(config, old(View()))
        decreases |completionQueue|
      {
        OnCompletion();
      }
      EndDrain();
    }

    method EndDrain()
      requires pc.Draining? && completionQueue == []
      modifies this`pc
      ensures View() == Apply(config, old(View()), PopNone)
    {
      pc := if pc.last then Polling else Dispatching;
    }

    method OnCompletion()
      requires pc.Draining? && completionQueue != []
      modifies this`connections, this`writers, this`completionQueue
      ensures View() == Apply(config, old(View()), Pop)
    {
      var result := completionQueue[0];
      completionQueue := completionQueue[1..];
      var fd := result.item.fd;
      if fd !in connections {
        return;
      }
      var conn := connections[fd].(writeBuffer := result.bytes, writeOffset := 0, awaiting := false);
      connections := connections[fd := conn];
      writers := writers + {fd};
    }

    /** `fds` are the descriptors `accept` returns until it fails. */
    method OnListenReadable(fds: seq<Fd>)
      requires pc.Accepting? && Fresh(open, fds)
      modifies this`connections, this`readers, this`open, this`nextGen, this`pc
      ensures View() == AcceptLoop(config, old(View()), fds)
      ensures Admitted(old(View()).net, fds, View().net)
    {
      var k := 0;
      assert fds[0..] == fds;
      while k < |fds|
        invariant 0 <= k <= |fds| && pc.Accepting? && Fresh(open, fds[k..])
        invariant AcceptLoop(config, View(), fds[k..]) == AcceptLoop(config, old(View()), fds)
      {
        assert fds[k..][0] == fds[k] && fds[k..][1..] == fds[k + 1..];
        Add(fds[k]);
        k := k + 1;
      }
      Leave(AcceptNone);
      AcceptEffect(config, old(View()), fds);
    }

    method Add(fd: Fd)
      requires pc.Accepting? && fd !in open
      modifies this`connections, this`readers, this`open, this`nextGen
      ensures View() == Apply(config, old(View()), Accept(fd))
    {
      connections := connections[fd := Conn(nextGen, RequestParser.FRESH, false, "", 0)];
      open := open[fd := nextGen];
      nextGen := nextGen + 1;
      readers := readers + {fd};
    }

    /** One more connection closed after `fds`. */
    method CloseNextOne(ghost s: State, ghost fds: seq<Fd>, fd: Fd)
      requires pc.Closing? && fd in connections && Closable(s.net, fds)
      requires View() == s.(net := CloseLoop(s.net, fds))
      modifies this`connections, this`readers, this`writers, this`open, this`closed
      ensures Closable(s.net, fds + [fd]) && View() == s.(net := CloseLoop(s.net, fds + [fd]))
      ensures |connections| < |old(connections)|
    {
      ClosableSnoc(s.net, fds, fd);
      assert connections.Keys - {fd} < connections.Keys;
      CloseConnection(fd);
    }

    /** The end of teardown, once the workers have been joined. */
    method CloseConnections() returns (ghost fds: seq<Fd>)
      requires pc.Closing?
      modifies this`connections, this`readers, this`writers, this`open, this`closed, this`pc
      ensures connections == map[] && Closable(old(View()).net, fds)
      ensures forall fd :: fd in old(connections) ==> fd !in open && fd !in readers && fd !in writers
      ensures View() == old(View()).(net := CloseLoop(old(View()).net, fds), loop := old(View()).loop.(pc := Ended))
    {
      fds := [];
      while connections != map[]
        invariant pc.Closing? && Closable(old(View()).net, fds)
        invariant View() == old(View()).(net := CloseLoop(old(View()).net, fds))
        decreases |connections|
      {
        var fd :| fd in connections;
        CloseNextOne(old(View()), fds, fd);
        fds := fds + [fd];
      }
      NothingOpen(old(View()).net, fds);
      pc := Ended;
    }
  }
}
