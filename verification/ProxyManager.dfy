/** `forward`: one request taken upstream, with every way it can end. */
module ProxyManager {
  import opened Wrappers
  import opened Http
  import opened HttpResponse
  import RP = ResponseParser
  import Proxy
  import opened Text
  import opened ConnectionPool
  import opened UpstreamSockets
  import opened PoolCode
  import opened ClientLoops
  import opened HttpClient
  import opened SocketStream
  import opened SocketCalls

  /** One attempt to go on, and whether the wait behind it ended in time. */
  datatype SendRound = SendRound(results: seq<SendResult>, ready: bool)

  datatype ReceiveRound = ReceiveRound(results: seq<RecvResult>, ready: bool)

  /** What the kernel and the clock answer during one call. */
  datatype Env = Env(
    healthy: Fd -> bool, made: int, connectReady: bool, socketError: bool,
    sends: seq<SendRound>, receives: seq<ReceiveRound>, now: int)

  ghost predicate EnvOk(env: Env) {
    forall i :: 0 <= i < |env.receives| ==> AllRecvOk(env.receives[i].results)
  }

  /** What passed between the gateway and the upstream host when all went well. */
  datatype Exchange = Exchange(fd: Fd, request: string, chunks: seq<string>, response: RP.Response)

  datatype Failure =
    | Unreachable
    | ConnectTimeout
    | ConnectError
    | SendError
    | SendTimeout
    | ReceiveError
    | ReceiveTimeout

  function ErrorStatus(f: Failure): nat {
    match f
    case ConnectTimeout => 504
    case SendTimeout => 504
    case ReceiveTimeout => 504
    case _ => 502
  }

  function ErrorText(f: Failure): string {
    match f
    case Unreachable => "Failed to reach upstream host"
    case ConnectTimeout => "Timed out connecting to upstream"
    case ConnectError => "Failed to connect to upstream host"
    case SendError => "Failed to send request to upstream"
    case SendTimeout => "Timed out sending request to upstream"
    case ReceiveError => "Upstream connection closed unexpectedly"
    case ReceiveTimeout => "Timed out waiting for upstream response"
  }

  function ErrorResponse(f: Failure): string {
    Wire(StatusLineText(ErrorStatus(f), if ErrorStatus(f) == 504 then "Gateway Timeout" else "Bad Gateway"),
         [Field("Content-Type", "text/plain; charset=utf-8"), LengthField(ErrorText(f)), Proxy.CLOSE], ErrorText(f))
  }

  /** The open sockets that are not idle in the pool. */
  ghost function InUse(open: map<Fd, Host>, lists: map<Host, seq<Idle>>): map<Fd, Host> {
    map fd | fd in open && !Lists(IdleOf(lists, open[fd]), fd) :: open[fd]
  }

  function LeasedLists(lists: map<Host, seq<Idle>>, host: Host, healthy: Fd -> bool): map<Host, seq<Idle>> {
    if host in lists then lists[host := LeaseFrom(lists[host], healthy).rest] else lists
  }

  function ReleasedLists(c: Config, lists: map<Host, seq<Idle>>, host: Host, fd: Fd, now: int): map<Host, seq<Idle>>
    requires c.maxIdlePerHost >= 1
  {
    lists[host := ReleaseInto(IdleOf(lists, host), fd, now, c.maxIdlePerHost).idle]
  }

  /** A socket goes back to the pool if the fields of the response keep it alive. */
  function SettledLists(c: Config, lists: map<Host, seq<Idle>>, host: Host, fs: Fields, fd: Fd, now: int)
    : map<Host, seq<Idle>>
    requires c.maxIdlePerHost >= 1
  {
    if KeepsAlive(fs) then ReleasedLists(c, lists, host, fd, now) else lists
  }

  /** The socket is idle under its host, and open, exactly if it is to be kept. */
  ghost predicate PooledIff(open: map<Fd, Host>, lists: map<Host, seq<Idle>>, host: Host, fd: Fd, keep: bool) {
    (Lists(IdleOf(lists, host), fd) <==> keep) && (fd in open <==> keep)
  }

  lemma ReleasedIsPooled(c: Config, open: map<Fd, Host>, clock: int, lists: map<Host, seq<Idle>>, host: Host, fd: Fd,
                         now: int)
    requires c.maxIdlePerHost >= 1 && PoolFine(c, open, clock, ReleasedLists(c, lists, host, fd, now))
    ensures PooledIff(open, ReleasedLists(c, lists, host, fd, now), host, fd, true)
  {
    var after := ReleasedLists(c, lists, host, fd, now);
    assert ListFine(c, open, clock, after[host], host);
    assert after[host][|after[host]| - 1].fd == fd;
  }

  /** The sockets still open once a lease has closed the stale ones: a new one gets another number. */
  ghost function OpenAfterLease(open: map<Fd, Host>, lists: map<Host, seq<Idle>>, host: Host,
                                healthy: Fd -> bool): map<Fd, Host>
  {
    if host in lists then open - FdSet(LeaseFrom(lists[host], healthy).closed) else open
  }

  /** What is listed under the host is open and connected to it, and stays open if a lease keeps it
      or hands it out. */
  lemma LeasePartition(c: Config, open: map<Fd, Host>, clock: int, idle: seq<Idle>, host: Host, healthy: Fd -> bool,
                       fd: Fd)
    requires ListFine(c, open, clock, idle, host)
    ensures var leased := LeaseFrom(idle, healthy);
            && (Lists(idle, fd) ==> fd in open && open[fd] == host)
            && (Lists(idle, fd) <==> Lists(leased.rest, fd) || leased.fd == Some(fd) || fd in FdSet(leased.closed))
            && (leased.fd == Some(fd) ==> !Lists(leased.rest, fd) && fd !in FdSet(leased.closed))
            && (fd in FdSet(leased.closed) ==> !Lists(leased.rest, fd))
  {
    LeaseIsCut(idle, healthy);
  }

  lemma LeasedMembership(c: Config, open: map<Fd, Host>, clock: int, lists: map<Host, seq<Idle>>, host: Host,
                         healthy: Fd -> bool, fd: Fd)
    requires PoolFine(c, open, clock, lists) && host in lists
    ensures var leased := LeaseFrom(lists[host], healthy);
            var open', lists' := open - FdSet(leased.closed), lists[host := leased.rest];
            && (fd in InUse(open', lists') <==> fd in InUse(open, lists) || leased.fd == Some(fd))
            && (leased.fd == Some(fd) ==> fd in open' && open[fd] == host && fd !in InUse(open, lists))
  {
    assert ListFine(c, open, clock, lists[host], host);
    LeasePartition(c, open, clock, lists[host], host, healthy, fd);
  }

  /** A lease takes out of the pool what it hands out, and nothing else changes hands. */
  lemma LeaseAndUse(c: Config, open: map<Fd, Host>, clock: int, lists: map<Host, seq<Idle>>, host: Host,
                    healthy: Fd -> bool)
    requires PoolFine(c, open, clock, lists) && host in lists
    ensures var leased := LeaseFrom(lists[host], healthy);
            var open', lists' := open - FdSet(leased.closed), lists[host := leased.rest];
            && InUse(open', lists') ==
                  (if leased.fd.Some? then InUse(open, lists)[leased.fd.value := host] else InUse(open, lists))
            && (leased.fd.Some? ==> leased.fd.value in open' && leased.fd.value !in InUse(open, lists))
  {
    var leased := LeaseFrom(lists[host], healthy);
    var open', lists' := open - FdSet(leased.closed), lists[host := leased.rest];
    forall fd: Fd
      ensures fd in InUse(open', lists') <==> fd in InUse(open, lists) || leased.fd == Some(fd)
      ensures leased.fd == Some(fd) ==> fd in open' && open[fd] == host && fd !in InUse(open, lists)
    {
      LeasedMembership(c, open, clock, lists, host, healthy, fd);
    }
  }

  lemma ReleaseAndUse(c: Config, open: map<Fd, Host>, clock: int, lists: map<Host, seq<Idle>>, host: Host, fd: Fd,
                      now: int)
    requires PoolFine(c, open, clock, lists) && fd in InUse(open, lists) && open[fd] == host
    ensures var r := ReleaseInto(IdleOf(lists, host), fd, now, c.maxIdlePerHost);
            InUse(open - (if r.evicted.Some? then {r.evicted.value} else {}), lists[host := r.idle]) ==
                InUse(open, lists) - {fd}
  {
    var idle := IdleOf(lists, host);
    if host in lists { assert ListFine(c, open, clock, idle, host); }
    var r := ReleaseInto(idle, fd, now, c.maxIdlePerHost);
    ReleaseIsPutBack(idle, fd, now, c.maxIdlePerHost);
    var evicted := if r.evicted.Some? then {r.evicted.value} else {};
    var open', lists' := open - evicted, lists[host := r.idle];
    forall g | g in open ensures g in InUse(open', lists') <==> g in InUse(open, lists) && g != fd {
      assert Lists(r.idle, g) <==> g == fd || (Lists(idle, g) && g !in evicted);
    }
  }

  /** Closing a socket that is not idle leaves the pool in order. */
  lemma CloseInUse(c: Config, open: map<Fd, Host>, clock: int, lists: map<Host, seq<Idle>>, fd: Fd)
    requires PoolFine(c, open, clock, lists) && fd in InUse(open, lists)
    ensures PoolFine(c, open - {fd}, clock, lists) && InUse(open - {fd}, lists) == InUse(open, lists) - {fd}
  {
    forall h | h in lists ensures ListFine(c, open - {fd}, clock, lists[h], h) {
      assert ListFine(c, open, clock, lists[h], h);
      forall i | 0 <= i < |lists[h]| ensures lists[h][i].fd != fd { assert Lists(lists[h], lists[h][i].fd); }
    }
  }

  lemma OpenInUse(c: Config, open: map<Fd, Host>, clock: int, lists: map<Host, seq<Idle>>, fd: Fd, host: Host)
    requires PoolFine(c, open, clock, lists) && fd !in open
    ensures PoolFine(c, open[fd := host], clock, lists)
    ensures InUse(open[fd := host], lists) == InUse(open, lists)[fd := host] && fd !in InUse(open, lists)
  {
    forall h | h in lists ensures ListFine(c, open[fd := host], clock, lists[h], h) && !Lists(lists[h], fd) {
      assert ListFine(c, open, clock, lists[h], h);
    }
  }

  /** The bytes `prepareRequest` makes of a request on its way up. */
  function UpstreamRequest(host: Host, verb: Method, path: string, query: string, fs: Fields, body: string,
                           iterate: Order): string
  {
    Proxy.PrintRequest(verb, Proxy.UpstreamTarget(path, query), iterate(Proxy.UpstreamFields(fs)), host, body)
  }

  /** What the gateway answers after a complete exchange. */
  ghost predicate Answered(x: Exchange, out: string, verb: Method, path: string, query: string, fs: Fields, host: Host,
                           body: string, parse: Order, iterate: Order)
  {
    && x.request == UpstreamRequest(host, verb, path, query, fs, body, iterate)
    && CallReads(x.chunks, parse) && RP.TryParse(RP.Concat(x.chunks), parse) == RP.Complete(x.response)
    && out == Proxy.Downstream(x.response.status, x.response.reason, iterate(x.response.fields), x.response.body)
  }

  // ---------------------------------------------------------------- how a call ends

  function ConnectFailure(lists: map<Host, seq<Idle>>, host: Host, env: Env): Option<Failure> {
    if host in lists && LeaseFrom(lists[host], env.healthy).fd.Some? then None
    else if env.made < 0 then Some(Unreachable)
    else if !env.connectReady then Some(ConnectTimeout)
    else if env.socketError then Some(ConnectError)
    else None
  }

  function SendFailure(offset: nat, total: nat, rounds: seq<SendRound>): Option<Failure>
    requires offset <= total
    decreases |rounds|
  {
    var round := if rounds == [] then SendRound([], false) else rounds[0];
    match SendLoop(offset, total, round.results)
    case AllSent => None
    case Broken(_) => Some(SendError)
    case Blocked(next) =>
      if rounds == [] || !round.ready then Some(SendTimeout) else SendFailure(next, total, rounds[1..])
  }

  function ReceiveOutcome(buffer: string, rounds: seq<ReceiveRound>, parse: Order): Result<RP.Response, Failure>
    decreases |rounds|
  {
    var round := if rounds == [] then ReceiveRound([], false) else rounds[0];
    match ReceiveLoop(buffer, round.results, parse)
    case Done(response) => Ok(response)
    case Failed => Err(ReceiveError)
    case Receiving(raw) =>
      if rounds == [] || !round.ready then Err(ReceiveTimeout) else ReceiveOutcome(raw, rounds[1..], parse)
  }

  function Conversation(requestLength: nat, env: Env, parse: Order): Result<RP.Response, Failure> {
    match SendFailure(0, requestLength, env.sends)
    case Some(f) => Err(f)
    case None => ReceiveOutcome("", env.receives, parse)
  }

  /** The upstream response or the first thing that goes wrong. */
  function Outcome(lists: map<Host, seq<Idle>>, host: Host, requestLength: nat, env: Env,
                   parse: Order): Result<RP.Response, Failure>
  {
    match ConnectFailure(lists, host, env)
    case Some(f) => Err(f)
    case None => Conversation(requestLength, env, parse)
  }

  // ---------------------------------------------------------------- what is answered when it goes wrong

  ghost predicate NoneHealthy(lists: map<Host, seq<Idle>>, host: Host, healthy: Fd -> bool) {
    host in lists ==> forall i :: 0 <= i < |lists[host]| ==> !healthy(lists[host][i].fd)
  }

  /** Connecting fails only without a healthy idle connection: if no socket can be made, if the new one is not
      ready in time, or if it reports an error. */
  lemma ConnectExits(lists: map<Host, seq<Idle>>, host: Host, env: Env)
    ensures ConnectFailure(lists, host, env) ==
            if !NoneHealthy(lists, host, env.healthy) then None
            else if env.made < 0 then Some(Unreachable)
            else if !env.connectReady then Some(ConnectTimeout)
            else if env.socketError then Some(ConnectError)
            else None
  {
    if host in lists {
      var k := SomeNewestHealthy(lists[host], env.healthy);
      LeaseTakesNewestHealthy(lists[host], env.healthy, k);
    }
  }

  /** Each round before the last of `offsets` began at its offset, was blocked at the next and went on in time. */
  ghost predicate SendRounds(offsets: seq<nat>, total: nat, rounds: seq<SendRound>) {
    && 0 < |offsets| <= |rounds| + 1 && (forall j :: 0 <= j < |offsets| ==> offsets[j] <= total)
    && forall j :: 0 <= j < |offsets| - 1 ==> BlockedInTime(offsets[j], total, rounds[j], offsets[j + 1])
  }

  ghost predicate BlockedInTime(offset: nat, total: nat, round: SendRound, next: nat)
    requires offset <= total
  {
    SendLoop(offset, total, round.results) == Blocked(next) && round.ready
  }

  /** After such rounds the next decides: a failing `send` is an error, and being blocked without going on in
      time is a timeout. */
  lemma {:induction false} SendExit(offsets: seq<nat>, total: nat, rounds: seq<SendRound>)
    requires SendRounds(offsets, total, rounds)
    ensures var k := |offsets| - 1; var failure := SendFailure(offsets[0], total, rounds);
            if k == |rounds| then failure == if offsets[k] == total then None else Some(SendTimeout)
            else
              match SendLoop(offsets[k], total, rounds[k].results)
              case AllSent => failure == None
              case Broken(_) => failure == Some(SendError)
              case Blocked(_) => !rounds[k].ready ==> failure == Some(SendTimeout)
  {
    if |offsets| > 1 {
      assert BlockedInTime(offsets[0], total, rounds[0], offsets[1]);
      forall j | 0 <= j < |offsets| - 2
        ensures BlockedInTime(offsets[1..][j], total, rounds[1..][j], offsets[1..][j + 1])
      {
        assert BlockedInTime(offsets[j + 1], total, rounds[j + 1], offsets[j + 2]);
      }
      SendExit(offsets[1..], total, rounds[1..]);
    }
  }

  ghost predicate ReceiveRounds(buffers: seq<string>, rounds: seq<ReceiveRound>, parse: Order) {
    && 0 < |buffers| <= |rounds| + 1
    && forall j :: 0 <= j < |buffers| - 1 ==> WaitsInTime(buffers[j], rounds[j], buffers[j + 1], parse)
  }

  ghost predicate WaitsInTime(buffer: string, round: ReceiveRound, next: string, parse: Order) {
    ReceiveLoop(buffer, round.results, parse) == RP.Progress.Receiving(next) && round.ready
  }

  /** The same for receiving. */
  lemma {:induction false} ReceiveExit(buffers: seq<string>, rounds: seq<ReceiveRound>, parse: Order)
    requires ReceiveRounds(buffers, rounds, parse)
    ensures var k := |buffers| - 1; var outcome := ReceiveOutcome(buffers[0], rounds, parse);
            if k == |rounds| then outcome == Err(ReceiveTimeout)
            else
              match ReceiveLoop(buffers[k], rounds[k].results, parse)
              case Done(response) => outcome == Ok(response)
              case Failed => outcome == Err(ReceiveError)
              case Receiving(_) => !rounds[k].ready ==> outcome == Err(ReceiveTimeout)
  {
    if |buffers| > 1 {
      assert WaitsInTime(buffers[0], rounds[0], buffers[1], parse);
      forall j | 0 <= j < |buffers| - 2
        ensures WaitsInTime(buffers[1..][j], rounds[1..][j], buffers[1..][j + 1], parse)
      {
        assert WaitsInTime(buffers[j + 1], rounds[j + 1], buffers[j + 2], parse);
      }
      ReceiveExit(buffers[1..], rounds[1..], parse);
    }
  }

  predicate TookTooLong(f: Failure) {
    f.ConnectTimeout? || f.SendTimeout? || f.ReceiveTimeout?
  }

  /** The answer as the client of the gateway reads it: 504 for what took too long, 502 for everything else. */
  lemma ErrorAnswer(f: Failure, order: Order)
    requires IsOrder(order)
    ensures var again := RP.TryParse(ErrorResponse(f), order);
            && again.Complete? && again.response.body == ErrorText(f)
            && again.response.status == (if TookTooLong(f) then 504 else 502)
            && again.response.reason == (if TookTooLong(f) then "Gateway Timeout" else "Bad Gateway")
  {
    ShortText(f);
    KindPrintable();
    if TookTooLong(f) { Timeout(); } else { BadGateway(); }
    ErrorReadBack(ErrorStatus(f), if ErrorStatus(f) == 504 then "Gateway Timeout" else "Bad Gateway",
                  Field("Content-Type", "text/plain; charset=utf-8"), ErrorText(f), order);
  }

  lemma ErrorReadBack(status: nat, reason: string, kind: Field, text: string, order: Order)
    requires status <= RP.INT_MAX && CrlfFree(reason) && Trim(reason) == reason && |text| <= MAX_BODY && IsOrder(order)
    requires Printable(kind) && kind.name == "Content-Type"
    ensures var again :=
              RP.TryParse(Wire(StatusLineText(status, reason), [kind, LengthField(text), Proxy.CLOSE], text), order);
            && again.Complete? && again.response.body == text
            && again.response.status == status && again.response.reason == reason
  {
    LengthFieldPrintable(text);
    Proxy.ConnectionFieldsOk();
    Proxy.ReservedNames();
    KindIsOther();
    GoodThree(kind, LengthField(text), Proxy.CLOSE);
    WireRoundTrip(status, reason, [kind, LengthField(text), Proxy.CLOSE], text, order);
  }

  lemma ErrorTexts(f: Failure)
    ensures f.Unreachable? ==> ErrorText(f) == "Failed to reach upstream host"
    ensures f.ConnectTimeout? ==> ErrorText(f) == "Timed out connecting to upstream"
    ensures f.ConnectError? ==> ErrorText(f) == "Failed to connect to upstream host"
    ensures f.SendError? ==> ErrorText(f) == "Failed to send request to upstream"
    ensures f.SendTimeout? ==> ErrorText(f) == "Timed out sending request to upstream"
    ensures f.ReceiveError? ==> ErrorText(f) == "Upstream connection closed unexpectedly"
    ensures f.ReceiveTimeout? ==> ErrorText(f) == "Timed out waiting for upstream response"
  {}

  lemma ShortText(f: Failure)
    ensures |ErrorText(f)| <= MAX_BODY
  {}

  lemma Timeout()
    ensures CrlfFree("Gateway Timeout") && Trim("Gateway Timeout") == "Gateway Timeout"
  {
    CrlfFreeIff("Gateway Timeout");
    TrimIdempotent("Gateway Timeout");
  }

  lemma BadGateway()
    ensures CrlfFree("Bad Gateway") && Trim("Bad Gateway") == "Bad Gateway"
  {
    CrlfFreeIff("Bad Gateway");
    TrimIdempotent("Bad Gateway");
  }

  lemma GoodThree(kind: Field, length: Field, close: Field)
    requires Printable(kind) && Printable(length) && Printable(close)
    requires kind.name != length.name && kind.name != close.name && length.name != close.name
    requires EqualsIgnoreCase(length.name, "content-length")
    requires !EqualsIgnoreCase(kind.name, "content-length") && !EqualsIgnoreCase(close.name, "content-length")
    ensures GoodFields([kind, length, close], length)
  {}

  lemma KindIsOther()
    ensures !EqualsIgnoreCase("Content-Type", "content-length")
    ensures "Content-Type" != "Content-Length" && "Content-Type" != "Connection"
  {}

  lemma KindPrintable()
    ensures Printable(Field("Content-Type", "text/plain; charset=utf-8"))
  {
    assert ValidName("Content-Type");
    ValidFieldPrintable(Field("Content-Type", "text/plain; charset=utf-8"));
  }

  class Manager {
    const pool: Pool
    /** The iteration order of header maps, in the parser and in the loops here. */
    const parse: Order
    const iterate: Order

    constructor (pool: Pool, parse: Order, iterate: Order)
      ensures this.pool == pool && this.parse == parse && this.iterate == iterate
    {
      this.pool, this.parse, this.iterate := pool, parse, iterate;
    }

    method Forward(host: Host, verb: Method, path: string, query: string, fs: Fields, body: string, env: Env)
      returns (out: string, ghost exchange: Option<Exchange>)
      requires pool.Valid() && EnvOk(env) && env.now >= pool.clock
      requires env.made >= 0 ==>
                 env.made !in OpenAfterLease(pool.sockets.open, pool.idleByHost, host, env.healthy)
      modifies pool, pool.sockets
      ensures pool.Valid()
      ensures InUse(pool.sockets.open, pool.idleByHost) == old(InUse(pool.sockets.open, pool.idleByHost))
      ensures exchange.Some? ==> Answered(exchange.value, out, verb, path, query, fs, host, body, parse, iterate)
      ensures var request := UpstreamRequest(host, verb, path, query, fs, body, iterate);
              match Outcome(old(pool.idleByHost), host, |request|, env, parse)
              case Ok(response) => exchange.Some? && exchange.value.response == response
              case Err(failure) => exchange.None? && out == ErrorResponse(failure)
      ensures pool.idleByHost ==
                var leased := LeasedLists(old(pool.idleByHost), host, env.healthy);
                if exchange.None? then leased
                else
                  var fields := iterate(exchange.value.response.fields);
                  SettledLists(pool.config, leased, host, fields, exchange.value.fd, env.now)
      ensures exchange.Some? ==>
                PooledIff(pool.sockets.open, pool.idleByHost, host, exchange.value.fd,
                          KeepsAlive(iterate(exchange.value.response.fields)))
    {
      var client := new Client(pool.sockets, parse);
      out, exchange := Serve(client, host, verb, path, query, fs, body, env);
    }

    /** The call with its client. */
    method Serve(client: Client, host: Host, verb: Method, path: string, query: string, fs: Fields, body: string,
                 env: Env)
      returns (out: string, ghost exchange: Option<Exchange>)
      requires pool.Valid() && EnvOk(env) && env.now >= pool.clock
      requires client.Valid() && client.state.NotConnected? && client.fd == -1 && client.readBuffer == ""
      requires client.sockets == pool.sockets && client.order == parse
      requires env.made >= 0 ==>
                 env.made !in OpenAfterLease(pool.sockets.open, pool.idleByHost, host, env.healthy)
      modifies pool, pool.sockets, client
      ensures pool.Valid()
      ensures InUse(pool.sockets.open, pool.idleByHost) == old(InUse(pool.sockets.open, pool.idleByHost))
      ensures exchange.Some? ==> Answered(exchange.value, out, verb, path, query, fs, host, body, parse, iterate)
      ensures var request := UpstreamRequest(host, verb, path, query, fs, body, iterate);
              match Outcome(old(pool.idleByHost), host, |request|, env, parse)
              case Ok(response) => exchange.Some? && exchange.value.response == response
              case Err(failure) => exchange.None? && out == ErrorResponse(failure)
      ensures pool.idleByHost ==
                var leased := LeasedLists(old(pool.idleByHost), host, env.healthy);
                if exchange.None? then leased
                else
                  var fields := iterate(exchange.value.response.fields);
                  SettledLists(pool.config, leased, host, fields, exchange.value.fd, env.now)
      ensures exchange.Some? ==>
                PooledIff(pool.sockets.open, pool.idleByHost, host, exchange.value.fd,
                          KeepsAlive(iterate(exchange.value.response.fields)))
    {
      exchange := None;
      ghost var before := InUse(pool.sockets.open, pool.idleByHost);
      var failure := Attempt(client, host, verb, path, query, fs, body, env);
      PutAndTake(before, client.fd, host);
      if failure.Some? {
        Abandon(client);
        out := ErrorResponse(failure.value);
        return;
      }
      exchange := Some(Exchange(client.fd, client.request, client.chunks, client.response));
      out := Deliver(client, host, env.now);
    }

    /** The response rewritten, and the socket settled. */
    method Deliver(client: Client, host: Host, now: int) returns (out: string)
      requires pool.Valid() && client.Valid() && client.state.Complete? && client.leftover == "" && now >= pool.clock
      requires client.sockets == pool.sockets && client.order == parse
      requires client.fd >= 0 && client.fd in InUse(pool.sockets.open, pool.idleByHost)
      requires pool.sockets.open[client.fd] == host
      modifies pool, pool.sockets, client`fd, client`state
      ensures pool.Valid()
      ensures InUse(pool.sockets.open, pool.idleByHost) ==
                old(InUse(pool.sockets.open, pool.idleByHost)) - {old(client.fd)}
      ensures pool.idleByHost ==
                SettledLists(pool.config, old(pool.idleByHost), host, iterate(client.response.fields),
                             old(client.fd), now)
      ensures PooledIff(pool.sockets.open, pool.idleByHost, host, old(client.fd),
                        KeepsAlive(iterate(client.response.fields)))
      ensures CallReads(client.chunks, parse)
      ensures RP.TryParse(RP.Concat(client.chunks), parse) == RP.Complete(client.response)
      ensures out == Proxy.Downstream(client.response.status, client.response.reason, iterate(client.response.fields),
                                      client.response.body)
    {
      RP.FromNothing(RP.Concat(client.chunks));
      out := Proxy.RewriteResponse(client.response, iterate);
      Settle(client, host, now);
    }

    /** Up to the complete response, or the first thing that goes wrong. */
    method Attempt(client: Client, host: Host, verb: Method, path: string, query: string, fs: Fields, body: string,
                   env: Env)
      returns (failure: Option<Failure>)
      requires pool.Valid() && client.Valid() && client.state.NotConnected? && client.fd == -1
      requires client.readBuffer == ""
      requires client.sockets == pool.sockets && client.order == parse && EnvOk(env)
      requires env.made >= 0 ==>
                 env.made !in OpenAfterLease(pool.sockets.open, pool.idleByHost, host, env.healthy)
      modifies pool`idleByHost, pool.sockets, client
      ensures pool.Valid() && client.Valid()
      ensures Owns(client, host, old(InUse(pool.sockets.open, pool.idleByHost)))
      ensures pool.idleByHost == LeasedLists(old(pool.idleByHost), host, env.healthy)
      ensures failure.None? ==>
                && client.state.Complete? && client.leftover == ""
                && client.request == UpstreamRequest(host, verb, path, query, fs, body, iterate)
      ensures var request := UpstreamRequest(host, verb, path, query, fs, body, iterate);
              match Outcome(old(pool.idleByHost), host, |request|, env, parse)
              case Ok(response) => failure == None && client.response == response
              case Err(f) => failure == Some(f)
    {
      failure := OpenConnection(client, host, env);
      if failure.None? {
        failure := Talk(client, verb, path, query, fs, body, env);
      }
    }

    /** The request prepared, sent and answered. */
    method Talk(client: Client, verb: Method, path: string, query: string, fs: Fields, body: string, env: Env)
      returns (failure: Option<Failure>)
      requires client.Valid() && client.state.Connected? && client.readBuffer == "" && client.order == parse
      requires EnvOk(env)
      modifies client`state, client`writeBuffer, client`writeOffset, client`readBuffer, client`response,
               client`request, client`wire, client`leftover, client`chunks
      ensures client.Valid()
      ensures var request := UpstreamRequest(client.remoteHost, verb, path, query, fs, body, iterate);
              match Conversation(|request|, env, parse)
              case Ok(response) =>
                && failure == None && client.state.Complete? && client.response == response && client.leftover == ""
                && client.request == request
              case Err(f) => failure == Some(f)
    {
      Prepare(client, verb, path, query, fs, body);
      failure := Converse(client, env);
    }

    /** The socket goes back to the pool if the upstream host keeps it, and is closed otherwise. */
    method Settle(client: Client, host: Host, now: int)
      requires pool.Valid() && client.Valid() && client.fd >= 0 && now >= pool.clock
      requires client.sockets == pool.sockets && client.fd in InUse(pool.sockets.open, pool.idleByHost)
      requires pool.sockets.open[client.fd] == host
      modifies pool, pool.sockets, client`fd, client`state
      ensures pool.Valid()
      ensures InUse(pool.sockets.open, pool.idleByHost) ==
                old(InUse(pool.sockets.open, pool.idleByHost)) - {old(client.fd)}
      ensures pool.idleByHost ==
                SettledLists(pool.config, old(pool.idleByHost), host, iterate(client.response.fields),
                             old(client.fd), now)
      ensures PooledIff(pool.sockets.open, pool.idleByHost, host, old(client.fd),
                        KeepsAlive(iterate(client.response.fields)))
    {
      var keepAlive := KeepsAlive(iterate(client.response.fields));
      if keepAlive {
        GiveBack(client, host, now);
        ReleasedIsPooled(pool.config, pool.sockets.open, pool.clock, old(pool.idleByHost), host, old(client.fd), now);
      }
      Abandon(client);
    }

    /** The client holds the one socket that came into use since `before`, if it holds any. */
    ghost predicate Owns(client: Client, host: Host, before: map<Fd, Host>)
      reads pool, pool.sockets, client
    {
      && client.sockets == pool.sockets
      && InUse(pool.sockets.open, pool.idleByHost) == (if client.fd >= 0 then before[client.fd := host] else before)
      && (client.fd >= 0 ==> client.fd !in before)
    }

    /** A pooled connection if there is a healthy one, else a new one. */
    method OpenConnection(client: Client, host: Host, env: Env) returns (failure: Option<Failure>)
      requires pool.Valid() && client.Valid() && client.state.NotConnected? && client.fd == -1
      requires client.readBuffer == ""
      requires client.sockets == pool.sockets
      requires env.made >= 0 ==>
                 env.made !in OpenAfterLease(pool.sockets.open, pool.idleByHost, host, env.healthy)
      modifies pool`idleByHost, pool.sockets, client
      ensures pool.Valid() && client.Valid()
      ensures Owns(client, host, old(InUse(pool.sockets.open, pool.idleByHost)))
      ensures pool.idleByHost == LeasedLists(old(pool.idleByHost), host, env.healthy)
      ensures failure == ConnectFailure(old(pool.idleByHost), host, env)
      ensures failure.None? ==> client.state.Connected? && client.remoteHost == host && client.readBuffer == ""
    {
      ghost var open, lists := pool.sockets.open, pool.idleByHost;
      var leased := pool.Lease(host, env.healthy);
      if host in lists { LeaseAndUse(pool.config, open, pool.clock, lists, host, env.healthy); }
      if leased >= 0 {
        var reused := client.AdoptConnection(leased, host);
        return None;
      }
      OpenNew(pool.config, pool.sockets.open, pool.clock, pool.idleByHost, env.made, host);
      var connected := client.Connect(host, env.made);
      if !connected {
        return Some(Unreachable);
      }
      if !env.connectReady {
        return Some(ConnectTimeout);
      }
      var completed := client.CompleteConnect(env.socketError);
      return if completed then None else Some(ConnectError);
    }

    method Prepare(client: Client, verb: Method, path: string, query: string, fs: Fields, body: string)
      requires client.Valid() && client.state.Connected?
      modifies client`state, client`writeBuffer, client`writeOffset, client`request, client`wire
      ensures client.Valid() && client.state.Sending? && client.writeOffset == 0
      ensures client.request == UpstreamRequest(client.remoteHost, verb, path, query, fs, body, iterate)
    {
      var fields := iterate(Proxy.UpstreamFields(fs));
      var prepared := client.PrepareRequest(verb, Proxy.UpstreamTarget(path, query), fields, body);
    }

    /** The request sent and the response received, in as many rounds as it takes. */
    method Converse(client: Client, env: Env) returns (failure: Option<Failure>)
      requires client.Valid() && client.state.Sending? && client.writeOffset == 0 && client.readBuffer == ""
      requires EnvOk(env) && client.order == parse
      modifies client`state, client`writeBuffer, client`writeOffset, client`readBuffer, client`response,
               client`wire, client`leftover, client`chunks
      ensures client.Valid()
      ensures match Conversation(|client.request|, env, parse)
              case Ok(response) =>
                && failure == None && client.state.Complete? && client.response == response && client.leftover == ""
              case Err(f) => failure == Some(f)
    {
      failure := SendAll(client, env);
      if failure.None? {
        failure := ReceiveAll(client, env);
      }
    }

    method SendAll(client: Client, env: Env) returns (failure: Option<Failure>)
      requires client.Valid() && client.state.Sending? && client.readBuffer == ""
      modifies client`state, client`writeBuffer, client`writeOffset, client`wire, client`leftover, client`chunks
      ensures client.Valid() && failure == SendFailure(old(client.writeOffset), |client.request|, env.sends)
      ensures failure.None? ==> client.state.Receiving? && client.leftover == ""
    {
      var k := 0;
      assert env.sends[0..] == env.sends;
      while true
        invariant k <= |env.sends| && client.Valid() && client.state.Sending?
        invariant SendFailure(old(client.writeOffset), |client.request|, env.sends) ==
                  SendFailure(client.writeOffset, |client.request|, env.sends[k..])
        decreases |env.sends| - k
      {
        assert k < |env.sends| ==> env.sends[k..][1..] == env.sends[k + 1..];
        var round := if k < |env.sends| then env.sends[k] else SendRound([], false);
        var ok := client.Send(round.results);
        if !ok {
          return Some(SendError);
        }
        if client.state.Receiving? {
          return None;
        }
        if !round.ready {
          return Some(SendTimeout);
        }
        k := k + 1;
      }
    }

    method ReceiveAll(client: Client, env: Env) returns (failure: Option<Failure>)
      requires client.Valid() && client.state.Receiving? && EnvOk(env)
      modifies client`state, client`readBuffer, client`response, client`chunks
      ensures client.Valid() && client.leftover == old(client.leftover)
      ensures match ReceiveOutcome(old(client.readBuffer), env.receives, client.order)
              case Ok(response) => failure == None && client.response == response
              case Err(f) => failure == Some(f)
      ensures failure.None? ==> client.state.Complete?
    {
      var k := 0;
      assert env.receives[0..] == env.receives;
      while true
        invariant k <= |env.receives| && client.Valid() && client.state.Receiving?
        invariant ReceiveOutcome(old(client.readBuffer), env.receives, client.order) ==
                  ReceiveOutcome(client.readBuffer, env.receives[k..], client.order)
        decreases |env.receives| - k
      {
        assert k < |env.receives| ==> env.receives[k..][1..] == env.receives[k + 1..];
        var round := if k < |env.receives| then env.receives[k] else ReceiveRound([], false);
        var ok := client.Receive(round.results);
        if !ok {
          return Some(ReceiveError);
        }
        if client.state.Complete? {
          return None;
        }
        if !round.ready {
          return Some(ReceiveTimeout);
        }
        k := k + 1;
      }
    }

    /** The client's socket goes back to the pool. */
    method GiveBack(client: Client, host: Host, now: int)
      requires pool.Valid() && client.Valid() && client.fd >= 0 && now >= pool.clock
      requires client.sockets == pool.sockets && client.fd in InUse(pool.sockets.open, pool.idleByHost)
      requires pool.sockets.open[client.fd] == host
      modifies pool, pool.sockets, client`fd, client`state
      ensures pool.Valid() && client.fd < 0
      ensures InUse(pool.sockets.open, pool.idleByHost) ==
                old(InUse(pool.sockets.open, pool.idleByHost)) - {old(client.fd)}
      ensures pool.idleByHost ==
                ReleasedLists(pool.config, old(pool.idleByHost), host, old(client.fd), now)
    {
      ReleaseAndUse(pool.config, pool.sockets.open, pool.clock, pool.idleByHost, host, client.fd, now);
      var released := client.ReleaseFd();
      pool.Release(host, released, now);
    }

    /** The end of the client: it closes what it still holds. */
    method Abandon(client: Client)
      requires pool.Valid() && client.sockets == pool.sockets
      requires client.fd >= 0 ==> client.fd in InUse(pool.sockets.open, pool.idleByHost)
      modifies pool.sockets, client`fd
      ensures pool.Valid()
      ensures InUse(pool.sockets.open, pool.idleByHost) ==
                if old(client.fd) >= 0 then old(InUse(pool.sockets.open, pool.idleByHost)) - {old(client.fd)}
                else old(InUse(pool.sockets.open, pool.idleByHost))
      ensures pool.sockets.open ==
                if old(client.fd) >= 0 then old(pool.sockets.open) - {old(client.fd)} else old(pool.sockets.open)
    {
      if client.fd >= 0 {
        CloseInUse(pool.config, pool.sockets.open, pool.clock, pool.idleByHost, client.fd);
      }
      client.Close();
    }
  }

  lemma PutAndTake(m: map<Fd, Host>, fd: int, host: Host)
    requires fd >= 0 ==> fd !in m
    ensures fd >= 0 ==> m[fd := host] - {fd} == m
  {}

  lemma OpenNew(c: Config, open: map<Fd, Host>, clock: int, lists: map<Host, seq<Idle>>, made: int, host: Host)
    requires PoolFine(c, open, clock, lists) && (made >= 0 ==> made !in open)
    ensures made >= 0 ==>
              && PoolFine(c, open[made := host], clock, lists)
              && InUse(open[made := host], lists) == InUse(open, lists)[made := host] && made !in InUse(open, lists)
  {
    if made >= 0 { OpenInUse(c, open, clock, lists, made, host); }
  }
}
