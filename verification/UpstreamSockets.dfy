/** Who owns an upstream socket while any number of `forward` calls, the reaping of the pool and its
    destruction interleave. */
module UpstreamSockets {
  import opened Wrappers
  import opened ConnectionPool

  type Host = string
  type CallId = nat

  /** How far a call has come; a call holds a descriptor from `Connecting` on. */
  datatype Stage = Leasing | Dialing | Connecting | Preparing | Sending | Receiving | Finishing(keepAlive: bool)

  datatype Call = Call(host: Host, stage: Stage, fd: Option<Fd>)

  /** `open` says to which host each open upstream descriptor is connected. */
  datatype State = State(
    pool: map<Host, seq<Idle>>, calls: map<CallId, Call>, open: map<Fd, Host>, clock: int)

  datatype Config = Config(maxIdlePerHost: nat, idleTimeout: int)

  const START := State(map[], map[], map[], 0)

  datatype Event =
    | Begin(id: CallId, host: Host)
    | Lease(id: CallId, healthy: Fd -> bool)
    | Dial(id: CallId, fd: Fd)
    | Advance(id: CallId)
    | Respond(id: CallId, keepAlive: bool)
    | Fail(id: CallId)
    | Return(id: CallId, now: int)
    | Drop(id: CallId)
    | Reap(now: int)
    | CloseAll

  ghost predicate At(s: State, id: CallId, stage: Stage) {
    id in s.calls && s.calls[id].stage == stage
  }

  ghost predicate Enabled(s: State, e: Event) {
    match e
    case Begin(id, _) => id !in s.calls
    case Lease(id, _) => At(s, id, Leasing)
    case Dial(id, fd) => At(s, id, Dialing) && fd !in s.open
    case Advance(id) => At(s, id, Connecting) || At(s, id, Preparing) || At(s, id, Sending)
    case Respond(id, _) => At(s, id, Receiving)
    case Fail(id) => id in s.calls && !s.calls[id].stage.Leasing? && !s.calls[id].stage.Finishing?
    case Return(id, now) => At(s, id, Finishing(true)) && now >= s.clock
    case Drop(id) => At(s, id, Finishing(false))
    case Reap(now) => now >= s.clock
    case CloseAll => s.calls == map[]
  }

  function IdleOf(pool: map<Host, seq<Idle>>, h: Host): seq<Idle> {
    if h in pool then pool[h] else []
  }

  function Next(stage: Stage): Stage {
    match stage case Connecting => Preparing case Preparing => Sending case _ => Receiving
  }

  function Held(c: Call): set<Fd> {
    if c.fd.Some? then {c.fd.value} else {}
  }

  /** The descriptors a step closes. */
  ghost function Closes(c: Config, s: State, e: Event): set<Fd>
    requires Enabled(s, e) && c.maxIdlePerHost >= 1
  {
    match e
    case Lease(id, healthy) =>
      set fd | fd in LeaseFrom(IdleOf(s.pool, s.calls[id].host), healthy).closed
    case Fail(id) => Held(s.calls[id])
    case Drop(id) => Held(s.calls[id])
    case Return(id, now) =>
      if s.calls[id].fd.None? then {}
      else
        var r := ReleaseInto(IdleOf(s.pool, s.calls[id].host), s.calls[id].fd.value, now, c.maxIdlePerHost);
        if r.evicted.Some? then {r.evicted.value} else {}
    case Reap(now) =>
      set h, i | h in s.pool && 0 <= i < |s.pool[h]| && Stale(s.pool[h][i], now, c.idleTimeout) :: s.pool[h][i].fd
    case CloseAll => set h, i | h in s.pool && 0 <= i < |s.pool[h]| :: s.pool[h][i].fd
    case _ => {}
  }

  ghost function Apply(c: Config, s: State, e: Event): State
    requires Enabled(s, e) && c.maxIdlePerHost >= 1
  {
    var t := s.(open := s.open - Closes(c, s, e));
    match e
    case Begin(id, h) => t.(calls := s.calls[id := Call(h, Leasing, None)])
    case Lease(id, healthy) =>
      var h := s.calls[id].host;
      if h !in s.pool then t.(calls := s.calls[id := Call(h, Dialing, None)])
      else
        var leased := LeaseFrom(s.pool[h], healthy);
        t.(pool := s.pool[h := leased.rest],
           calls := s.calls[id := Call(h, if leased.fd.Some? then Preparing else Dialing, leased.fd)])
    case Dial(id, fd) =>
      t.(calls := s.calls[id := Call(s.calls[id].host, Connecting, Some(fd))], open := s.open[fd := s.calls[id].host])
    case Advance(id) => t.(calls := s.calls[id := s.calls[id].(stage := Next(s.calls[id].stage))])
    case Respond(id, keepAlive) => t.(calls := s.calls[id := s.calls[id].(stage := Finishing(keepAlive))])
    case Fail(id) => t.(calls := s.calls - {id})
    case Drop(id) => t.(calls := s.calls - {id})
    case Return(id, now) =>
      var call := s.calls[id];
      if call.fd.None? then t.(calls := s.calls - {id}, clock := now)
      else
        var r := ReleaseInto(IdleOf(s.pool, call.host), call.fd.value, now, c.maxIdlePerHost);
        t.(pool := s.pool[call.host := r.idle], calls := s.calls - {id}, clock := now)
    case Reap(now) => t.(pool := map h | h in s.pool :: Kept(s.pool[h], now, c.idleTimeout), clock := now)
    case CloseAll => t.(pool := map h | h in s.pool :: [])
  }

  // ---------------------------------------------------------------- invariant

  ghost predicate ListOk(c: Config, s: State, h: Host)
    requires h in s.pool
  {
    && |s.pool[h]| <= c.maxIdlePerHost && Sorted(s.pool[h]) && NotAfter(s.pool[h], s.clock)
    && Distinct(s.pool[h]) && Connected(s.open, s.pool[h], h)
  }

  ghost predicate Distinct(idle: seq<Idle>) {
    forall i, j :: 0 <= i < j < |idle| ==> idle[i].fd != idle[j].fd
  }

  /** Open, and connected to `h`. */
  ghost predicate Connected(open: map<Fd, Host>, idle: seq<Idle>, h: Host) {
    forall i :: 0 <= i < |idle| ==> idle[i].fd in open && open[idle[i].fd] == h
  }

  ghost predicate Lists(idle: seq<Idle>, fd: Fd) {
    exists i :: 0 <= i < |idle| && idle[i].fd == fd
  }

  /** Idle under the host it is connected to. */
  ghost predicate IsIdle(s: State, fd: Fd) {
    fd in s.open && Lists(IdleOf(s.pool, s.open[fd]), fd)
  }

  ghost predicate Holds(s: State, id: CallId, fd: Fd) {
    id in s.calls && s.calls[id].fd == Some(fd)
  }

  ghost predicate IsHeld(s: State, fd: Fd) {
    exists id :: Holds(s, id, fd)
  }

  ghost predicate CallOk(s: State, id: CallId)
    requires id in s.calls
  {
    var call := s.calls[id];
    && (call.fd.None? <==> call.stage.Leasing? || call.stage.Dialing?)
    && (call.fd.Some? ==> call.fd.value in s.open && s.open[call.fd.value] == call.host && !IsIdle(s, call.fd.value))
  }

  ghost predicate PoolOk(c: Config, s: State) {
    forall h :: h in s.pool ==> ListOk(c, s, h)
  }

  ghost predicate CallsOk(s: State) {
    && (forall id :: id in s.calls ==> CallOk(s, id))
    && (forall a, b, fd :: Holds(s, a, fd) && Holds(s, b, fd) ==> a == b)
  }

  /** Every open descriptor is held by exactly one call or idle, once, under the host it is connected
      to, and what is held or idle is open. */
  ghost predicate Inv(c: Config, s: State) {
    && PoolOk(c, s)
    && CallsOk(s)
    && (forall fd :: fd in s.open ==> IsHeld(s, fd) || IsIdle(s, fd))
  }

  // ---------------------------------------------------------------- calls that do not touch the pool

  /** A call moves on with the descriptor it has. */
  lemma MoveKeepsInv(c: Config, s: State, id: CallId, call: Call)
    requires Inv(c, s) && (id in s.calls ==> s.calls[id].fd == call.fd && s.calls[id].host == call.host)
    requires id !in s.calls ==> call.fd.None?
    requires call.fd.None? <==> call.stage.Leasing? || call.stage.Dialing?
    ensures Inv(c, s.(calls := s.calls[id := call]))
  {
    var t := s.(calls := s.calls[id := call]);
    forall a, fd ensures Holds(t, a, fd) <==> Holds(s, a, fd) {}
    forall h | h in t.pool ensures ListOk(c, t, h) { assert ListOk(c, s, h); }
    forall a | a in t.calls ensures CallOk(t, a) { if a in s.calls { assert CallOk(s, a); } }
    forall fd | fd in t.open ensures IsHeld(t, fd) || IsIdle(t, fd) {
      if a :| Holds(s, a, fd) { assert Holds(t, a, fd); } else { assert IsIdle(s, fd); }
    }
  }

  lemma DialKeepsInv(c: Config, s: State, e: Event)
    requires Inv(c, s) && Enabled(s, e) && e.Dial? && c.maxIdlePerHost >= 1
    ensures Inv(c, Apply(c, s, e))
  {
    var t := Apply(c, s, e);
    assert CallOk(s, e.id);
    forall a, fd ensures Holds(t, a, fd) <==> Holds(s, a, fd) || (a == e.id && fd == e.fd) {}
    forall a | a in s.calls ensures s.calls[a].fd != Some(e.fd) { assert CallOk(s, a); }
    forall h | h in t.pool ensures ListOk(c, t, h) { assert ListOk(c, s, h); }
    var host := s.calls[e.id].host;
    if host in s.pool { assert ListOk(c, s, host); }
    forall a | a in t.calls ensures CallOk(t, a) { if a != e.id { assert CallOk(s, a); } }
    forall fd | fd in t.open ensures IsHeld(t, fd) || IsIdle(t, fd) {
      if fd == e.fd {
        assert Holds(t, e.id, fd);
      } else if a :| Holds(s, a, fd) {
        assert Holds(t, a, fd);
      } else {
        assert IsIdle(s, fd);
      }
    }
  }

  /** A call ends and closes what it holds. */
  lemma EndKeepsInv(c: Config, s: State, id: CallId)
    requires Inv(c, s) && id in s.calls
    ensures Inv(c, s.(calls := s.calls - {id}, open := s.open - Held(s.calls[id])))
  {
    var t := s.(calls := s.calls - {id}, open := s.open - Held(s.calls[id]));
    var mine := Held(s.calls[id]);
    assert CallOk(s, id);
    forall a, fd ensures Holds(t, a, fd) <==> Holds(s, a, fd) && a != id {}
    forall h | h in t.pool ensures ListOk(c, t, h) {
      assert ListOk(c, s, h);
      forall i | 0 <= i < |s.pool[h]| ensures s.pool[h][i].fd !in mine {
        assert Lists(s.pool[h], s.pool[h][i].fd);
      }
    }
    forall a | a in t.calls ensures CallOk(t, a) {
      assert CallOk(s, a);
      if s.calls[a].fd.Some? && s.calls[a].fd.value in mine {
        assert Holds(s, a, s.calls[a].fd.value) && Holds(s, id, s.calls[a].fd.value);
      }
    }
    forall fd | fd in t.open ensures IsHeld(t, fd) || IsIdle(t, fd) {
      if a :| Holds(s, a, fd) { assert Holds(t, a, fd); } else { assert IsIdle(s, fd); }
    }
  }

  // ---------------------------------------------------------------- lease

  ghost predicate ListedAfter(idle: seq<Idle>, k: int, fd: Fd) {
    exists i :: k < i < |idle| && 0 <= i && idle[i].fd == fd
  }

  /** What a lease closes is listed behind what it hands out. */
  lemma {:induction false} ClosedAreNewer(idle: seq<Idle>, healthy: Fd -> bool, k: int, fd: Fd)
    requires NewestHealthy(idle, healthy, k)
    ensures fd in LeaseFrom(idle, healthy).closed <==> ListedAfter(idle, k, fd)
    decreases |idle|
  {
    var n := |idle| - 1;
    if idle != [] && k < n {
      ClosedAreNewer(idle[..n], healthy, k, fd);
      if i :| k < i < |idle[..n]| && 0 <= i && idle[..n][i].fd == fd { assert idle[i].fd == fd; }
      if i :| k < i < |idle| && 0 <= i && idle[i].fd == fd { if i < n { assert idle[..n][i].fd == fd; } }
    }
  }

  /** The list of one host after its newest entries were taken off. */
  ghost predicate CutTo(idle: seq<Idle>, rest: seq<Idle>, out: Option<Fd>, closed: set<Fd>) {
    && |rest| <= |idle| && rest == idle[..|rest|]
    && (forall fd: Fd :: Lists(idle, fd) <==> Lists(rest, fd) || out == Some(fd) || fd in closed)
    && (forall fd: Fd :: Lists(rest, fd) || fd in closed ==> out != Some(fd))
    && (forall fd: Fd :: Lists(rest, fd) ==> fd !in closed)
  }

  lemma LeaseIsCut(idle: seq<Idle>, healthy: Fd -> bool)
    requires Distinct(idle)
    ensures var leased := LeaseFrom(idle, healthy);
            CutTo(idle, leased.rest, leased.fd, set fd | fd in leased.closed)
  {
    var k := SomeNewestHealthy(idle, healthy);
    LeaseTakesNewestHealthy(idle, healthy, k);
    var leased := LeaseFrom(idle, healthy);
    forall fd: Fd
      ensures fd in leased.closed <==> ListedAfter(idle, k, fd)
      ensures Lists(leased.rest, fd) <==> exists i :: 0 <= i < k && idle[i].fd == fd
    {
      ClosedAreNewer(idle, healthy, k, fd);
      if i :| 0 <= i < k && idle[i].fd == fd { assert leased.rest[i].fd == fd; }
    }
  }

  lemma LeaseKeepsInv(c: Config, s: State, e: Event)
    requires Inv(c, s) && Enabled(s, e) && e.Lease? && c.maxIdlePerHost >= 1
    ensures Inv(c, Apply(c, s, e))
  {
    var t := Apply(c, s, e);
    var id, h := e.id, s.calls[e.id].host;
    assert CallOk(s, id);
    if h !in s.pool {
      MoveKeepsInv(c, s, id, Call(h, Dialing, None));
      assert t == s.(calls := s.calls[id := Call(h, Dialing, None)]);
    } else {
      assert ListOk(c, s, h);
      LeaseIsCut(s.pool[h], e.healthy);
      var closed := Closes(c, s, e);
      assert CutTo(s.pool[h], t.pool[h], t.calls[id].fd, closed);
      CutKeepsInv(c, s, t, id, h, closed);
    }
  }

  ghost predicate TakenOff(s: State, t: State, id: CallId, h: Host, closed: set<Fd>) {
    && id in s.calls && s.calls[id].fd.None? && s.calls[id].host == h && h in s.pool
    && t.clock == s.clock && t.open == s.open - closed
    && t.pool.Keys == s.pool.Keys && (forall g :: g in s.pool && g != h ==> t.pool[g] == s.pool[g])
    && t.calls.Keys == s.calls.Keys && (forall a :: a in s.calls && a != id ==> t.calls[a] == s.calls[a])
    && t.calls[id].host == h && (t.calls[id].fd.None? <==> t.calls[id].stage.Dialing?) && !t.calls[id].stage.Leasing?
    && CutTo(s.pool[h], t.pool[h], t.calls[id].fd, closed)
  }

  /** Who closes or takes from the list of `h` leaves everybody else's descriptors alone. */
  lemma OthersUntouched(c: Config, s: State, t: State, id: CallId, h: Host, closed: set<Fd>)
    requires Inv(c, s) && TakenOff(s, t, id, h, closed)
    ensures forall g, i :: g in s.pool && g != h && 0 <= i < |s.pool[g]| ==> s.pool[g][i].fd in t.open
    ensures forall a, fd :: Holds(s, a, fd) ==> fd in t.open && !Lists(s.pool[h], fd)
  {
    assert ListOk(c, s, h);
    forall g, i | g in s.pool && g != h && 0 <= i < |s.pool[g]| ensures s.pool[g][i].fd in t.open {
      assert ListOk(c, s, g);
      assert !Lists(s.pool[h], s.pool[g][i].fd);
    }
    forall a, fd | Holds(s, a, fd) ensures fd in t.open && !Lists(s.pool[h], fd) {
      assert CallOk(s, a);
    }
  }

  lemma CutKeepsInv(c: Config, s: State, t: State, id: CallId, h: Host, closed: set<Fd>)
    requires Inv(c, s) && TakenOff(s, t, id, h, closed)
    ensures Inv(c, t)
  {
    OthersUntouched(c, s, t, id, h, closed);
    assert ListOk(c, s, h);
    forall g | g in t.pool ensures ListOk(c, t, g) {
      assert ListOk(c, s, g);
      if g == h { CutListOk(c, s, t, id, h, closed); }
    }
    forall a | a in t.calls ensures CallOk(t, a) {
      assert CallOk(s, a);
      if a == id { TakenIsMine(c, s, t, id, h, closed); }
    }
    forall a, b, fd | Holds(t, a, fd) && Holds(t, b, fd) ensures a == b {
      if a != id { assert Holds(s, a, fd); }
      if b != id { assert Holds(s, b, fd); }
    }
    forall fd | fd in t.open ensures IsHeld(t, fd) || IsIdle(t, fd) {
      if a :| Holds(s, a, fd) {
        assert Holds(t, a, fd);
      } else {
        assert IsIdle(s, fd);
        if t.calls[id].fd == Some(fd) { assert Holds(t, id, fd); }
      }
    }
  }

  lemma CutListOk(c: Config, s: State, t: State, id: CallId, h: Host, closed: set<Fd>)
    requires Inv(c, s) && TakenOff(s, t, id, h, closed)
    ensures ListOk(c, t, h)
  {
    assert ListOk(c, s, h);
    var rest := t.pool[h];
    forall i | 0 <= i < |rest| ensures rest[i].fd in t.open && t.open[rest[i].fd] == h {
      assert rest[i] == s.pool[h][i];
      assert Lists(rest, rest[i].fd);
    }
  }

  lemma TakenIsMine(c: Config, s: State, t: State, id: CallId, h: Host, closed: set<Fd>)
    requires Inv(c, s) && TakenOff(s, t, id, h, closed)
    ensures CallOk(t, id)
  {
    assert ListOk(c, s, h);
    if t.calls[id].fd.Some? {
      var fd := t.calls[id].fd.value;
      assert Lists(s.pool[h], fd);
      assert !Lists(t.pool[h], fd);
    }
  }

  // ---------------------------------------------------------------- release

  /** What a release makes of a list. */
  ghost predicate PutBack(idle: seq<Idle>, next: seq<Idle>, fd: Fd, evicted: set<Fd>) {
    && (forall g: Fd :: Lists(next, g) <==> g == fd || (Lists(idle, g) && g !in evicted))
    && (forall g :: g in evicted ==> Lists(idle, g))
  }

  lemma ReleaseIsPutBack(idle: seq<Idle>, fd: Fd, now: int, max: nat)
    requires max >= 1 && Distinct(idle)
    ensures var r := ReleaseInto(idle, fd, now, max);
            PutBack(idle, r.idle, fd, if r.evicted.Some? then {r.evicted.value} else {})
  {
    var r := ReleaseInto(idle, fd, now, max);
    var next, cut := r.idle, if r.evicted.Some? then 1 else 0;
    assert next[|next| - 1].fd == fd;
    forall g: Fd ensures Lists(next, g) <==> g == fd || ListedAfter(idle, cut - 1, g) {
      if i :| 0 <= i < |next| && next[i].fd == g { if i < |next| - 1 { assert idle[i + cut].fd == g; } }
      if i :| cut - 1 < i < |idle| && 0 <= i && idle[i].fd == g { assert next[i - cut].fd == g; }
    }
    forall g: Fd ensures ListedAfter(idle, cut - 1, g) <==> Lists(idle, g) && !(cut == 1 && g == idle[0].fd) {
      if i :| cut - 1 < i < |idle| && 0 <= i && idle[i].fd == g { assert idle[i].fd == g; }
      if i :| 0 <= i < |idle| && idle[i].fd == g { if i >= cut { assert idle[i].fd == g; } }
    }
  }

  lemma ReleasedListOk(c: Config, open: map<Fd, Host>, idle: seq<Idle>, h: Host, fd: Fd, clock: int, now: int)
    requires c.maxIdlePerHost >= 1 && now >= clock
    requires |idle| <= c.maxIdlePerHost && Sorted(idle) && NotAfter(idle, clock) && Distinct(idle)
    requires Connected(open, idle, h)
    requires fd in open && open[fd] == h && !Lists(idle, fd)
    ensures var r := ReleaseInto(idle, fd, now, c.maxIdlePerHost);
            && |r.idle| <= c.maxIdlePerHost && Sorted(r.idle) && NotAfter(r.idle, now) && Distinct(r.idle)
            && Connected(open - (if r.evicted.Some? then {r.evicted.value} else {}), r.idle, h)
  {
    forall i | 0 <= i < |idle| ensures idle[i].fd != fd { assert Lists(idle, idle[i].fd); }
  }

  lemma ReturnKeepsInv(c: Config, s: State, e: Event)
    requires Inv(c, s) && Enabled(s, e) && e.Return? && c.maxIdlePerHost >= 1
    ensures Inv(c, Apply(c, s, e))
  {
    var t := Apply(c, s, e);
    var id, h := e.id, s.calls[e.id].host;
    assert CallOk(s, id);
    var fd := s.calls[id].fd.value;
    var idle := IdleOf(s.pool, h);
    if h in s.pool { assert ListOk(c, s, h); }
    ReleaseIsPutBack(idle, fd, e.now, c.maxIdlePerHost);
    ReleasedListOk(c, s.open, idle, h, fd, s.clock, e.now);
    PutBackKeepsInv(c, s, t, id, fd, Closes(c, s, e));
  }

  ghost predicate GaveBack(c: Config, s: State, t: State, id: CallId, fd: Fd, evicted: set<Fd>) {
    && Holds(s, id, fd) && t.clock >= s.clock && t.open == s.open - evicted && t.calls == s.calls - {id}
    && (var h := s.calls[id].host;
        && t.pool.Keys == s.pool.Keys + {h}
        && (forall g :: g in s.pool && g != h ==> t.pool[g] == s.pool[g])
        && PutBack(IdleOf(s.pool, h), t.pool[h], fd, evicted)
        && ListOk(c, t, h))
  }

  lemma PutBackKeepsInv(c: Config, s: State, t: State, id: CallId, fd: Fd, evicted: set<Fd>)
    requires Inv(c, s) && GaveBack(c, s, t, id, fd, evicted)
    ensures Inv(c, t)
  {
    var h := s.calls[id].host;
    assert CallOk(s, id);
    if h in s.pool { assert ListOk(c, s, h); }
    EvictedIsIdle(c, s, t, id, fd, evicted);
    forall g | g in t.pool ensures ListOk(c, t, g) {
      if g != h {
        assert ListOk(c, s, g);
        assert forall i :: 0 <= i < |s.pool[g]| ==> s.pool[g][i].fd !in evicted;
      }
    }
    forall a | a in t.calls ensures CallOk(t, a) {
      assert CallOk(s, a);
      if s.calls[a].fd.Some? { assert Holds(s, a, s.calls[a].fd.value); }
    }
    forall a, b, g | Holds(t, a, g) && Holds(t, b, g) ensures a == b { assert Holds(s, a, g) && Holds(s, b, g); }
    forall g | g in t.open ensures IsHeld(t, g) || IsIdle(t, g) {
      if a :| Holds(s, a, g) {
        if a != id { assert Holds(t, a, g); }
      } else {
        assert IsIdle(s, g);
      }
    }
  }

  lemma EvictedIsIdle(c: Config, s: State, t: State, id: CallId, fd: Fd, evicted: set<Fd>)
    requires Inv(c, s) && GaveBack(c, s, t, id, fd, evicted)
    ensures forall g :: g in evicted ==> g in s.open && s.open[g] == s.calls[id].host && IsIdle(s, g)
  {
    var h := s.calls[id].host;
    if h in s.pool { assert ListOk(c, s, h); }
  }

  // ---------------------------------------------------------------- reaping and closing

  lemma ReapedListOk(c: Config, s: State, h: Host, now: int)
    requires PoolOk(c, s) && h in s.pool && now >= s.clock
    ensures var idle, kept := s.pool[h], Kept(s.pool[h], now, c.idleTimeout);
            && |kept| <= |idle| && Sorted(kept) && NotAfter(kept, now) && Distinct(kept) && Connected(s.open, kept, h)
            && (forall fd: Fd :: Lists(kept, fd) <==> Lists(idle, fd) && !StaleAt(idle, fd, now, c.idleTimeout))
  {
    assert ListOk(c, s, h);
    var idle, kept := s.pool[h], Kept(s.pool[h], now, c.idleTimeout);
    var k := ReapCutsPrefix(idle, now, c.idleTimeout);
    forall fd: Fd ensures Lists(kept, fd) <==> Lists(idle, fd) && !StaleAt(idle, fd, now, c.idleTimeout) {
      if i :| 0 <= i < |kept| && kept[i].fd == fd { assert idle[i + k].fd == fd; }
      if i :| 0 <= i < |idle| && idle[i].fd == fd { if i >= k { assert kept[i - k].fd == fd; } }
    }
  }

  ghost predicate StaleAt(idle: seq<Idle>, fd: Fd, now: int, timeout: int) {
    exists i :: 0 <= i < |idle| && idle[i].fd == fd && Stale(idle[i], now, timeout)
  }

  lemma ReapCloses(c: Config, s: State, e: Event, fd: Fd)
    requires PoolOk(c, s) && Enabled(s, e) && e.Reap? && c.maxIdlePerHost >= 1 && fd in s.open
    ensures fd in Closes(c, s, e) <==> StaleAt(IdleOf(s.pool, s.open[fd]), fd, e.now, c.idleTimeout)
  {
    var h := s.open[fd];
    if fd in Closes(c, s, e) {
      var g, i :| g in s.pool && 0 <= i < |s.pool[g]| && Stale(s.pool[g][i], e.now, c.idleTimeout) &&
          s.pool[g][i].fd == fd;
      assert ListOk(c, s, g);
    }
  }

  lemma ReapKeepsInv(c: Config, s: State, e: Event)
    requires Inv(c, s) && Enabled(s, e) && e.Reap? && c.maxIdlePerHost >= 1
    ensures Inv(c, Apply(c, s, e))
  {
    var t := Apply(c, s, e);
    forall fd | fd in s.open
      ensures fd in t.open <==> !StaleAt(IdleOf(s.pool, s.open[fd]), fd, e.now, c.idleTimeout)
    {
      ReapCloses(c, s, e, fd);
    }
    forall h | h in t.pool ensures ListOk(c, t, h) {
      ReapedListOk(c, s, h, e.now);
      assert ListOk(c, s, h);
      forall i | 0 <= i < |t.pool[h]| ensures t.pool[h][i].fd in t.open { assert Lists(t.pool[h], t.pool[h][i].fd); }
    }
    forall fd | fd in t.open ensures IsIdle(t, fd) <==> IsIdle(s, fd) {
      if s.open[fd] in s.pool { ReapedListOk(c, s, s.open[fd], e.now); }
    }
    forall a | a in t.calls ensures CallOk(t, a) {
      assert CallOk(s, a);
      if s.calls[a].fd.Some? { HeldIsNotStale(s, s.calls[a].fd.value, e.now, c.idleTimeout); }
    }
    forall a, b, g | Holds(t, a, g) && Holds(t, b, g) ensures a == b { assert Holds(s, a, g) && Holds(s, b, g); }
    forall fd | fd in t.open ensures IsHeld(t, fd) || IsIdle(t, fd) {
      if a :| Holds(s, a, fd) { assert Holds(t, a, fd); }
    }
  }

  lemma HeldIsNotStale(s: State, fd: Fd, now: int, timeout: int)
    requires fd in s.open && !IsIdle(s, fd)
    ensures !StaleAt(IdleOf(s.pool, s.open[fd]), fd, now, timeout)
  {}

  lemma CloseAllKeepsInv(c: Config, s: State)
    requires Inv(c, s) && Enabled(s, CloseAll) && c.maxIdlePerHost >= 1
    ensures Inv(c, Apply(c, s, CloseAll)) && Apply(c, s, CloseAll).open == map[]
  {
    var t := Apply(c, s, CloseAll);
    forall fd | fd in s.open ensures fd in Closes(c, s, CloseAll) {
      assert IsHeld(s, fd) || IsIdle(s, fd);
    }
    assert t.open.Keys == {};
  }

  // ---------------------------------------------------------------- runs

  lemma StepKeepsInv(c: Config, s: State, e: Event)
    requires Inv(c, s) && Enabled(s, e) && c.maxIdlePerHost >= 1
    ensures Inv(c, Apply(c, s, e))
  {
    var t := Apply(c, s, e);
    match e
    case Lease(_, _) => LeaseKeepsInv(c, s, e);
    case Dial(_, _) => DialKeepsInv(c, s, e);
    case Return(_, _) => ReturnKeepsInv(c, s, e);
    case Reap(_) => ReapKeepsInv(c, s, e);
    case CloseAll => CloseAllKeepsInv(c, s);
    case Fail(id) => EndKeepsInv(c, s, id);
    case Drop(id) => EndKeepsInv(c, s, id);
    case _ => ProgressKeepsInv(c, s, e);
  }

  lemma ProgressKeepsInv(c: Config, s: State, e: Event)
    requires Inv(c, s) && Enabled(s, e) && c.maxIdlePerHost >= 1
    requires e.Begin? || e.Advance? || e.Respond?
    ensures Inv(c, Apply(c, s, e))
  {
    assert s.open - {} == s.open;
    if e.Begin? {
      MoveKeepsInv(c, s, e.id, Call(e.host, Leasing, None));
    } else {
      assert CallOk(s, e.id);
      MoveKeepsInv(c, s, e.id, Apply(c, s, e).calls[e.id]);
    }
  }

  /** A step closes only descriptors that are open, and of those only what the acting call holds and
      what is idle: never a descriptor another call holds. */
  lemma ClosesOnlyOwn(c: Config, s: State, e: Event, fd: Fd)
    requires Inv(c, s) && Enabled(s, e) && c.maxIdlePerHost >= 1 && fd in Closes(c, s, e)
    ensures fd in s.open
    ensures IsIdle(s, fd) || ((e.Fail? || e.Drop?) && Holds(s, e.id, fd))
    ensures forall a :: Holds(s, a, fd) ==> (e.Fail? || e.Drop?) && a == e.id
  {
    HeldNotIdle(c, s, fd);
    match e
    case Fail(id) => assert CallOk(s, id) && Holds(s, id, fd);
    case Drop(id) => assert CallOk(s, id) && Holds(s, id, fd);
    case Lease(id, healthy) =>
      var h := s.calls[id].host;
      if h in s.pool { assert ListOk(c, s, h); LeaseIsCut(s.pool[h], healthy); }
    case Return(id, now) =>
      assert CallOk(s, id);
      var h := s.calls[id].host;
      if h in s.pool { assert ListOk(c, s, h); }
      ReleaseIsPutBack(IdleOf(s.pool, h), s.calls[id].fd.value, now, c.maxIdlePerHost);
    case Reap(now) =>
      var h, i :| h in s.pool && 0 <= i < |s.pool[h]| && Stale(s.pool[h][i], now, c.idleTimeout) &&
          s.pool[h][i].fd == fd;
      assert ListOk(c, s, h);
    case CloseAll =>
      var h, i :| h in s.pool && 0 <= i < |s.pool[h]| && s.pool[h][i].fd == fd;
      assert ListOk(c, s, h);
  }

  lemma HeldNotIdle(c: Config, s: State, fd: Fd)
    requires Inv(c, s)
    ensures IsHeld(s, fd) ==> !IsIdle(s, fd)
  {
    if a :| Holds(s, a, fd) { assert CallOk(s, a); }
  }

  // ---------------------------------------------------------------- runs

  ghost predicate IsStep(c: Config, s: State, e: Event, t: State) {
    c.maxIdlePerHost >= 1 && Enabled(s, e) && t == Apply(c, s, e)
  }

  ghost predicate IsRun(c: Config, events: seq<Event>, states: seq<State>) {
    && |states| == |events| + 1
    && states[0] == START
    && forall i :: 0 <= i < |events| ==> IsStep(c, states[i], events[i], states[i + 1])
  }

  lemma {:induction false} RunKeepsInv(c: Config, events: seq<Event>, states: seq<State>, i: nat)
    requires IsRun(c, events, states) && i <= |events|
    ensures Inv(c, states[i])
  {
    if i > 0 {
      RunKeepsInv(c, events, states, i - 1);
      assert IsStep(c, states[i - 1], events[i - 1], states[i]);
      StepKeepsInv(c, states[i - 1], events[i - 1]);
    }
  }

  /** At every moment of every run an open upstream descriptor is in exactly one place: held by one
      call for the host it is connected to, or idle once under that host. */
  lemma OnePlace(c: Config, events: seq<Event>, states: seq<State>, i: nat, fd: Fd)
    requires IsRun(c, events, states) && i <= |events|
    ensures var s := states[i];
            && (fd in s.open <==> IsHeld(s, fd) || IsIdle(s, fd))
            && !(IsHeld(s, fd) && IsIdle(s, fd))
            && (forall a, b :: Holds(s, a, fd) && Holds(s, b, fd) ==> a == b)
            && (forall a :: Holds(s, a, fd) ==> fd in s.open && s.open[fd] == s.calls[a].host)
            && (forall h :: h in s.pool && Lists(s.pool[h], fd) ==> fd in s.open && s.open[fd] == h)
  {
    RunKeepsInv(c, events, states, i);
    var s := states[i];
    forall a | Holds(s, a, fd) ensures fd in s.open && s.open[fd] == s.calls[a].host && !IsIdle(s, fd) {
      assert CallOk(s, a);
    }
    forall h | h in s.pool && Lists(s.pool[h], fd) ensures fd in s.open && s.open[fd] == h { assert ListOk(c, s, h); }
  }

  /** The idle lists stay within the maximum and oldest first, so that a release evicts the front and
      reaping cuts a prefix. */
  lemma IdleListsInOrder(c: Config, events: seq<Event>, states: seq<State>, i: nat, h: Host)
    requires IsRun(c, events, states) && i <= |events| && h in states[i].pool
    ensures |states[i].pool[h]| <= c.maxIdlePerHost && Sorted(states[i].pool[h]) && Distinct(states[i].pool[h])
  {
    RunKeepsInv(c, events, states, i);
    assert ListOk(c, states[i], h);
  }

  /** The call's response came in step `j`, and nothing else has happened to it since. */
  ghost predicate RespondedAt(events: seq<Event>, states: seq<State>, j: int, i: nat, id: CallId, keepAlive: bool)
    requires i <= |events| < |states|
  {
    0 <= j < i && events[j] == Respond(id, keepAlive) &&
    forall k :: j < k <= i ==> At(states[k], id, Finishing(keepAlive))
  }

  ghost predicate Responded(events: seq<Event>, states: seq<State>, i: nat, id: CallId, keepAlive: bool)
    requires i <= |events| < |states|
  {
    exists j :: RespondedAt(events, states, j, i, id, keepAlive)
  }

  lemma FinishingStep(c: Config, s: State, e: Event, id: CallId, keepAlive: bool)
    requires c.maxIdlePerHost >= 1 && Enabled(s, e) && At(Apply(c, s, e), id, Finishing(keepAlive))
    ensures At(s, id, Finishing(keepAlive)) || e == Respond(id, keepAlive)
  {}

  lemma {:induction false} FinishingIsResponded(c: Config, events: seq<Event>, states: seq<State>, i: nat, id: CallId,
                                               keepAlive: bool)
    requires IsRun(c, events, states) && i <= |events| && At(states[i], id, Finishing(keepAlive))
    ensures Responded(events, states, i, id, keepAlive)
  {
    if i > 0 {
      assert IsStep(c, states[i - 1], events[i - 1], states[i]);
      FinishingStep(c, states[i - 1], events[i - 1], id, keepAlive);
      if events[i - 1] == Respond(id, keepAlive) {
        assert RespondedAt(events, states, i - 1, i, id, keepAlive);
      } else {
        FinishingIsResponded(c, events, states, i - 1, id, keepAlive);
        var j :| RespondedAt(events, states, j, i - 1, id, keepAlive);
        assert RespondedAt(events, states, j, i, id, keepAlive);
      }
    }
  }

  /** A call puts its socket back only after a response that keeps the connection alive, and closes it only after
      one that does not. */
  lemma ReturnedIffKept(c: Config, events: seq<Event>, states: seq<State>, i: nat, id: CallId)
    requires IsRun(c, events, states) && i < |events|
    ensures events[i].Return? && events[i].id == id ==> Responded(events, states, i, id, true)
    ensures events[i] == Drop(id) ==> Responded(events, states, i, id, false)
  {
    assert IsStep(c, states[i], events[i], states[i + 1]);
    if events[i].Return? && events[i].id == id { FinishingIsResponded(c, events, states, i, id, true); }
    if events[i] == Drop(id) { FinishingIsResponded(c, events, states, i, id, false); }
  }

  /** However its calls ended, the pool's destruction leaves no upstream socket open. */
  lemma NoneLeftOpen(c: Config, events: seq<Event>, states: seq<State>, i: nat)
    requires IsRun(c, events, states) && i < |events| && events[i].CloseAll?
    ensures states[i + 1].open == map[]
  {
    RunKeepsInv(c, events, states, i);
    assert IsStep(c, states[i], events[i], states[i + 1]);
    CloseAllKeepsInv(c, states[i]);
  }
}
