/** The connection pool's own code, closing sockets at the kernel. */
module PoolCode {
  import opened ConnectionPool
  import opened UpstreamSockets

  /** The kernel's table of upstream sockets; only an open descriptor may be closed. */
  class Sockets {
    ghost var open: map<Fd, Host>

    method CloseSocket(fd: Fd)
      requires fd in open
      modifies this
      ensures open == old(open) - {fd}
    {
      open := open - {fd};
    }
  }

  ghost predicate ListFine(c: Config, open: map<Fd, Host>, clock: int, idle: seq<Idle>, h: Host) {
    |idle| <= c.maxIdlePerHost && Sorted(idle) && NotAfter(idle, clock) && Distinct(idle) && Connected(open, idle, h)
  }

  ghost predicate PoolFine(c: Config, open: map<Fd, Host>, clock: int, lists: map<Host, seq<Idle>>) {
    && c.maxIdlePerHost >= 1
    && forall h {:trigger ListFine(c, open, clock, lists[h], h)} :: h in lists ==> ListFine(c, open, clock, lists[h], h)
  }

  class Pool {
    const config: Config
    const sockets: Sockets
    var idleByHost: map<Host, seq<Idle>>
    /** The last reading of the clock. */
    ghost var clock: int

    ghost predicate Valid()
      reads this, sockets
    {
      PoolFine(config, sockets.open, clock, idleByHost)
    }

    constructor (config: Config, sockets: Sockets)
      requires config.maxIdlePerHost >= 1
      ensures Valid() && idleByHost == map[] && this.config == config && this.sockets == sockets
    {
      this.config, this.sockets, idleByHost, clock := config, sockets, map[], 0;
    }

    method Lease(host: Host, healthy: Fd -> bool) returns (fd: int)
      requires Valid()
      modifies this`idleByHost, sockets
      ensures Valid()
      ensures host !in old(idleByHost) ==>
                fd == -1 && idleByHost == old(idleByHost) && sockets.open == old(sockets.open)
      ensures host in old(idleByHost) ==>
                var leased := LeaseFrom(old(idleByHost)[host], healthy);
                && fd == (if leased.fd.Some? then leased.fd.value else -1)
                && idleByHost == old(idleByHost)[host := leased.rest]
                && sockets.open == old(sockets.open) - FdSet(leased.closed)
    {
      if host !in idleByHost {
        return -1;
      }
      ghost var before := sockets.open;
      var idle := idleByHost[host];
      assert ListFine(config, before, clock, idle, host);
      var rest;
      fd, rest := TakeHealthy(idle, healthy);
      idleByHost := idleByHost[host := rest];
      assert ListFine(config, before, clock, idle, host);
      LeaseIsCut(idle, healthy);
      PoolAfterCut(config, old(idleByHost), host, before, clock, LeaseFrom(idle, healthy));
    }

    /** Pops from the back until a connection is healthy. */
    method TakeHealthy(idle: seq<Idle>, healthy: Fd -> bool) returns (fd: int, rest: seq<Idle>)
      requires Distinct(idle) && forall i :: 0 <= i < |idle| ==> idle[i].fd in sockets.open
      modifies sockets
      ensures var leased := LeaseFrom(idle, healthy);
              && fd == (if leased.fd.Some? then leased.fd.value else -1) && rest == leased.rest
              && sockets.open == old(sockets.open) - FdSet(leased.closed)
    {
      rest := idle;
      while rest != []
        invariant |rest| <= |idle| && rest == idle[..|rest|]
        invariant forall i :: 0 <= i < |rest| ==> rest[i].fd in sockets.open
        invariant var now, whole := LeaseFrom(rest, healthy), LeaseFrom(idle, healthy);
                  && whole.fd == now.fd && whole.rest == now.rest
                  && sockets.open - FdSet(now.closed) == old(sockets.open) - FdSet(whole.closed)
        decreases |rest|
      {
        var candidate := rest[|rest| - 1];
        ghost var more := LeaseFrom(rest[..|rest| - 1], healthy);
        rest := rest[..|rest| - 1];
        if healthy(candidate.fd) {
          fd := candidate.fd;
          return;
        }
        ghost var open := sockets.open;
        sockets.CloseSocket(candidate.fd);
        RemoveOneByOne(open, candidate.fd, more.closed);
      }
      fd := -1;
    }

    /** Puts a connection that is still good back, newest last; a full list loses its oldest. */
    method Release(host: Host, fd: int, now: int)
      requires Valid() && now >= clock
      requires fd >= 0 ==> fd in sockets.open && sockets.open[fd] == host && !Lists(IdleOf(idleByHost, host), fd)
      modifies this, sockets
      ensures Valid()
      ensures fd < 0 ==> idleByHost == old(idleByHost) && sockets.open == old(sockets.open)
      ensures fd >= 0 ==>
                var r := ReleaseInto(IdleOf(old(idleByHost), host), fd, now, config.maxIdlePerHost);
                && idleByHost == old(idleByHost)[host := r.idle]
                && sockets.open == old(sockets.open) - (if r.evicted.Some? then {r.evicted.value} else {})
                && TakenBack(IdleOf(old(idleByHost), host), fd, now, config.maxIdlePerHost, r.idle, r.evicted)
    {
      if fd < 0 {
        return;
      }
      ghost var before := sockets.open;
      var idle := IdleOf(idleByHost, host);
      assert host in idleByHost ==> ListFine(config, before, clock, idle, host);
      assert forall i :: 0 <= i < |idle| ==> idle[i].fd in before;
      PoolAfterRelease(config, idleByHost, host, before, clock, fd, now);
      ReleaseAtHost(config, idleByHost, host, before, clock, fd, now);
      if |idle| >= config.maxIdlePerHost {
        var oldest := MinElement(idle);
        SortedOldestIsFront(idle, oldest);
        sockets.CloseSocket(idle[oldest].fd);
        assert idle[..0] + idle[1..] == idle[1..];
        idle := idle[..oldest] + idle[oldest + 1..];
      }
      assert before - {} == before;
      idleByHost := idleByHost[host := idle + [Idle(fd, now)]];
      clock := now;
    }

    method MinElement(idle: seq<Idle>) returns (k: nat)
      requires idle != []
      ensures IsOldest(idle, k)
    {
      k := 0;
      for i := 1 to |idle|
        invariant 0 <= k < i && IsOldest(idle[..i], k)
      {
        assert idle[..i + 1] == idle[..i] + [idle[i]];
        if idle[i].lastUsed < idle[k].lastUsed {
          k := i;
        }
      }
      assert idle[..|idle|] == idle;
    }

    /** `remove_if` on one list, closing what it removes. */
    method RemoveStale(idle: seq<Idle>, now: int) returns (kept: seq<Idle>)
      requires Distinct(idle) && forall i :: 0 <= i < |idle| ==> idle[i].fd in sockets.open
      modifies sockets
      ensures kept == Kept(idle, now, config.idleTimeout)
      ensures sockets.open == old(sockets.open) - FdSet(Reaped(idle, now, config.idleTimeout))
    {
      kept := [];
      for i := 0 to |idle|
        invariant kept == Kept(idle[..i], now, config.idleTimeout)
        invariant sockets.open == old(sockets.open) - FdSet(Reaped(idle[..i], now, config.idleTimeout))
        invariant forall j :: i <= j < |idle| ==> idle[j].fd in sockets.open
      {
        assert idle[..i + 1][..i] == idle[..i];
        if Stale(idle[i], now, config.idleTimeout) {
          sockets.CloseSocket(idle[i].fd);
          CloseOneMore(old(sockets.open), Reaped(idle[..i], now, config.idleTimeout), idle[i].fd);
        } else {
          kept := kept + [idle[i]];
        }
      }
      assert idle[..|idle|] == idle;
    }

    method ReapStale(now: int)
      requires Valid() && now >= clock
      modifies this, sockets
      ensures Valid()
      ensures idleByHost == KeptLists(old(idleByHost), now, config.idleTimeout)
      ensures Gone(StaleSets(old(idleByHost), now, config.idleTimeout), {}, old(sockets.open), sockets.open)
    {
      ReapEveryHost(now, KeptLists(idleByHost, now, config.idleTimeout),
                    StaleSets(idleByHost, now, config.idleTimeout));
      PoolAfterReap(config, old(sockets.open), old(clock), old(idleByHost), now, sockets.open);
      clock := now;
    }

    method ReapEveryHost(now: int, ghost kept: map<Host, seq<Idle>>, ghost stale: map<Host, set<Fd>>)
      requires Valid()
      requires ReapTargets(idleByHost, now, config.idleTimeout, kept, stale)
      modifies this`idleByHost, sockets
      ensures idleByHost == kept && Gone(stale, {}, old(sockets.open), sockets.open)
    {
      ghost var lists, before := idleByHost, sockets.open;
      var hosts := idleByHost.Keys;
      while hosts != {}
        invariant hosts <= lists.Keys
        invariant Replaced(lists, kept, hosts, idleByHost)
        invariant Gone(stale, hosts, before, sockets.open)
        decreases |hosts|
      {
        var host :| host in hosts;
        ReapHost(host, now, lists, before, kept, stale, hosts);
        hosts := hosts - {host};
      }
      AllVisited(lists, kept, idleByHost);
    }

    /** One host's turn, when those in `todo` have not had theirs. */
    method ReapHost(host: Host, now: int, ghost lists: map<Host, seq<Idle>>, ghost before: map<Fd, Host>,
                    ghost kept: map<Host, seq<Idle>>, ghost stale: map<Host, set<Fd>>, ghost todo: set<Host>)
      requires PoolFine(config, before, clock, lists) && host in lists && host in todo
      requires ReapTargets(lists, now, config.idleTimeout, kept, stale)
      requires Replaced(lists, kept, todo, idleByHost) && Gone(stale, todo, before, sockets.open)
      modifies this`idleByHost, sockets
      ensures Replaced(lists, kept, todo - {host}, idleByHost) && Gone(stale, todo - {host}, before, sockets.open)
    {
      AtHost(config, before, clock, lists, host, now);
      Visit(lists, kept, stale, todo, idleByHost, before, sockets.open, host);
      var left := RemoveStale(idleByHost[host], now);
      idleByHost := idleByHost[host := left];
    }

    method CloseAll()
      requires Valid()
      modifies this`idleByHost, sockets
      ensures Valid() && idleByHost == (map h | h in old(idleByHost) :: [])
      ensures Gone(map h | h in old(idleByHost) :: FdSet(Fds(old(idleByHost)[h])), {}, old(sockets.open), sockets.open)
    {
      ghost var lists, before := idleByHost, sockets.open;
      ghost var none: map<Host, seq<Idle>> := map h | h in lists :: [];
      ghost var all := map h | h in lists :: FdSet(Fds(lists[h]));
      var hosts := idleByHost.Keys;
      while hosts != {}
        invariant hosts <= lists.Keys
        invariant Replaced(lists, none, hosts, idleByHost)
        invariant Gone(all, hosts, before, sockets.open)
        decreases |hosts|
      {
        var host :| host in hosts;
        CloseHost(host, lists, before, none, all, hosts);
        hosts := hosts - {host};
      }
      AllVisited(lists, none, idleByHost);
    }

    method CloseHost(host: Host, ghost lists: map<Host, seq<Idle>>, ghost before: map<Fd, Host>,
                     ghost none: map<Host, seq<Idle>>, ghost all: map<Host, set<Fd>>, ghost todo: set<Host>)
      requires PoolFine(config, before, clock, lists) && host in lists && host in todo
      requires none.Keys == lists.Keys && none[host] == []
      requires all.Keys == lists.Keys && all[host] == FdSet(Fds(lists[host]))
      requires Replaced(lists, none, todo, idleByHost) && Gone(all, todo, before, sockets.open)
      modifies this`idleByHost, sockets
      ensures Replaced(lists, none, todo - {host}, idleByHost) && Gone(all, todo - {host}, before, sockets.open)
    {
      AtHost(config, before, clock, lists, host, 0);
      Visit(lists, none, all, todo, idleByHost, before, sockets.open, host);
      CloseList(idleByHost[host]);
      idleByHost := idleByHost[host := []];
    }

    method CloseList(idle: seq<Idle>)
      requires Distinct(idle) && forall i :: 0 <= i < |idle| ==> idle[i].fd in sockets.open
      modifies sockets
      ensures sockets.open == old(sockets.open) - FdSet(Fds(idle))
    {
      for i := 0 to |idle|
        invariant sockets.open == old(sockets.open) - FdSet(Fds(idle[..i]))
        invariant forall j :: i <= j < |idle| ==> idle[j].fd in sockets.open
      {
        assert Fds(idle[..i + 1]) == Fds(idle[..i]) + [idle[i].fd];
        sockets.CloseSocket(idle[i].fd);
        CloseOneMore(old(sockets.open), Fds(idle[..i]), idle[i].fd);
      }
      assert idle[..|idle|] == idle;
    }
  }

  ghost function FdSet(fds: seq<Fd>): set<Fd> {
    set fd | fd in fds
  }

  lemma RemoveOneByOne(open: map<Fd, Host>, fd: Fd, more: seq<Fd>)
    ensures open - {fd} - FdSet(more) == open - FdSet([fd] + more)
  {
    assert FdSet([fd] + more) == {fd} + FdSet(more);
  }

  /** The lists stay in order when the end of one is cut off and closed. */
  lemma PoolAfterCut(c: Config, lists: map<Host, seq<Idle>>, host: Host, open: map<Fd, Host>, clock: int,
                     leased: Leased)
    requires PoolFine(c, open, clock, lists) && host in lists
    requires CutTo(lists[host], leased.rest, leased.fd, FdSet(leased.closed))
    ensures PoolFine(c, open - FdSet(leased.closed), clock, lists[host := leased.rest])
  {
    var closed, after := FdSet(leased.closed), lists[host := leased.rest];
    assert ListFine(c, open, clock, lists[host], host);
    forall fd | fd in closed ensures Lists(lists[host], fd) {}
    forall h | h in after ensures ListFine(c, open - closed, clock, after[h], h) {
      assert ListFine(c, open, clock, lists[h], h);
      forall i | 0 <= i < |after[h]| ensures after[h][i].fd !in closed {
        if h == host { assert Lists(leased.rest, after[h][i].fd); }
      }
    }
  }

  lemma PoolAfterRelease(c: Config, lists: map<Host, seq<Idle>>, host: Host, open: map<Fd, Host>, clock: int, fd: Fd,
                         now: int)
    requires PoolFine(c, open, clock, lists) && now >= clock
    requires fd in open && open[fd] == host && !Lists(IdleOf(lists, host), fd)
    ensures var r := ReleaseInto(IdleOf(lists, host), fd, now, c.maxIdlePerHost);
            PoolFine(c, open - (if r.evicted.Some? then {r.evicted.value} else {}), now, lists[host := r.idle])
  {
    var idle := IdleOf(lists, host);
    if host in lists { assert ListFine(c, open, clock, idle, host); }
    ReleasedListOk(c, open, idle, host, fd, clock, now);
    var r := ReleaseInto(idle, fd, now, c.maxIdlePerHost);
    var evicted := if r.evicted.Some? then {r.evicted.value} else {};
    forall h | h in lists && h != host ensures ListFine(c, open - evicted, now, lists[h], h) {
      assert ListFine(c, open, clock, lists[h], h);
    }
  }

  lemma ReleaseAtHost(c: Config, lists: map<Host, seq<Idle>>, host: Host, open: map<Fd, Host>, clock: int, fd: Fd,
                      now: int)
    requires PoolFine(c, open, clock, lists)
    ensures var idle := IdleOf(lists, host); var r := ReleaseInto(idle, fd, now, c.maxIdlePerHost);
            TakenBack(idle, fd, now, c.maxIdlePerHost, r.idle, r.evicted)
  {
    var idle := IdleOf(lists, host);
    if host in lists { assert ListFine(c, open, clock, idle, host); }
    ReleaseTakesBack(idle, fd, now, c.maxIdlePerHost);
  }

  lemma CloseOneMore(open: map<Fd, Host>, done: seq<Fd>, fd: Fd)
    ensures open - FdSet(done) - {fd} == open - FdSet(done + [fd])
  {
    assert FdSet(done + [fd]) == FdSet(done) + {fd};
  }

  ghost function KeptLists(lists: map<Host, seq<Idle>>, now: int, timeout: int): map<Host, seq<Idle>> {
    map h | h in lists :: Kept(lists[h], now, timeout)
  }

  ghost function StaleSets(lists: map<Host, seq<Idle>>, now: int, timeout: int): map<Host, set<Fd>> {
    map h | h in lists :: FdSet(Reaped(lists[h], now, timeout))
  }

  ghost predicate ReapTargets(lists: map<Host, seq<Idle>>, now: int, timeout: int, kept: map<Host, seq<Idle>>,
                              stale: map<Host, set<Fd>>)
  {
    && kept.Keys == stale.Keys == lists.Keys
    && forall h :: h in lists ==> ReapTarget(lists[h], now, timeout, kept[h], stale[h])
  }

  ghost predicate ReapTarget(idle: seq<Idle>, now: int, timeout: int, kept: seq<Idle>, stale: set<Fd>) {
    kept == Kept(idle, now, timeout) && stale == FdSet(Reaped(idle, now, timeout))
  }

  /** The lists when all hosts but those in `todo` have been visited and have their new ones. */
  ghost predicate Replaced(lists: map<Host, seq<Idle>>, news: map<Host, seq<Idle>>, todo: set<Host>,
                           next: map<Host, seq<Idle>>)
  {
    && next.Keys == lists.Keys == news.Keys
    && forall h :: h in lists ==> next[h] == if h in todo then lists[h] else news[h]
  }

  /** What is still open then: all but what goes with those hosts. */
  ghost predicate Gone(gone: map<Host, set<Fd>>, todo: set<Host>, before: map<Fd, Host>, open: map<Fd, Host>) {
    && (forall fd :: fd in open ==> fd in before && open[fd] == before[fd])
    && (forall fd :: fd in before ==>
          (fd in open <==> !(before[fd] !in todo && before[fd] in gone && fd in gone[before[fd]])))
  }

  lemma Visit(lists: map<Host, seq<Idle>>, news: map<Host, seq<Idle>>, gone: map<Host, set<Fd>>, todo: set<Host>,
              now: map<Host, seq<Idle>>, before: map<Fd, Host>, open: map<Fd, Host>, host: Host)
    requires host in lists && Replaced(lists, news, todo, now)
    requires host in gone && Gone(gone, todo, before, open)
    requires forall fd :: fd in gone[host] ==> fd in before && before[fd] == host
    ensures Replaced(lists, news, todo - {host}, now[host := news[host]])
    ensures Gone(gone, todo - {host}, before, open - gone[host])
  {}

  lemma AllVisited(lists: map<Host, seq<Idle>>, news: map<Host, seq<Idle>>, next: map<Host, seq<Idle>>)
    requires Replaced(lists, news, {}, next)
    ensures next == news
  {}

  lemma {:induction false} ReapedAreListed(idle: seq<Idle>, now: int, timeout: int, fd: Fd)
    ensures fd in Reaped(idle, now, timeout) ==> Lists(idle, fd)
    decreases |idle|
  {
    if idle != [] {
      var n := |idle| - 1;
      ReapedAreListed(idle[..n], now, timeout, fd);
      if i :| 0 <= i < n && idle[..n][i].fd == fd { assert idle[i].fd == fd; }
    }
  }

  /** What is idle or reaped at a host is connected to it. */
  lemma AtHost(c: Config, open: map<Fd, Host>, clock: int, lists: map<Host, seq<Idle>>, host: Host, now: int)
    requires PoolFine(c, open, clock, lists) && host in lists
    ensures Distinct(lists[host])
    ensures forall i :: 0 <= i < |lists[host]| ==> lists[host][i].fd in open && open[lists[host][i].fd] == host
    ensures forall fd :: fd in Fds(lists[host]) ==> fd in open && open[fd] == host
    ensures forall fd :: fd in Reaped(lists[host], now, c.idleTimeout) ==> fd in open && open[fd] == host
  {
    assert ListFine(c, open, clock, lists[host], host);
    forall fd | fd in Reaped(lists[host], now, c.idleTimeout) ensures fd in open && open[fd] == host {
      ReapedAreListed(lists[host], now, c.idleTimeout, fd);
    }
  }

  lemma PoolAfterReap(c: Config, before: map<Fd, Host>, clock: int, lists: map<Host, seq<Idle>>, now: int,
                      open: map<Fd, Host>)
    requires PoolFine(c, before, clock, lists) && now >= clock
    requires Gone(StaleSets(lists, now, c.idleTimeout), {}, before, open)
    ensures PoolFine(c, open, now, KeptLists(lists, now, c.idleTimeout))
  {
    forall h | h in lists ensures ListFine(c, open, now, Kept(lists[h], now, c.idleTimeout), h) {
      assert ListFine(c, before, clock, lists[h], h);
      HostAfterReap(c, before, clock, lists[h], h, now, open);
    }
  }

  lemma HostAfterReap(c: Config, before: map<Fd, Host>, clock: int, idle: seq<Idle>, h: Host, now: int,
                      open: map<Fd, Host>)
    requires ListFine(c, before, clock, idle, h) && now >= clock
    requires forall fd :: fd in before && before[fd] == h && fd !in FdSet(Reaped(idle, now, c.idleTimeout)) ==>
                            fd in open && open[fd] == h
    ensures ListFine(c, open, now, Kept(idle, now, c.idleTimeout), h)
  {
    var k := ReapCutsPrefix(idle, now, c.idleTimeout);
    forall i | k <= i < |idle| ensures idle[i].fd in open && open[idle[i].fd] == h {
      assert before[idle[i].fd] == h && idle[i].fd !in Fds(idle[..k]);
    }
  }
}
