/** The pool of idle upstream connections: what its operations do to the list of one host. */
module ConnectionPool {
  import opened Wrappers

  type Fd = nat

  datatype Idle = Idle(fd: Fd, lastUsed: int)

  function Fds(idle: seq<Idle>): (fds: seq<Fd>)
    ensures |fds| == |idle| && forall i :: 0 <= i < |idle| ==> fds[i] == idle[i].fd
  {
    seq(|idle|, i requires 0 <= i < |idle| => idle[i].fd)
  }

  /** Oldest first. */
  ghost predicate Sorted(idle: seq<Idle>) {
    forall i, j :: 0 <= i <= j < |idle| ==> idle[i].lastUsed <= idle[j].lastUsed
  }

  ghost predicate NotAfter(idle: seq<Idle>, now: int) {
    forall i :: 0 <= i < |idle| ==> idle[i].lastUsed <= now
  }

  // ---------------------------------------------------------------- lease

  /** `closed` lists the descriptors closed, in that order. */
  datatype Leased = Leased(fd: Option<Fd>, rest: seq<Idle>, closed: seq<Fd>)

  function LeaseFrom(idle: seq<Idle>, healthy: Fd -> bool): Leased {
    if idle == [] then Leased(None, [], [])
    else
      var n := |idle| - 1;
      if healthy(idle[n].fd) then Leased(Some(idle[n].fd), idle[..n], [])
      else
        var more := LeaseFrom(idle[..n], healthy);
        Leased(more.fd, more.rest, [idle[n].fd] + more.closed)
  }

  /** The newest healthy connection at index `k`, or -1. */
  ghost predicate NewestHealthy(idle: seq<Idle>, healthy: Fd -> bool, k: int) {
    && -1 <= k < |idle| && (k >= 0 ==> healthy(idle[k].fd))
    && forall i :: k < i < |idle| ==> !healthy(idle[i].fd)
  }

  /** A lease hands out the newest healthy connection, closes exactly the newer ones, newest first,
      and keeps the older ones; without a healthy one all are closed. */
  lemma {:induction false} LeaseTakesNewestHealthy(idle: seq<Idle>, healthy: Fd -> bool, k: int)
    requires NewestHealthy(idle, healthy, k)
    ensures var leased := LeaseFrom(idle, healthy);
            && leased.fd == (if k < 0 then None else Some(idle[k].fd))
            && leased.rest == (if k < 0 then [] else idle[..k])
            && |leased.closed| == |idle| - 1 - k
            && forall i :: 0 <= i < |leased.closed| ==> leased.closed[i] == idle[|idle| - 1 - i].fd
  {
    var n := |idle| - 1;
    if idle != [] && k < n {
      LeaseTakesNewestHealthy(idle[..n], healthy, k);
      if k >= 0 { assert idle[..n][..k] == idle[..k]; }
    }
  }

  lemma {:induction false} SomeNewestHealthy(idle: seq<Idle>, healthy: Fd -> bool) returns (k: int)
    ensures NewestHealthy(idle, healthy, k)
  {
    k := |idle| - 1;
    while k >= 0 && !healthy(idle[k].fd)
      invariant -1 <= k < |idle| && forall i :: k < i < |idle| ==> !healthy(idle[i].fd)
    {
      k := k - 1;
    }
  }

  // ---------------------------------------------------------------- release

  /** `std::min_element` by last use: the first of the oldest. */
  ghost predicate IsOldest(idle: seq<Idle>, k: int) {
    && 0 <= k < |idle|
    && (forall i :: 0 <= i < |idle| ==> idle[k].lastUsed <= idle[i].lastUsed)
    && (forall i :: 0 <= i < k ==> idle[k].lastUsed < idle[i].lastUsed)
  }

  lemma SortedOldestIsFront(idle: seq<Idle>, k: int)
    requires Sorted(idle) && IsOldest(idle, k)
    ensures k == 0
  {
    assert idle[0].lastUsed <= idle[k].lastUsed;
  }

  datatype Released = Released(idle: seq<Idle>, evicted: Option<Fd>)

  /** What a release does to a sorted list. */
  function ReleaseInto(idle: seq<Idle>, fd: Fd, now: int, max: nat): Released
    requires max >= 1
  {
    if |idle| >= max then Released(idle[1..] + [Idle(fd, now)], Some(idle[0].fd))
    else Released(idle + [Idle(fd, now)], None)
  }

  /** The list after a release, which has the new connection last.  With room for it nothing is closed and all
      earlier connections stay in order; from a full list one that was used longest ago goes. */
  ghost predicate TakenBack(idle: seq<Idle>, fd: Fd, now: int, max: nat, after: seq<Idle>, evicted: Option<Fd>) {
    if |idle| < max then after == idle + [Idle(fd, now)] && evicted == None
    else exists k :: GoesAt(idle, k, fd, now, after, evicted)
  }

  ghost predicate GoesAt(idle: seq<Idle>, k: int, fd: Fd, now: int, after: seq<Idle>, evicted: Option<Fd>) {
    && IsOldest(idle, k) && evicted == Some(idle[k].fd)
    && after == idle[..k] + idle[k + 1..] + [Idle(fd, now)]
  }

  lemma ReleaseTakesBack(idle: seq<Idle>, fd: Fd, now: int, max: nat)
    requires Sorted(idle) && max >= 1
    ensures var r := ReleaseInto(idle, fd, now, max); TakenBack(idle, fd, now, max, r.idle, r.evicted)
  {
    if |idle| >= max { FrontGoes(idle, fd, now, ReleaseInto(idle, fd, now, max)); }
  }

  lemma FrontGoes(idle: seq<Idle>, fd: Fd, now: int, r: Released)
    requires Sorted(idle) && idle != [] && r == Released(idle[1..] + [Idle(fd, now)], Some(idle[0].fd))
    ensures GoesAt(idle, 0, fd, now, r.idle, r.evicted)
  {
    assert idle[..0] + idle[1..] == idle[1..];
  }

  // ---------------------------------------------------------------- reaping

  predicate Stale(c: Idle, now: int, timeout: int) {
    now - c.lastUsed > timeout
  }

  /** What `remove_if` leaves and what it closes on the way, in order. */
  function Kept(idle: seq<Idle>, now: int, timeout: int): seq<Idle> {
    if idle == [] then []
    else
      var last := idle[|idle| - 1];
      Kept(idle[..|idle| - 1], now, timeout) + if Stale(last, now, timeout) then [] else [last]
  }

  function Reaped(idle: seq<Idle>, now: int, timeout: int): seq<Fd> {
    if idle == [] then []
    else
      var last := idle[|idle| - 1];
      Reaped(idle[..|idle| - 1], now, timeout) + if Stale(last, now, timeout) then [last.fd] else []
  }

  /** Exactly the first `k` connections are stale. */
  ghost predicate CutAt(idle: seq<Idle>, now: int, timeout: int, k: nat) {
    k <= |idle| && forall i :: 0 <= i < |idle| ==> (Stale(idle[i], now, timeout) <==> i < k)
  }

  lemma SomeCut(idle: seq<Idle>, now: int, timeout: int) returns (k: nat)
    requires Sorted(idle)
    ensures CutAt(idle, now, timeout, k)
  {
    k := 0;
    while k < |idle| && Stale(idle[k], now, timeout)
      invariant 0 <= k <= |idle| && forall i :: 0 <= i < k ==> Stale(idle[i], now, timeout)
    {
      k := k + 1;
    }
  }

  lemma CutOfFront(idle: seq<Idle>, now: int, timeout: int, k: nat)
    requires CutAt(idle, now, timeout, k) && idle != []
    ensures var n := |idle| - 1; CutAt(idle[..n], now, timeout, if k <= n then k else n)
  {}

  lemma SuffixSnoc(idle: seq<Idle>, k: nat)
    requires k < |idle|
    ensures idle[k..] == idle[..|idle| - 1][k..] + [idle[|idle| - 1]]
  {}

  lemma {:induction false} KeptIsSuffix(idle: seq<Idle>, now: int, timeout: int, k: nat)
    requires CutAt(idle, now, timeout, k)
    ensures Kept(idle, now, timeout) == idle[k..]
  {
    if idle != [] {
      var n := |idle| - 1;
      CutOfFront(idle, now, timeout, k);
      KeptIsSuffix(idle[..n], now, timeout, if k <= n then k else n);
      if k <= n { SuffixSnoc(idle, k); }
    }
  }

  lemma {:induction false} ReapedIsPrefix(idle: seq<Idle>, now: int, timeout: int, k: nat)
    requires CutAt(idle, now, timeout, k)
    ensures Reaped(idle, now, timeout) == Fds(idle[..k])
  {
    if idle != [] {
      var n := |idle| - 1;
      CutOfFront(idle, now, timeout, k);
      ReapedIsPrefix(idle[..n], now, timeout, if k <= n then k else n);
      if k <= n {
        assert idle[..n][..k] == idle[..k];
      } else {
        assert idle[..n][..n] == idle[..n] && Fds(idle[..k]) == Fds(idle[..n]) + [idle[n].fd];
      }
    }
  }

  /** In a sorted list the stale connections are the first `k`; reaping cuts that prefix off. */
  lemma ReapCutsPrefix(idle: seq<Idle>, now: int, timeout: int) returns (k: nat)
    requires Sorted(idle)
    ensures k <= |idle| && Kept(idle, now, timeout) == idle[k..] && Reaped(idle, now, timeout) == Fds(idle[..k])
    ensures forall i :: 0 <= i < |idle| ==> (now - idle[i].lastUsed > timeout <==> i < k)
  {
    k := SomeCut(idle, now, timeout);
    KeptIsSuffix(idle, now, timeout, k);
    ReapedIsPrefix(idle, now, timeout, k);
  }
}
