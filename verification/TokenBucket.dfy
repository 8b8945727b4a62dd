/** The token bucket's own loops, run by one thread while the others pause.  Each atomic operation is
    one step of the machine in RateLimiter; `compare_exchange_weak` may fail for no reason. */
module TokenBucket {
  import opened Wrappers
  import opened RateLimiter

  /** The bucket after one `refill` that reads `now`. */
  datatype Bucket = Bucket(tokens: nat, stamp: int)

  function Refill(c: Config, b: Bucket, now: int): Bucket {
    if c.rate == 0 || now <= b.stamp then b
    else
      var added := TokensToAdd(c.rate, now - b.stamp);
      if added == 0 then b else Bucket(Capped(c.capacity, b.tokens, added), b.stamp + NsConsumed(c.rate, added))
  }

  /** What the time since the stamp is worth in whole tokens. */
  function Due(c: Config, stamp: int, now: int): nat {
    if now <= stamp then 0 else (now - stamp) * c.rate / NANOS_PER_SECOND
  }

  /** Neither the product nor the new level overflows a word. */
  ghost predicate InWord(c: Config, tokens: nat, stamp: int, now: int) {
    (now > stamp ==> (now - stamp) * c.rate < WORD) && tokens + Due(c, stamp, now) < WORD
  }

  /** The bucket has gained `due` tokens, up to the capacity, and its stamp has moved by the time they take. */
  ghost predicate AddsDue(c: Config, before: Bucket, after: Bucket, due: nat) {
    && after.tokens == (if before.tokens + due < c.capacity then before.tokens + due else c.capacity)
    && (due == 0 ==> after.stamp == before.stamp)
    && (due > 0 ==> c.rate > 0 && after.stamp == before.stamp + due * NANOS_PER_SECOND / c.rate)
  }

  /** While nothing overflows a refill adds what the time is worth. */
  lemma RefillAddsDue(c: Config, b: Bucket, now: int)
    requires b.tokens <= c.capacity && InWord(c, b.tokens, b.stamp, now)
    ensures AddsDue(c, b, Refill(c, b, now), Due(c, b.stamp, now))
  {
    if c.rate > 0 && now > b.stamp {
      DueCredited(c, b.stamp, now);
      Fits(b.tokens + Due(c, b.stamp, now));
    }
  }

  /** From the time since its stamp, as long as nothing overflows, the bucket has gained what that is worth. */
  ghost predicate GainsDue(c: Config, before: Bucket, after: Bucket, now: int) {
    InWord(c, before.tokens, before.stamp, now) ==> AddsDue(c, before, after, Due(c, before.stamp, now))
  }

  lemma RefillGainsDue(c: Config, s: State, now: int)
    requires Reachable(c, s)
    ensures GainsDue(c, Bucket(s.tokens, s.stamp), Refill(c, Bucket(s.tokens, s.stamp), now), now)
  {
    Conservation(c, s);
    if InWord(c, s.tokens, s.stamp, now) { RefillAddsDue(c, Bucket(s.tokens, s.stamp), now); }
  }

  lemma DueCredited(c: Config, stamp: int, now: int)
    requires c.rate > 0 && now > stamp && (now - stamp) * c.rate < WORD
    ensures var due := Due(c, stamp, now);
            TokensToAdd(c.rate, now - stamp) == due && NsConsumed(c.rate, due) == due * NANOS_PER_SECOND / c.rate
  {
    MulCommutes(now - stamp, c.rate);
    TokensWorth(c.rate, now - stamp);
    TimeOfTokens(c.rate, Due(c, stamp, now));
  }

  /** The thread is about to exchange these values of the tokens. */
  predicate Asks(c: Config, pc: Pc, expected: nat, desired: nat) {
    match pc
    case TryCredit(_, _, added, current) => current == expected && desired == Capped(c.capacity, expected, added)
    case TrySpend(cost, _, current) => current == expected && cost <= expected && desired == expected - cost
    case _ => false
  }

  class Limiter {
    const c: Config
    var tokens: nat
    var lastRefillTimeNs: int
    ghost const me: nat
    ghost var s: State

    ghost predicate Valid()
      reads this
    {
      && Reachable(c, s) && me < |s.pcs| && tokens == s.tokens && lastRefillTimeNs == s.stamp
      && s.stamp in s.stamps && s.tokens in s.levels
    }

    constructor (c: Config, now: int, ghost threads: nat, ghost me: nat)
      requires me < threads
      ensures Valid() && s == Init(c, now, threads) && this.c == c && this.me == me
    {
      this.c, tokens, lastRefillTimeNs := c, c.capacity, now;
      this.me, s := me, Init(c, now, threads);
      new;
      assert Run(c, Init(c, now, threads), []) == Some(s);
    }

    /** The machine's next step of this thread, with loads that see the latest values. */
    ghost function Mine(spurious: bool): Event
      reads this
    {
      Step(me, s.stamp, s.tokens, spurious)
    }

    /** A load, or a failed compare-exchange, which loads as well. */
    ghost method Load(spurious: bool)
      requires Valid() && Enabled(c, s, Mine(spurious))
      requires Apply(c, s, Mine(spurious)).tokens == tokens && Apply(c, s, Mine(spurious)).stamp == lastRefillTimeNs
      requires Apply(c, s, Mine(spurious)).stamps == s.stamps && Apply(c, s, Mine(spurious)).levels == s.levels
      modifies this`s
      ensures Valid() && s == Apply(c, old(s), old(Mine(spurious)))
    {
      ReachStep(c, s, Mine(spurious));
      s := Apply(c, s, Mine(spurious));
    }

    method ExchangeStamp(expected: int, desired: int, spurious: bool) returns (ok: bool)
      requires Valid() && c.rate > 0 && s.pcs[me].TryStamp? && s.pcs[me].previous == expected
      requires s.pcs[me].now > expected && TokensToAdd(c.rate, s.pcs[me].now - expected) > 0
      requires desired == expected + NsConsumed(c.rate, TokensToAdd(c.rate, s.pcs[me].now - expected))
      modifies this`lastRefillTimeNs, this`s
      ensures Valid() && ok == (old(lastRefillTimeNs) == expected && !spurious)
      ensures s == Apply(c, old(s), old(Mine(spurious)))
      ensures lastRefillTimeNs == if ok then desired else old(lastRefillTimeNs)
    {
      ReachStep(c, s, Mine(spurious));
      s := Apply(c, s, Mine(spurious));
      ok := lastRefillTimeNs == expected && !spurious;
      if ok {
        lastRefillTimeNs := desired;
      }
    }

    method ExchangeTokens(expected: nat, desired: nat, spurious: bool) returns (ok: bool)
      requires Valid()
      requires Asks(c, s.pcs[me], expected, desired)
      modifies this`tokens, this`s
      ensures Valid() && ok == (old(tokens) == expected && !spurious)
      ensures s == Apply(c, old(s), old(Mine(spurious)))
      ensures tokens == if ok then desired else old(tokens)
    {
      ReachStep(c, s, Mine(spurious));
      s := Apply(c, s, Mine(spurious));
      ok := tokens == expected && !spurious;
      if ok {
        tokens := desired;
      }
    }

    /** `failures` says which of the compare-exchanges fail spuriously, as long as it lasts. */
    method DoRefill(now: int, failures: seq<bool>)
      requires Valid() && (if c.rate == 0 then s.pcs[me].LoadForSpend? else s.pcs[me].LoadStamp?)
      requires s.pcs[me].now == now
      modifies this
      ensures Valid() && s.pcs[me] == LoadForSpend(old(s.pcs[me]).cost, now)
      ensures Bucket(tokens, lastRefillTimeNs) == Refill(c, old(Bucket(tokens, lastRefillTimeNs)), now)
      ensures GainsDue(c, old(Bucket(tokens, lastRefillTimeNs)), Bucket(tokens, lastRefillTimeNs), now)
      ensures s.granted == old(s.granted) && s.clock == old(s.clock) && s.start == old(s.start)
    {
      RefillGainsDue(c, s, now);
      if c.rate == 0 {
        return;
      }
      ghost var cost := s.pcs[me].cost;
      var previous := lastRefillTimeNs;
      Load(false);
      var k := 0;
      while true
        invariant 0 <= k <= |failures| && Valid() && s.pcs[me] == TryStamp(cost, now, previous)
        invariant previous == lastRefillTimeNs == old(lastRefillTimeNs) && tokens == old(tokens)
        invariant s.granted == old(s.granted) && s.clock == old(s.clock) && s.start == old(s.start)
        decreases |failures| - k
      {
        var elapsed := now - previous;
        if elapsed <= 0 {
          Load(false);
          return;
        }
        var tokensToAdd := TokensToAdd(c.rate, elapsed);
        if tokensToAdd == 0 {
          Load(false);
          return;
        }
        var spurious := k < |failures| && failures[k];
        var ok := ExchangeStamp(previous, previous + NsConsumed(c.rate, tokensToAdd), spurious);
        if ok {
          AddCredit(tokensToAdd, failures[k..]);
          return;
        }
        previous := lastRefillTimeNs;
        k := k + 1;
      }
    }

    method AddCredit(tokensToAdd: nat, failures: seq<bool>)
      requires Valid() && s.pcs[me].LoadForCredit? && s.pcs[me].added == tokensToAdd
      modifies this`tokens, this`s
      ensures Valid() && s.pcs[me] == LoadForSpend(old(s.pcs[me]).cost, old(s.pcs[me]).now)
      ensures tokens == Capped(c.capacity, old(tokens), tokensToAdd)
      ensures s.granted == old(s.granted) && s.clock == old(s.clock) && s.start == old(s.start)
    {
      ghost var cost, now := s.pcs[me].cost, s.pcs[me].now;
      var current: nat := tokens;
      Load(false);
      var k := 0;
      while true
        invariant 0 <= k <= |failures| && Valid() && s.pcs[me] == TryCredit(cost, now, tokensToAdd, current)
        invariant current == tokens == old(tokens)
        invariant s.granted == old(s.granted) && s.clock == old(s.clock) && s.start == old(s.start)
        decreases |failures| - k
      {
        var ok := ExchangeTokens(current, Capped(c.capacity, current, tokensToAdd), k < |failures| && failures[k]);
        if ok {
          return;
        }
        current := tokens;
        k := k + 1;
      }
    }

    /** `now` is the reading of the clock.  Grants exactly when the refilled bucket holds the cost,
        and then takes exactly that. */
    method TryAcquire(cost: nat, now: int, refillFailures: seq<bool>, spendFailures: seq<bool>) returns (granted: bool)
      requires Valid() && s.pcs[me].Idle? && now == s.clock
      modifies this
      ensures Valid() && s.pcs[me].Idle? && s.clock == old(s.clock) && s.start == old(s.start)
      ensures cost == 0 ==> granted && tokens == old(tokens) && lastRefillTimeNs == old(lastRefillTimeNs)
      ensures cost > 0 ==>
                var level := tokens + if granted then cost else 0;
                && granted == (cost <= level)
                && GainsDue(c, old(Bucket(tokens, lastRefillTimeNs)), Bucket(level, lastRefillTimeNs), now)
      ensures cost > 0 ==>
                var b := Refill(c, old(Bucket(tokens, lastRefillTimeNs)), now);
                && granted == (cost <= b.tokens)
                && lastRefillTimeNs == b.stamp && tokens == b.tokens - (if granted then cost else 0)
      ensures s.granted == old(s.granted) + if granted then cost else 0
    {
      if cost == 0 {
        return true;
      }
      ghost var e := Call(me, cost);
      ReachStep(c, s, e);
      s := Apply(c, s, e);
      DoRefill(now, refillFailures);
      granted := Spend(cost, spendFailures);
    }

    method Spend(cost: nat, failures: seq<bool>) returns (granted: bool)
      requires Valid() && s.pcs[me].LoadForSpend? && s.pcs[me].cost == cost
      modifies this`tokens, this`s
      ensures Valid() && s.pcs[me].Idle? && s.clock == old(s.clock) && s.start == old(s.start)
      ensures granted == (cost <= old(tokens)) && tokens == old(tokens) - (if granted then cost else 0)
      ensures s.granted == old(s.granted) + if granted then cost else 0
    {
      ghost var now := s.pcs[me].now;
      var current: nat := tokens;
      Load(false);
      var k := 0;
      while true
        invariant 0 <= k <= |failures| && Valid() && s.pcs[me] == TrySpend(cost, now, current)
        invariant current == tokens == old(tokens)
        invariant s.granted == old(s.granted) && s.clock == old(s.clock) && s.start == old(s.start)
        decreases |failures| - k
      {
        if current < cost {
          Load(false);
          return false;
        }
        var ok := ExchangeTokens(current, current - cost, k < |failures| && failures[k]);
        if ok {
          return true;
        }
        current := tokens;
        k := k + 1;
      }
    }
  }
}
