/** The lock-free token bucket of RateLimiter.cpp.

    Any number of threads run `tryAcquire` against two separate atomics, `tokens_` and
    `lastRefillTimeNs_`.  The model is a transition system with one step per atomic operation:
    a plain load may return any value the atomic ever held, and `compare_exchange_weak` may fail
    although the values agree.  The ghost counters of a state (granted, credited, discarded)
    are not read by any step.

    The arithmetic is that of the 64-bit words of the source, reduced modulo 2^64.  Safety does not
    depend on it; `NoWrap` says of a step that the time it is about to credit fits into a word. */
module RateLimiter {
  import opened Wrappers

  const NANOS_PER_SECOND := 1_000_000_000
  const WORD := 0x1_0000_0000_0000_0000

  datatype Config = Config(capacity: nat, rate: nat)

  /** Both settings are 64-bit words. */
  ghost predicate ValidConfig(c: Config) {
    c.capacity < WORD && c.rate < WORD
  }

  /** The rates at which refills round nothing away: those that divide a second, and whole
      multiples of a token per nanosecond. */
  ghost predicate ExactRate(rate: nat)
    requires rate > 0
  {
    NANOS_PER_SECOND % rate == 0 || rate % NANOS_PER_SECOND == 0
  }

  function TokensToAdd(rate: nat, elapsed: nat): nat {
    ((elapsed * rate) % WORD) / NANOS_PER_SECOND
  }

  function NsConsumed(rate: nat, tokens: nat): nat
    requires rate > 0
  {
    ((tokens * NANOS_PER_SECOND) % WORD) / rate
  }

  function Capped(capacity: nat, current: nat, added: nat): nat {
    if (current + added) % WORD > capacity then capacity else (current + added) % WORD
  }

  /** Where a thread stands inside `tryAcquire(cost)`; `now` is its reading of the clock. */
  datatype Pc =
    | Idle
    | LoadStamp(cost: nat, now: int)
    | TryStamp(cost: nat, now: int, previous: int)
    | LoadForCredit(cost: nat, now: int, added: nat)
    | TryCredit(cost: nat, now: int, added: nat, current: nat)
    | LoadForSpend(cost: nat, now: int)
    | TrySpend(cost: nat, now: int, current: nat)

  datatype State = State(
    start: int, clock: int, lastRead: int,
    stamp: int, stamps: set<int>,
    tokens: nat, levels: set<nat>,
    pcs: seq<Pc>,
    granted: nat, credited: nat, discarded: int)

  datatype Event =
    | Tick(now: int)
    | Call(thread: nat, cost: nat)
    | Step(thread: nat, seenStamp: int, seenTokens: nat, spurious: bool)

  function Init(c: Config, now: int, threads: nat): State {
    State(now, now, now, now, {now}, c.capacity, {c.capacity}, seq(threads, _ => Idle), 0, 0, 0)
  }

  ghost predicate Enabled(c: Config, s: State, e: Event) {
    match e
    case Tick(now) => s.clock <= now
    case Call(i, _) => i < |s.pcs| && s.pcs[i].Idle?
    case Step(i, seenStamp, seenTokens, _) =>
      i < |s.pcs| && !s.pcs[i].Idle? && seenStamp in s.stamps && seenTokens in s.levels &&
      (c.rate == 0 ==> !s.pcs[i].LoadStamp? && !s.pcs[i].TryStamp?)
  }

  function Goto(s: State, i: nat, pc: Pc): State
    requires i < |s.pcs|
  {
    s.(pcs := s.pcs[i := pc])
  }

  ghost function Apply(c: Config, s: State, e: Event): State
    requires Enabled(c, s, e)
  {
    match e
    case Tick(now) => s.(clock := now)
    case Call(i, cost) =>
      if cost == 0 then s
      else if c.rate == 0 then Goto(s, i, LoadForSpend(cost, s.clock)).(lastRead := s.clock)
      else Goto(s, i, LoadStamp(cost, s.clock)).(lastRead := s.clock)
    case Step(i, seenStamp, seenTokens, spurious) =>
      match s.pcs[i]
      case LoadStamp(cost, now) => Goto(s, i, TryStamp(cost, now, seenStamp))
      case TryStamp(cost, now, previous) => ApplyTryStamp(c, s, i, cost, now, previous, seenStamp, spurious)
      case LoadForCredit(cost, now, added) => Goto(s, i, TryCredit(cost, now, added, seenTokens))
      case TryCredit(cost, now, added, current) =>
        if s.tokens == current && !spurious then
          var newTokens := Capped(c.capacity, current, added);
          Goto(s, i, LoadForSpend(cost, now)).(
          tokens := newTokens, levels := s.levels + {newTokens},
          discarded := s.discarded + current + added - newTokens)
        else
          Goto(s, i, TryCredit(cost, now, added, seenTokens))
      case LoadForSpend(cost, now) => Goto(s, i, TrySpend(cost, now, seenTokens))
      case TrySpend(cost, now, current) =>
        if current < cost then
          Goto(s, i, Idle)
        else if s.tokens == current && !spurious then
          Goto(s, i, Idle).(
          tokens := current - cost, levels := s.levels + {current - cost}, granted := s.granted + cost)
        else
          Goto(s, i, TrySpend(cost, now, seenTokens))
  }

  /** One round of the outer loop of `refill`. */
  function ApplyTryStamp(c: Config, s: State, i: nat, cost: nat, now: int, previous: int,
                         seen: int, spurious: bool): State
    requires c.rate > 0 && i < |s.pcs|
  {
    if now <= previous then Goto(s, i, LoadForSpend(cost, now))
    else
      var added := TokensToAdd(c.rate, now - previous);
      if added == 0 then Goto(s, i, LoadForSpend(cost, now))
      else if s.stamp == previous && !spurious then
        var stamp := previous + NsConsumed(c.rate, added);
        Goto(s, i, LoadForCredit(cost, now, added)).(
        stamp := stamp, stamps := s.stamps + {stamp}, credited := s.credited + added)
      else Goto(s, i, TryStamp(cost, now, seen))
  }

  /** The state after the events `es`, if every one of them was enabled when it came. */
  ghost function Run(c: Config, s: State, es: seq<Event>): Option<State> {
    if es == [] then Some(s)
    else
      match Run(c, s, es[..|es| - 1])
      case None => None
      case Some(m) => if Enabled(c, m, es[|es| - 1]) then Some(Apply(c, m, es[|es| - 1])) else None
  }

  /** The product of the step does not wrap: the time since the stamp that the thread loaded, times the
      rate, is less than a word. */
  ghost predicate NoWrap(c: Config, s: State, e: Event)
    requires Enabled(c, s, e)
  {
    e.Step? ==>
      match s.pcs[e.thread]
      case TryStamp(_, now, previous) => now > previous ==> (now - previous) * c.rate < WORD
      case _ => true
  }

  /** In the run of the events no step wraps. */
  ghost predicate NothingWraps(c: Config, s: State, es: seq<Event>)
    requires Run(c, s, es).Some?
  {
    es != [] ==>
      && NothingWraps(c, s, es[..|es| - 1])
      && NoWrap(c, Run(c, s, es[..|es| - 1]).value, es[|es| - 1])
  }

  // ---------------------------------------------------------------- invariant

  function Held(pc: Pc): nat {
    match pc
    case LoadForCredit(_, _, added) => added
    case TryCredit(_, _, added, _) => added
    case _ => 0
  }

  /** Credit taken out of the timestamp and not yet put into the bucket. */
  function InFlight(pcs: seq<Pc>): nat {
    if pcs == [] then 0 else InFlight(pcs[..|pcs| - 1]) + Held(pcs[|pcs| - 1])
  }

  lemma {:induction false} InFlightUpdate(pcs: seq<Pc>, i: nat, pc: Pc)
    requires i < |pcs|
    ensures InFlight(pcs[i := pc]) == InFlight(pcs) - Held(pcs[i]) + Held(pc)
  {
    var n := |pcs| - 1;
    if i == n {
      assert pcs[i := pc][..n] == pcs[..n];
    } else {
      assert pcs[i := pc][..n] == pcs[..n][i := pc];
      InFlightUpdate(pcs[..n], i, pc);
    }
  }

  /** Everything a clock reading of `now` is worth has been credited. */
  ghost predicate Refilled(c: Config, s: State, now: int) {
    c.rate * (now - s.start) < (s.credited + 1) * NANOS_PER_SECOND
  }

  ghost predicate PcOk(c: Config, s: State, pc: Pc) {
    match pc
    case Idle => true
    case LoadStamp(_, now) => s.start <= now <= s.lastRead
    case TryStamp(_, now, previous) => s.start <= now <= s.lastRead && previous in s.stamps
    case LoadForCredit(_, now, _) => s.start <= now <= s.lastRead
    case TryCredit(_, now, _, _) => s.start <= now <= s.lastRead
    case LoadForSpend(_, now) => s.start <= now <= s.lastRead
    case TrySpend(_, now, _) => s.start <= now <= s.lastRead
  }

  /** Behind its refill a thread finds credited what its reading is worth. */
  ghost predicate PcCaughtUp(c: Config, s: State, pc: Pc) {
    match pc
    case LoadForCredit(_, now, _) => Refilled(c, s, now)
    case TryCredit(_, now, _, _) => Refilled(c, s, now)
    case LoadForSpend(_, now) => Refilled(c, s, now)
    case TrySpend(_, now, _) => Refilled(c, s, now)
    case _ => true
  }

  ghost predicate CaughtUp(c: Config, s: State) {
    forall i :: 0 <= i < |s.pcs| ==> PcCaughtUp(c, s, s.pcs[i])
  }

  /** What the timestamp says was credited, up to the remainder each refill loses. */
  ghost predicate CreditMatchesTime(c: Config, s: State) {
    && c.rate * (s.stamp - s.start) <= s.credited * NANOS_PER_SECOND
    && s.credited * NANOS_PER_SECOND <= c.rate * (s.stamp - s.start) + s.credited * (c.rate - 1)
  }

  ghost predicate CreditIsExact(c: Config, s: State) {
    s.credited * NANOS_PER_SECOND == c.rate * (s.stamp - s.start)
  }

  ghost predicate Inv(c: Config, s: State) {
    && s.start <= s.stamp <= s.lastRead <= s.clock
    && s.stamp in s.stamps && (forall v :: v in s.stamps ==> s.start <= v <= s.stamp)
    && s.tokens in s.levels && (forall v :: v in s.levels ==> v <= c.capacity)
    && s.discarded >= 0
    && s.tokens + s.granted + InFlight(s.pcs) + s.discarded == c.capacity + s.credited
    && (c.rate == 0 ==> s.credited == 0 && s.stamp == s.start)
    && (c.rate > 0 ==> CreditMatchesTime(c, s))
    && forall i :: 0 <= i < |s.pcs| ==> PcOk(c, s, s.pcs[i])
  }

  // ---------------------------------------------------------------- one refill

  /** The rounding of one refill: it consumes `d` nanoseconds for `t` tokens with
      r*d <= t*10^9 <= r*d + (r-1), never more time than has passed, and no remainder at all at a rate
      that divides a second.  Without wrapping nothing is left uncredited but a part of a token, and a
      multiple of 10^9 is exact as well. */
  lemma RefillRounding(rate: nat, elapsed: nat)
    requires 1 <= rate
    ensures var t := TokensToAdd(rate, elapsed); var d := NsConsumed(rate, t);
            && rate * d <= t * NANOS_PER_SECOND <= rate * d + (rate - 1)
            && d <= elapsed && (t > 0 && rate <= NANOS_PER_SECOND ==> d > 0)
            && t * NANOS_PER_SECOND <= rate * elapsed
            && (NANOS_PER_SECOND % rate == 0 ==> rate * d == t * NANOS_PER_SECOND)
    ensures rate * elapsed < WORD ==>
              var t := TokensToAdd(rate, elapsed);
              && rate * elapsed < (t + 1) * NANOS_PER_SECOND
              && (ExactRate(rate) ==> rate * NsConsumed(rate, t) == t * NANOS_PER_SECOND)
  {
    TokensWorth(rate, elapsed);
    var t := TokensToAdd(rate, elapsed);
    TimeOfTokens(rate, t);
    SmallerFactor(rate, NsConsumed(rate, t), elapsed);
    if NANOS_PER_SECOND % rate == 0 {
      ExactMultiple(t, rate, NANOS_PER_SECOND);
    } else if ExactRate(rate) && rate * elapsed < WORD {
      ExactRounding(rate, elapsed, t, NsConsumed(rate, t));
    }
  }

  /** What is credited is worth no more than the time that passed, and without wrapping all of it but a
      part of a token. */
  lemma TokensWorth(rate: nat, elapsed: nat)
    ensures var t := TokensToAdd(rate, elapsed);
            t * NANOS_PER_SECOND < WORD && t * NANOS_PER_SECOND <= rate * elapsed
    ensures rate * elapsed < WORD ==>
              var t := TokensToAdd(rate, elapsed);
              t == elapsed * rate / NANOS_PER_SECOND && rate * elapsed < (t + 1) * NANOS_PER_SECOND
  {
    var p := (elapsed * rate) % WORD;
    MulCommutes(elapsed, rate);
    Remainder(elapsed * rate);
    DivBounds(p, NANOS_PER_SECOND);
    MulCommutes(p / NANOS_PER_SECOND, NANOS_PER_SECOND);
  }

  lemma Remainder(x: nat)
    ensures x % WORD < WORD && x % WORD <= x && (x < WORD ==> x % WORD == x)
  {
    if x < WORD { Fits(x); }
  }

  lemma TimeOfTokens(rate: nat, t: nat)
    requires rate > 0 && t * NANOS_PER_SECOND < WORD
    ensures var d := NsConsumed(rate, t);
            && d == t * NANOS_PER_SECOND / rate && rate * d <= t * NANOS_PER_SECOND <= rate * d + (rate - 1)
            && (t > 0 && rate <= NANOS_PER_SECOND ==> d > 0)
  {
    Fits(t * NANOS_PER_SECOND);
    DivBounds(t * NANOS_PER_SECOND, rate);
    if NsConsumed(rate, t) == 0 { assert rate * NsConsumed(rate, t) == 0; }
  }

  lemma Fits(x: nat)
    requires x < WORD
    ensures x % WORD == x
  {}

  /** At a multiple of 10^9 nothing is rounded away. */
  lemma ExactRounding(rate: nat, elapsed: nat, t: nat, d: nat)
    requires rate > 0 && rate % NANOS_PER_SECOND == 0
    requires t == elapsed * rate / NANOS_PER_SECOND && d == t * NANOS_PER_SECOND / rate
    requires d <= elapsed
    ensures rate * d == t * NANOS_PER_SECOND
  {
    ExactMultiple(elapsed, NANOS_PER_SECOND, rate);
    MulCommutes(elapsed, rate);
    DivBounds(t * NANOS_PER_SECOND, rate);
    SmallerFactor(rate, elapsed, d);
  }

  lemma MulCommutes(a: nat, b: nat)
    ensures a * b == b * a
  {}

  lemma StrictFactor(a: nat, x: nat, y: nat)
    requires a > 0 && x < y
    ensures a * x + a <= a * y
  {
    MulMonotone(a, x + 1, y);
  }

  lemma SmallerFactor(a: nat, x: nat, y: nat)
    requires a > 0 && a * x < a * y + a
    ensures x <= y
  {
    if y < x { StrictFactor(a, y, x); }
  }

  lemma ExactMultiple(t: nat, r: nat, n: nat)
    requires r > 0 && n % r == 0
    ensures r * ((t * n) / r) == t * n
  {
    var q := n / r;
    DivBounds(n, r);
    MulAssoc(t, r, q);
    assert t * n == r * (t * q);
    var d := (t * n) / r;
    DivBounds(t * n, r);
    SmallerFactor(r, d, t * q);
    SmallerFactor(r, t * q, d);
  }

  lemma DivBounds(a: nat, b: nat)
    requires b > 0
    ensures b * (a / b) <= a <= b * (a / b) + (b - 1)
    ensures a % b == 0 ==> a == b * (a / b)
  {}

  lemma MulMonotone(a: nat, x: int, y: int)
    requires x <= y
    ensures a * x <= a * y
  {}

  lemma MulAssoc(t: nat, r: nat, q: nat)
    ensures t * (r * q) == r * (t * q)
  {}

  // ---------------------------------------------------------------- preservation

  lemma InitInv(c: Config, now: int, threads: nat)
    ensures Inv(c, Init(c, now, threads))
  {
    NoneInFlight(Init(c, now, threads).pcs);
  }

  lemma {:induction false} NoneInFlight(pcs: seq<Pc>)
    requires forall i :: 0 <= i < |pcs| ==> pcs[i].Idle?
    ensures InFlight(pcs) == 0
  {
    if pcs != [] { NoneInFlight(pcs[..|pcs| - 1]); }
  }

  /** The claims of the other threads survive whatever leaves `start` alone and only lets the
      clock, the readings, the credit and the history grow. */
  lemma PcFrame(c: Config, s: State, next: State, pc: Pc)
    requires PcOk(c, s, pc)
    requires s.start == next.start && s.clock <= next.clock && s.lastRead <= next.lastRead
    requires s.credited <= next.credited && s.stamps <= next.stamps
    ensures PcOk(c, next, pc)
  {}

  lemma PcsKept(c: Config, s: State, next: State, i: nat, pc: Pc)
    requires forall j :: 0 <= j < |s.pcs| ==> PcOk(c, s, s.pcs[j])
    requires s.start == next.start && s.clock <= next.clock && s.lastRead <= next.lastRead
    requires s.credited <= next.credited && s.stamps <= next.stamps
    requires i < |s.pcs| && next.pcs == s.pcs[i := pc] && PcOk(c, next, pc)
    ensures forall j :: 0 <= j < |next.pcs| ==> PcOk(c, next, next.pcs[j])
  {
    forall j | 0 <= j < |next.pcs| && j != i ensures PcOk(c, next, next.pcs[j]) {
      PcFrame(c, s, next, s.pcs[j]);
    }
  }

  /** A step that only moves its thread, carrying the same credit. */
  lemma LocalStepKeepsInv(c: Config, s: State, next: State, i: nat, pc: Pc)
    requires Inv(c, s) && i < |s.pcs| && Held(pc) == Held(s.pcs[i])
    requires next == Goto(s, i, pc) || next == Goto(s, i, pc).(lastRead := s.clock)
    requires PcOk(c, next, pc)
    ensures Inv(c, next)
  {
    InFlightUpdate(s.pcs, i, pc);
    PcsKept(c, s, next, i, pc);
  }

  lemma TickKeepsInv(c: Config, s: State, now: int)
    requires Inv(c, s) && s.clock <= now
    ensures Inv(c, s.(clock := now))
  {
    forall i | 0 <= i < |s.pcs| ensures PcOk(c, s.(clock := now), s.pcs[i]) {
      PcFrame(c, s, s.(clock := now), s.pcs[i]);
    }
  }

  lemma StepKeepsInv(c: Config, s: State, e: Event)
    requires Inv(c, s) && Enabled(c, s, e)
    ensures Inv(c, Apply(c, s, e))
  {
    var next := Apply(c, s, e);
    match e
    case Tick(now) => TickKeepsInv(c, s, now);
    case Call(i, cost) =>
      if cost != 0 { CallKeepsInv(c, s, e); }
    case Step(i, seenStamp, seenTokens, spurious) =>
      match s.pcs[i]
      case LoadStamp(cost, now) => LocalStepKeepsInv(c, s, next, i, next.pcs[i]);
      case TryStamp(cost, now, previous) => StampStepKeepsInv(c, s, e);
      case LoadForCredit(cost, now, added) => LocalStepKeepsInv(c, s, next, i, next.pcs[i]);
      case TryCredit(cost, now, added, current) => CreditStepKeepsInv(c, s, e);
      case LoadForSpend(cost, now) => LocalStepKeepsInv(c, s, next, i, next.pcs[i]);
      case TrySpend(cost, now, current) => SpendStepKeepsInv(c, s, e);
  }

  lemma CallKeepsInv(c: Config, s: State, e: Event)
    requires Inv(c, s) && Enabled(c, s, e) && e.Call? && e.cost != 0
    ensures Inv(c, Apply(c, s, e))
  {
    var next := Apply(c, s, e);
    LocalStepKeepsInv(c, s, next, e.thread, next.pcs[e.thread]);
  }

  lemma CreditStepKeepsInv(c: Config, s: State, e: Event)
    requires Inv(c, s) && Enabled(c, s, e)
    requires e.Step? && s.pcs[e.thread].TryCredit?
    ensures Inv(c, Apply(c, s, e))
  {
    var next, i := Apply(c, s, e), e.thread;
    assert PcOk(c, s, s.pcs[i]);
    if s.tokens == s.pcs[i].current && !e.spurious {
      CreditAddedKeepsInv(c, s, next, i, Capped(c.capacity, s.tokens, s.pcs[i].added));
    } else {
      LocalStepKeepsInv(c, s, next, i, next.pcs[i]);
    }
  }

  /** The successful compare-exchange on the tokens. */
  lemma CreditAddedKeepsInv(c: Config, s: State, next: State, i: nat, tokens: nat)
    requires Inv(c, s) && i < |s.pcs| && s.pcs[i].TryCredit?
    requires tokens <= c.capacity && tokens <= s.tokens + s.pcs[i].added
    requires next == Goto(s, i, LoadForSpend(s.pcs[i].cost, s.pcs[i].now)).(
                     tokens := tokens, levels := s.levels + {tokens},
                     discarded := s.discarded + s.tokens + s.pcs[i].added - tokens)
    ensures Inv(c, next)
  {
    assert PcOk(c, s, s.pcs[i]);
    InFlightUpdate(s.pcs, i, next.pcs[i]);
    PcsKept(c, s, next, i, next.pcs[i]);
  }

  lemma SpendStepKeepsInv(c: Config, s: State, e: Event)
    requires Inv(c, s) && Enabled(c, s, e)
    requires e.Step? && s.pcs[e.thread].TrySpend?
    ensures Inv(c, Apply(c, s, e))
  {
    var next, i := Apply(c, s, e), e.thread;
    var TrySpend(cost, now, current) := s.pcs[i];
    assert PcOk(c, s, s.pcs[i]);
    if cost <= current && s.tokens == current && !e.spurious {
      TokensSpentKeepsInv(c, s, next, i, cost);
    } else {
      LocalStepKeepsInv(c, s, next, i, next.pcs[i]);
    }
  }

  /** The successful compare-exchange that takes the tokens. */
  lemma TokensSpentKeepsInv(c: Config, s: State, next: State, i: nat, cost: nat)
    requires Inv(c, s) && i < |s.pcs| && s.pcs[i].TrySpend? && cost <= s.tokens
    requires next == Goto(s, i, Idle).(
                     tokens := s.tokens - cost, levels := s.levels + {s.tokens - cost}, granted := s.granted + cost)
    ensures Inv(c, next)
  {
    InFlightUpdate(s.pcs, i, Idle);
    PcsKept(c, s, next, i, Idle);
  }

  lemma StampStepKeepsInv(c: Config, s: State, e: Event)
    requires Inv(c, s) && Enabled(c, s, e)
    requires e.Step? && s.pcs[e.thread].TryStamp?
    ensures Inv(c, Apply(c, s, e))
  {
    var next := Apply(c, s, e);
    var i := e.thread;
    var TryStamp(cost, now, previous) := s.pcs[i];
    assert PcOk(c, s, s.pcs[i]);
    if now > previous && TokensToAdd(c.rate, now - previous) > 0 && s.stamp == previous && !e.spurious {
      StampMovesOn(c, s, next, i, TokensToAdd(c.rate, now - previous));
    } else {
      LocalStepKeepsInv(c, s, next, i, next.pcs[i]);
    }
  }

  /** `refill` gives up early only when the reading is worth nothing beyond what is credited. */
  lemma EarlyReturn(c: Config, s: State, now: int, previous: int)
    requires CreditMatchesTime(c, s) && previous <= s.stamp
    requires now <= previous || c.rate * (now - previous) < NANOS_PER_SECOND
    ensures Refilled(c, s, now)
  {
    MulMonotone(c.rate, previous - s.start, s.stamp - s.start);
    if now <= previous {
      MulMonotone(c.rate, now - s.start, previous - s.start);
    } else {
      Distribute(c.rate, now - previous, previous - s.start);
    }
  }

  lemma Distribute(a: nat, x: int, y: int)
    ensures a * (x + y) == a * x + a * y
  {}

  ghost predicate StampMoved(c: Config, s: State, next: State, i: nat, t: nat, d: nat) {
    && i < |s.pcs| && s.pcs[i].TryStamp?
    && next == Goto(s, i, LoadForCredit(s.pcs[i].cost, s.pcs[i].now, t)).(
               stamp := s.stamp + d, stamps := s.stamps + {s.stamp + d}, credited := s.credited + t)
  }

  /** The successful compare-exchange on the timestamp: it takes time out and credits it. */
  lemma StampMovesOn(c: Config, s: State, next: State, i: nat, t: nat)
    requires c.rate > 0 && Inv(c, s)
    requires i < |s.pcs| && s.pcs[i].TryStamp? && s.pcs[i].previous == s.stamp < s.pcs[i].now
    requires t == TokensToAdd(c.rate, s.pcs[i].now - s.stamp) > 0 && StampMoved(c, s, next, i, t, NsConsumed(c.rate, t))
    ensures Inv(c, next)
  {
    var now := s.pcs[i].now;
    assert PcOk(c, s, s.pcs[i]);
    RefillRounding(c.rate, now - s.stamp);
    var d := NsConsumed(c.rate, t);
    CreditAdvances(c.rate, s.credited, s.stamp - s.start, t, d);
    StampMovedKeepsInv(c, s, next, i, t, d);
  }

  lemma StampMovedKeepsInv(c: Config, s: State, next: State, i: nat, t: nat, d: nat)
    requires c.rate > 0 && Inv(c, s) && StampMoved(c, s, next, i, t, d)
    requires s.stamp + d <= s.pcs[i].now <= s.lastRead
    requires CreditMatchesTime(c, next)
    ensures Inv(c, next)
  {
    InFlightUpdate(s.pcs, i, next.pcs[i]);
    PcsKept(c, s, next, i, next.pcs[i]);
  }

  lemma CreditAdvances(rate: nat, credited: nat, consumed: nat, t: nat, d: nat)
    requires 1 <= rate && t > 0
    requires rate * consumed <= credited * NANOS_PER_SECOND <= rate * consumed + credited * (rate - 1)
    requires rate * d <= t * NANOS_PER_SECOND <= rate * d + (rate - 1)
    ensures rate * (consumed + d) <= (credited + t) * NANOS_PER_SECOND
            <= rate * (consumed + d) + (credited + t) * (rate - 1)
  {
    Distribute(rate, consumed, d);
    Distribute(rate - 1, credited, t);
    MulMonotone(rate - 1, 1, t);
  }

  /** No step rounds credit or time away at a rate that divides a second, and none that does not wrap
      at a multiple of 10^9. */
  lemma StepKeepsExactness(c: Config, s: State, e: Event)
    requires c.rate > 0 && Inv(c, s) && CreditIsExact(c, s) && Enabled(c, s, e)
    requires NANOS_PER_SECOND % c.rate == 0 || (ExactRate(c.rate) && NoWrap(c, s, e))
    ensures CreditIsExact(c, Apply(c, s, e))
  {
    if e.Step? && s.pcs[e.thread].TryStamp? {
      var TryStamp(_, now, previous) := s.pcs[e.thread];
      assert PcOk(c, s, s.pcs[e.thread]);
      if now > previous {
        MulCommutes(now - previous, c.rate);
        RefillRounding(c.rate, now - previous);
        Distribute(c.rate, s.stamp - s.start, NsConsumed(c.rate, TokensToAdd(c.rate, now - previous)));
      }
    }
  }

  lemma {:induction false} RunKeepsInv(c: Config, s: State, es: seq<Event>)
    requires Inv(c, s) && Run(c, s, es).Some?
    ensures Inv(c, Run(c, s, es).value)
    ensures c.rate > 0 && CreditIsExact(c, s) ==>
              NANOS_PER_SECOND % c.rate == 0 || (ExactRate(c.rate) && NothingWraps(c, s, es)) ==>
                CreditIsExact(c, Run(c, s, es).value)
  {
    if es != [] {
      var m := Run(c, s, es[..|es| - 1]).value;
      RunKeepsInv(c, s, es[..|es| - 1]);
      StepKeepsInv(c, m, es[|es| - 1]);
      if c.rate > 0 && CreditIsExact(c, m) {
        if NANOS_PER_SECOND % c.rate == 0 || (ExactRate(c.rate) && NothingWraps(c, s, es)) {
          StepKeepsExactness(c, m, es[|es| - 1]);
        }
      }
    }
  }

  // ---------------------------------------------------------------- refills catch up

  lemma CaughtUpFrame(c: Config, s: State, next: State, i: nat, pc: Pc)
    requires CaughtUp(c, s) && s.start == next.start && s.credited <= next.credited
    requires i < |s.pcs| && next.pcs == s.pcs[i := pc] && PcCaughtUp(c, next, pc)
    ensures CaughtUp(c, next)
  {
    forall j | 0 <= j < |next.pcs| && j != i ensures PcCaughtUp(c, next, next.pcs[j]) {
      assert PcCaughtUp(c, s, s.pcs[j]);
    }
  }

  /** The round of the outer loop leaves behind a reading that is credited, or goes round again. */
  lemma StampStepCatchesUp(c: Config, s: State, e: Event)
    requires Inv(c, s) && CaughtUp(c, s) && Enabled(c, s, e) && NoWrap(c, s, e)
    requires e.Step? && s.pcs[e.thread].TryStamp?
    ensures CaughtUp(c, Apply(c, s, e))
  {
    var next, i := Apply(c, s, e), e.thread;
    var TryStamp(cost, now, previous) := s.pcs[i];
    assert PcOk(c, s, s.pcs[i]);
    if now > previous {
      MulCommutes(now - previous, c.rate);
      RefillRounding(c.rate, now - previous);
    }
    if now <= previous || TokensToAdd(c.rate, now - previous) == 0 {
      EarlyReturn(c, s, now, previous);
    } else if s.stamp == previous && !e.spurious {
      CreditReaches(c.rate, s.credited, previous - s.start, TokensToAdd(c.rate, now - previous), now - previous);
    }
    CaughtUpFrame(c, s, next, i, next.pcs[i]);
  }

  lemma CreditReaches(rate: nat, credited: nat, consumed: nat, t: nat, elapsed: nat)
    requires rate * consumed <= credited * NANOS_PER_SECOND && rate * elapsed < (t + 1) * NANOS_PER_SECOND
    ensures rate * (consumed + elapsed) < (credited + t + 1) * NANOS_PER_SECOND
  {
    Distribute(rate, consumed, elapsed);
  }

  lemma StepCatchesUp(c: Config, s: State, e: Event)
    requires Inv(c, s) && CaughtUp(c, s) && Enabled(c, s, e) && NoWrap(c, s, e)
    ensures CaughtUp(c, Apply(c, s, e))
  {
    var next := Apply(c, s, e);
    if e.Tick? || (e.Call? && e.cost == 0) {
      assert forall i :: 0 <= i < |s.pcs| ==> PcCaughtUp(c, s, s.pcs[i]) == PcCaughtUp(c, next, s.pcs[i]);
    } else if e.Step? && s.pcs[e.thread].TryStamp? {
      StampStepCatchesUp(c, s, e);
    } else {
      assert PcCaughtUp(c, s, s.pcs[e.thread]);
      CaughtUpFrame(c, s, next, e.thread, next.pcs[e.thread]);
    }
  }

  lemma {:induction false} RunCatchesUp(c: Config, s: State, es: seq<Event>)
    requires Inv(c, s) && CaughtUp(c, s) && Run(c, s, es).Some? && NothingWraps(c, s, es)
    ensures CaughtUp(c, Run(c, s, es).value)
  {
    if es != [] {
      var init, last := es[..|es| - 1], es[|es| - 1];
      RunKeepsInv(c, s, init);
      RunCatchesUp(c, s, init);
      StepCatchesUp(c, Run(c, s, init).value, last);
    }
  }

  // ---------------------------------------------------------------- main results

  ghost predicate Reachable(c: Config, s: State) {
    exists now, threads, es :: Run(c, Init(c, now, threads), es) == Some(s)
  }

  /** Some run in which nothing wraps leads to the state. */
  ghost predicate Unwrapped(c: Config, s: State) {
    exists now, threads, es ::
      Run(c, Init(c, now, threads), es) == Some(s) && NothingWraps(c, Init(c, now, threads), es)
  }

  lemma ReachableInv(c: Config, s: State)
    requires Reachable(c, s)
    ensures Inv(c, s) && (c.rate > 0 && NANOS_PER_SECOND % c.rate == 0 ==> CreditIsExact(c, s))
  {
    var now, threads, es :| Run(c, Init(c, now, threads), es) == Some(s);
    InitInv(c, now, threads);
    RunKeepsInv(c, Init(c, now, threads), es);
  }

  lemma UnwrappedInv(c: Config, s: State)
    requires Unwrapped(c, s)
    ensures Reachable(c, s) && Inv(c, s) && CaughtUp(c, s)
    ensures c.rate > 0 && ExactRate(c.rate) ==> CreditIsExact(c, s)
  {
    var now, threads, es :| Run(c, Init(c, now, threads), es) == Some(s) && NothingWraps(c, Init(c, now, threads), es);
    InitInv(c, now, threads);
    RunKeepsInv(c, Init(c, now, threads), es);
    RunCatchesUp(c, Init(c, now, threads), es);
  }

  /** Safety of the bucket: whatever the interleaving, the tokens handed out stay within the
      capacity plus what the elapsed time is worth.  Each refill may round in the caller's favour
      by less than one token's worth of time, hence the general bound; at a rate that divides a second
      (as the gateway's 250 does) there is no slack at all, and at a multiple of 10^9 neither while
      nothing wraps. */
  lemma GrantedBound(c: Config, s: State)
    requires Reachable(c, s) && c.rate > 0
    ensures c.rate <= NANOS_PER_SECOND ==>
              s.granted <= c.capacity + c.rate * (s.clock - s.start) / (NANOS_PER_SECOND - c.rate + 1)
    ensures NANOS_PER_SECOND % c.rate == 0 || (ExactRate(c.rate) && Unwrapped(c, s)) ==>
              s.granted <= c.capacity + c.rate * (s.clock - s.start) / NANOS_PER_SECOND
  {
    ReachableInv(c, s);
    if Unwrapped(c, s) { UnwrappedInv(c, s); }
    CreditBound(c, s);
    GrantedWithinCredit(c, s);
  }

  lemma CreditBound(c: Config, s: State)
    requires c.rate > 0 && CreditMatchesTime(c, s) && s.start <= s.stamp <= s.clock
    ensures c.rate <= NANOS_PER_SECOND ==>
              s.credited <= c.rate * (s.clock - s.start) / (NANOS_PER_SECOND - c.rate + 1)
    ensures CreditIsExact(c, s) ==> s.credited <= c.rate * (s.clock - s.start) / NANOS_PER_SECOND
  {
    CreditWithinWorth(c, s);
    MulMonotone(c.rate, 0, s.clock - s.start);
    var worth := c.rate * (s.clock - s.start);
    if c.rate <= NANOS_PER_SECOND { QuotientBound(s.credited, NANOS_PER_SECOND - c.rate + 1, worth); }
    if CreditIsExact(c, s) { QuotientBound(s.credited, NANOS_PER_SECOND, worth); }
  }

  lemma GrantedWithinCredit(c: Config, s: State)
    requires Inv(c, s)
    ensures s.granted <= c.capacity + s.credited && s.start <= s.stamp <= s.clock
  {}

  lemma CreditWithinWorth(c: Config, s: State)
    requires c.rate > 0 && CreditMatchesTime(c, s) && s.stamp <= s.clock
    ensures c.rate <= NANOS_PER_SECOND ==>
              s.credited * (NANOS_PER_SECOND - c.rate + 1) <= c.rate * (s.clock - s.start)
    ensures CreditIsExact(c, s) ==> s.credited * NANOS_PER_SECOND <= c.rate * (s.clock - s.start)
  {
    MulMonotone(c.rate, s.stamp - s.start, s.clock - s.start);
    if c.rate <= NANOS_PER_SECOND { Distribute(s.credited, NANOS_PER_SECOND - c.rate + 1, c.rate - 1); }
  }

  lemma QuotientBound(x: nat, k: nat, w: nat)
    requires k > 0 && x * k <= w
    ensures x <= w / k
  {
    DivBounds(w, k);
    if x > w / k { MulMonotone(k, w / k + 1, x); }
  }

  /** Without a refill rate nothing beyond the initial capacity is ever granted. */
  lemma NoRefillBound(c: Config, s: State)
    requires Reachable(c, s) && c.rate == 0
    ensures s.granted <= c.capacity && s.tokens <= c.capacity - s.granted
  {
    ReachableInv(c, s);
  }

  /** Conservation: every token is in the bucket, granted, in flight between the two
      compare-exchanges, or was cut off by the cap. */
  lemma Conservation(c: Config, s: State)
    requires Reachable(c, s)
    ensures s.tokens + s.granted + InFlight(s.pcs) + s.discarded == c.capacity + s.credited
    ensures 0 <= s.tokens <= c.capacity && s.discarded >= 0
    ensures s.start <= s.stamp <= s.clock
  {
    ReachableInv(c, s);
  }

  /** The refill timestamp never moves back, whatever step is taken. */
  lemma StampMonotone(c: Config, s: State, e: Event)
    requires Reachable(c, s) && Enabled(c, s, e)
    ensures s.stamp <= Apply(c, s, e).stamp <= Apply(c, s, e).clock
  {
    ReachableInv(c, s);
    StepKeepsInv(c, s, e);
  }

  /** The exchange that puts a refill's credit into the bucket: the new level is the old one plus the credit, cut
      off at the capacity, if and only if that sum fits into a word. */
  lemma CreditLandsIff(c: Config, s: State, e: Event)
    requires ValidConfig(c) && Enabled(c, s, e) && e.Step? && s.pcs[e.thread].TryCredit?
    requires s.tokens <= c.capacity && 0 < s.pcs[e.thread].added < WORD
    requires Apply(c, s, e).pcs[e.thread].LoadForSpend?
    ensures var sum := s.tokens + s.pcs[e.thread].added;
            sum < WORD <==> Apply(c, s, e).tokens == if sum < c.capacity then sum else c.capacity
  {
    var sum := s.tokens + s.pcs[e.thread].added;
    if sum < WORD { Fits(sum); } else { Wrapped(sum); }
  }

  lemma Wrapped(x: nat)
    requires WORD <= x < 2 * WORD
    ensures x % WORD == x - WORD
  {}

  /** Credit is lost only where the bucket ends up full, and then just what does not fit; or where the sum
      does not fit into a word. */
  lemma LostOnlyWhenFull(c: Config, s: State, e: Event)
    requires Reachable(c, s) && Enabled(c, s, e) && Apply(c, s, e).discarded != s.discarded
    ensures e.Step? && s.pcs[e.thread].TryCredit?
    ensures var sum := s.tokens + s.pcs[e.thread].added;
            sum < WORD ==>
              Apply(c, s, e).tokens == c.capacity && Apply(c, s, e).discarded == s.discarded + sum - c.capacity
  {
    var sum := s.tokens + s.pcs[e.thread].added;
    if sum < WORD { Fits(sum); }
  }

  /** Nothing is lost to rounding for long: once a refill that read `now` has returned, all that
      `now` is worth has been credited.  At an exact rate, and if nobody has read a later clock
      value, the credit is exactly that. */
  lemma RefillCatchesUp(c: Config, s: State, i: nat)
    requires Unwrapped(c, s) && c.rate > 0
    requires i < |s.pcs| && (s.pcs[i].LoadForSpend? || s.pcs[i].TrySpend?)
    ensures s.credited >= c.rate * (s.pcs[i].now - s.start) / NANOS_PER_SECOND
    ensures ExactRate(c.rate) && s.pcs[i].now == s.lastRead ==>
              s.credited == c.rate * (s.pcs[i].now - s.start) / NANOS_PER_SECOND
  {
    UnwrappedInv(c, s);
    assert PcOk(c, s, s.pcs[i]) && PcCaughtUp(c, s, s.pcs[i]);
    WorthCredited(c, s, s.pcs[i].now);
    if ExactRate(c.rate) && s.pcs[i].now == s.lastRead { ExactlyWorth(c, s); }
  }

  lemma WorthCredited(c: Config, s: State, now: int)
    requires c.rate > 0 && s.start <= now && Refilled(c, s, now)
    ensures s.credited >= c.rate * (now - s.start) / NANOS_PER_SECOND
  {
    MulMonotone(c.rate, 0, now - s.start);
    DivBounds(c.rate * (now - s.start), NANOS_PER_SECOND);
  }

  lemma ExactlyWorth(c: Config, s: State)
    requires c.rate > 0 && s.start <= s.stamp <= s.lastRead && CreditIsExact(c, s)
    ensures s.credited <= c.rate * (s.lastRead - s.start) / NANOS_PER_SECOND
  {
    MulMonotone(c.rate, 0, s.lastRead - s.start);
    MulMonotone(c.rate, s.stamp - s.start, s.lastRead - s.start);
    QuotientBound(s.credited, NANOS_PER_SECOND, c.rate * (s.lastRead - s.start));
  }

  // ---------------------------------------------------------------- when the plain bound holds

  /** The bound a reader of the configuration expects: capacity plus rate times elapsed time. */
  ghost predicate PlainBound(c: Config, s: State) {
    s.granted <= c.capacity + c.rate * (s.clock - s.start) / NANOS_PER_SECOND
  }

  /** A non-empty bucket meets the plain bound in every run exactly when its rate divides a second.
      Above 10^9, where no rate does, the multiples of 10^9 meet it while nothing wraps, and no others. */
  lemma PlainBoundIffExactRate(c: Config)
    requires ValidConfig(c) && c.rate > 0 && c.capacity >= 1
    ensures (forall s :: Unwrapped(c, s) ==> PlainBound(c, s)) <==> ExactRate(c.rate)
    ensures c.rate <= NANOS_PER_SECOND ==>
              ((forall s :: Reachable(c, s) ==> PlainBound(c, s)) <==> NANOS_PER_SECOND % c.rate == 0)
  {
    if ExactRate(c.rate) {
      forall s | Unwrapped(c, s) ensures PlainBound(c, s) {
        UnwrappedInv(c, s);
        GrantedBound(c, s);
      }
      if c.rate <= NANOS_PER_SECOND { ExactUpToASecond(c.rate); }
      if NANOS_PER_SECOND % c.rate == 0 {
        forall s | Reachable(c, s) ensures PlainBound(c, s) { GrantedBound(c, s); }
      }
    } else {
      var s := SlackAfter(c, c.rate + 1);
      SlackExceedsBound(c, s);
      UnwrappedInv(c, s);
    }
  }

  lemma ExactUpToASecond(rate: nat)
    requires 0 < rate <= NANOS_PER_SECOND && ExactRate(rate)
    ensures NANOS_PER_SECOND % rate == 0
  {}

  /** No run of at most that time grants more, if it does not wrap. */
  ghost predicate BoundedIn(c: Config, time: nat, most: nat) {
    forall s :: Unwrapped(c, s) && s.clock - s.start <= time ==> s.granted <= most
  }

  ghost predicate Bounded(c: Config, time: nat) {
    exists most: nat :: BoundedIn(c, time, most)
  }

  /** A non-empty bucket grants a bounded number of tokens in any bounded time exactly when its rate
      is at most 10^9 or exact. */
  lemma BoundedIffRate(c: Config)
    requires ValidConfig(c) && c.rate > 0 && c.capacity >= 1
    ensures (forall time: nat :: Bounded(c, time)) <==> c.rate <= NANOS_PER_SECOND || ExactRate(c.rate)
  {
    if c.rate <= NANOS_PER_SECOND || ExactRate(c.rate) {
      forall time: nat ensures Bounded(c, time) { WorthBounds(c, time); }
    } else {
      forall most: nat ensures !BoundedIn(c, 1, most) {
        var s := UnboundedInOneNanosecond(c, most + 1);
      }
      assert !Bounded(c, 1);
    }
  }

  lemma WorthBounds(c: Config, time: nat)
    requires c.rate > 0 && (c.rate <= NANOS_PER_SECOND || ExactRate(c.rate))
    ensures BoundedIn(c, time, c.capacity + c.rate * time)
  {
    forall s | Unwrapped(c, s) && s.clock - s.start <= time
      ensures s.granted <= c.capacity + c.rate * time
    {
      UnwrappedInv(c, s);
      GrantedBound(c, s);
      MulMonotone(c.rate, s.clock - s.start, time);
      MulMonotone(c.rate, 0, s.clock - s.start);
      QuotientShrinks(c.rate * (s.clock - s.start), NANOS_PER_SECOND);
      if c.rate <= NANOS_PER_SECOND {
        QuotientShrinks(c.rate * (s.clock - s.start), NANOS_PER_SECOND - c.rate + 1);
      }
    }
  }

  lemma QuotientShrinks(w: nat, k: nat)
    requires k > 0
    ensures w / k <= w
  {
    DivBounds(w, k);
    MulMonotone(w / k, 1, k);
  }

  /** Above 10^9 an inexact rate lets a refill credit a token for no time at all: within one
      nanosecond of the start any number of tokens can be granted. */
  lemma UnboundedInOneNanosecond(c: Config, k: nat) returns (s: State)
    requires ValidConfig(c) && c.rate > NANOS_PER_SECOND && c.capacity >= 1 && !ExactRate(c.rate)
    requires k > 0
    ensures Unwrapped(c, s) && s.clock - s.start == 1 && s.granted >= c.capacity + k
  {
    s := SlackAfter(c, k);
    SmallQuotient(NANOS_PER_SECOND, c.rate);
  }

  lemma ReachStep(c: Config, s: State, e: Event)
    requires Reachable(c, s) && Enabled(c, s, e)
    ensures Reachable(c, Apply(c, s, e))
  {
    var now, threads, es :| Run(c, Init(c, now, threads), es) == Some(s);
    assert (es + [e])[..|es|] == es;
    assert Run(c, Init(c, now, threads), es + [e]) == Some(Apply(c, s, e));
  }

  lemma NextStep(c: Config, s: State, e: Event)
    requires Unwrapped(c, s) && Enabled(c, s, e) && NoWrap(c, s, e)
    ensures Unwrapped(c, Apply(c, s, e))
  {
    var now, threads, es :| Run(c, Init(c, now, threads), es) == Some(s) && NothingWraps(c, Init(c, now, threads), es);
    var longer := es + [e];
    assert longer[..|es|] == es;
    assert Run(c, Init(c, now, threads), longer) == Some(Apply(c, s, e));
    assert NothingWraps(c, Init(c, now, threads), longer);
  }

  /** One thread has emptied the bucket and then again after each of `k` refills, every one of which
      credited a token and consumed `10^9 / rate` nanoseconds rounded down. */
  ghost predicate AfterRounds(c: Config, s: State, k: nat)
    requires c.rate > 0
  {
    AfterRoundsOf(c, s, k, NANOS_PER_SECOND / c.rate)
  }

  ghost predicate AfterRoundsOf(c: Config, s: State, k: nat, d: nat) {
    && Emptied(c, s) && s.start == 0 && s.stamp == k * d && s.clock <= k * d + 1
    && s.granted >= c.capacity + k
  }

  /** The bucket is empty and its one thread idle. */
  ghost predicate Emptied(c: Config, s: State) {
    Unwrapped(c, s) && s.pcs == [Idle] && s.stamp in s.stamps && s.tokens == 0 && 0 in s.levels
  }

  /** An uncontended step of the one thread. */
  function Alone(s: State): Event {
    Step(0, s.stamp, s.tokens, false)
  }

  lemma {:induction false} SlackAfter(c: Config, k: nat) returns (s: State)
    requires ValidConfig(c) && c.rate > 0 && c.capacity >= 1 && !ExactRate(c.rate)
    ensures AfterRounds(c, s, k) && (k > 0 ==> s.clock == k * (NANOS_PER_SECOND / c.rate) + 1)
  {
    if k == 0 {
      s := DrainedBucket(c);
    } else {
      s := SlackAfter(c, k - 1);
      s := SlackRound(c, s, k - 1);
    }
  }

  lemma DrainedBucket(c: Config) returns (s: State)
    requires c.rate > 0 && c.capacity >= 1
    ensures AfterRounds(c, s, 0)
  {
    var init := Init(c, 0, 1);
    assert Run(c, init, []) == Some(init) && NothingWraps(c, init, []);
    s := Called(c, init, c.capacity);
    NextStep(c, s, Alone(s));
    s := Apply(c, s, Alone(s));
    s := SpendAll(c, s, 0, c.capacity);
  }

  /** The call and the load of the stamp. */
  lemma Called(c: Config, s0: State, cost: nat) returns (s: State)
    requires Unwrapped(c, s0) && c.rate > 0 && cost > 0 && s0.pcs == [Idle]
    requires s0.stamp in s0.stamps && s0.tokens in s0.levels
    ensures Unwrapped(c, s) && s == s0.(pcs := [TryStamp(cost, s0.clock, s0.stamp)], lastRead := s0.clock)
  {
    s := s0;
    NextStep(c, s, Call(0, cost));
    s := Apply(c, s, Call(0, cost));
    NextStep(c, s, Alone(s));
    s := Apply(c, s, Alone(s));
  }

  /** The spending loop of a call that asks for all that is there. */
  lemma SpendAll(c: Config, s0: State, now: int, cost: nat) returns (s: State)
    requires Unwrapped(c, s0) && s0.pcs == [LoadForSpend(cost, now)] && s0.tokens == cost
    requires s0.stamp in s0.stamps && s0.tokens in s0.levels
    ensures Emptied(c, s) && s.granted == s0.granted + cost && SameTimes(s0, s)
  {
    s := s0;
    NextStep(c, s, Alone(s));
    s := Apply(c, s, Alone(s));
    NextStep(c, s, Alone(s));
    s := Apply(c, s, Alone(s));
  }

  /** The loop that adds the credit to an empty bucket. */
  lemma CreditEmpty(c: Config, s0: State, cost: nat, now: int, t: nat) returns (s: State)
    requires Unwrapped(c, s0) && s0.pcs == [LoadForCredit(cost, now, t)] && t < WORD && s0.tokens == 0
    requires s0.stamp in s0.stamps && s0.tokens in s0.levels
    ensures Unwrapped(c, s) && s.pcs == [LoadForSpend(cost, now)] && s.tokens == Least(c.capacity, t)
    ensures s.tokens in s.levels && s.granted == s0.granted && SameTimes(s0, s)
  {
    NextStep(c, s0, Alone(s0));
    s := Apply(c, s0, Alone(s0));
    s := CreditExchanged(c, s, cost, now, t);
  }

  lemma CreditExchanged(c: Config, s0: State, cost: nat, now: int, t: nat) returns (s: State)
    requires Unwrapped(c, s0) && s0.pcs == [TryCredit(cost, now, t, 0)] && t < WORD && s0.tokens == 0
    requires s0.stamp in s0.stamps && s0.tokens in s0.levels
    ensures Unwrapped(c, s) && s.pcs == [LoadForSpend(cost, now)] && s.tokens == Least(c.capacity, t)
    ensures s.tokens in s.levels && s.granted == s0.granted && SameTimes(s0, s)
  {
    Fits(t);
    NextStep(c, s0, Alone(s0));
    s := Apply(c, s0, Alone(s0));
  }

  ghost predicate SameTimes(s: State, t: State) {
    t.stamp == s.stamp && t.stamps == s.stamps && t.clock == s.clock && t.start == s.start
  }

  function Least(x: nat, y: nat): nat {
    if x < y then x else y
  }

  /** A refill just after the first token is due credits at least one and rounds the time down. */
  lemma FirstTokenRounding(rate: nat)
    requires 1 <= rate < WORD && !ExactRate(rate)
    ensures var d := NANOS_PER_SECOND / rate; var t := TokensToAdd(rate, d + 1);
            (d + 1) * rate < WORD && 1 <= t < WORD && NsConsumed(rate, t) == d
  {
    var d := NANOS_PER_SECOND / rate;
    DivBounds(NANOS_PER_SECOND, rate);
    MulCommutes(d + 1, rate);
    Distribute(rate, d, 1);
    if rate < NANOS_PER_SECOND {
      OneTokenDue(rate, d, (d + 1) * rate);
    } else {
      SmallQuotient(NANOS_PER_SECOND, rate);
      WholeTokensDue(rate);
    }
  }

  lemma OneTokenDue(rate: nat, d: nat, p: nat)
    requires 1 <= rate < NANOS_PER_SECOND && d == NANOS_PER_SECOND / rate
    requires p == rate * d + rate && rate * d < NANOS_PER_SECOND <= rate * d + rate
    ensures p % WORD / NANOS_PER_SECOND == 1 && p < WORD && NsConsumed(rate, 1) == d
  {
    Fits(p);
    Fits(NANOS_PER_SECOND);
  }

  lemma WholeTokensDue(rate: nat)
    requires NANOS_PER_SECOND < rate < WORD && rate % NANOS_PER_SECOND != 0
    ensures var t := rate % WORD / NANOS_PER_SECOND; 1 <= t < WORD && NsConsumed(rate, t) == 0
  {
    var t := rate / NANOS_PER_SECOND;
    Fits(rate);
    DivBounds(rate, NANOS_PER_SECOND);
    var q := t * NANOS_PER_SECOND;
    assert 0 < q < rate;
    Fits(q);
    SmallQuotient(q, rate);
  }

  lemma SmallQuotient(a: nat, b: nat)
    requires a < b
    ensures a / b == 0
  {
    DivBounds(a, b);
    if a / b > 0 { MulMonotone(b, 1, a / b); }
  }

  lemma SlackRound(c: Config, s0: State, k: nat) returns (s: State)
    requires ValidConfig(c) && c.rate > 0 && c.capacity >= 1 && !ExactRate(c.rate)
    requires AfterRounds(c, s0, k)
    ensures AfterRounds(c, s, k + 1) && s.clock == (k + 1) * (NANOS_PER_SECOND / c.rate) + 1
  {
    var d := NANOS_PER_SECOND / c.rate;
    FirstTokenRounding(c.rate);
    s := OneMoreRound(c, s0, k, d, TokensToAdd(c.rate, d + 1));
  }

  lemma OneMoreRound(c: Config, s0: State, k: nat, d: nat, t: nat) returns (s: State)
    requires c.rate > 0 && c.capacity >= 1 && AfterRoundsOf(c, s0, k, d)
    requires (d + 1) * c.rate < WORD && t == TokensToAdd(c.rate, d + 1) && 1 <= t < WORD && NsConsumed(c.rate, t) == d
    ensures AfterRoundsOf(c, s, k + 1, d) && s.clock == (k + 1) * d + 1
  {
    s := RefillAndSpend(c, s0, s0.stamp + d + 1, d, t);
    NextMultiple(k, d);
  }

  lemma NextMultiple(k: nat, d: nat)
    ensures (k + 1) * d == k * d + d
  {}

  /** From an empty bucket at `now`: a call whose refill credits `t` tokens for `d` nanoseconds, and
      which takes all that fits. */
  lemma RefillAndSpend(c: Config, s0: State, now: int, d: nat, t: nat) returns (s: State)
    requires c.rate > 0 && c.capacity >= 1 && Emptied(c, s0) && s0.clock <= now == s0.stamp + d + 1
    requires (d + 1) * c.rate < WORD && t == TokensToAdd(c.rate, d + 1) && 1 <= t < WORD && NsConsumed(c.rate, t) == d
    ensures Emptied(c, s) && s.granted > s0.granted
    ensures s.start == s0.start && s.stamp == s0.stamp + d && s.clock == now
  {
    var cost := Least(c.capacity, t);
    NextStep(c, s0, Tick(now));
    s := Apply(c, s0, Tick(now));
    s := Called(c, s, cost);
    s := StampExchanged(c, s, cost, now, d, t);
    s := CreditEmpty(c, s, cost, now, t);
    s := SpendAll(c, s, now, cost);
  }

  /** The exchange of the stamp one nanosecond after the first token is due. */
  lemma StampExchanged(c: Config, s0: State, cost: nat, now: int, d: nat, t: nat) returns (s: State)
    requires Unwrapped(c, s0) && c.rate > 0 && s0.pcs == [TryStamp(cost, now, s0.stamp)]
    requires s0.stamp in s0.stamps && s0.tokens in s0.levels
    requires now - s0.stamp == d + 1 && (d + 1) * c.rate < WORD
    requires t == TokensToAdd(c.rate, d + 1) >= 1 && NsConsumed(c.rate, t) == d
    ensures Unwrapped(c, s) && s.pcs == [LoadForCredit(cost, now, t)] && s.stamp == s0.stamp + d && s.stamp in s.stamps
    ensures s.tokens == s0.tokens && s.tokens in s.levels && s.granted == s0.granted && s.clock == s0.clock
    ensures s.start == s0.start
  {
    StampStep(c, s0, cost, now, d, t);
    NextStep(c, s0, Alone(s0));
    s := Apply(c, s0, Alone(s0));
  }

  lemma StampStep(c: Config, s: State, cost: nat, now: int, d: nat, t: nat)
    requires c.rate > 0 && s.pcs == [TryStamp(cost, now, s.stamp)] && s.stamp in s.stamps && s.tokens in s.levels
    requires now - s.stamp == d + 1 && t == TokensToAdd(c.rate, d + 1) >= 1 && NsConsumed(c.rate, t) == d
    ensures Apply(c, s, Alone(s)) ==
            s.(pcs := [LoadForCredit(cost, now, t)], stamp := s.stamp + d, stamps := s.stamps + {s.stamp + d},
               credited := s.credited + t)
  {
    assert TokensToAdd(c.rate, now - s.stamp) == t;
  }

  lemma SlackExceedsBound(c: Config, s: State)
    requires ValidConfig(c) && c.rate > 0 && !ExactRate(c.rate)
    requires AfterRounds(c, s, c.rate + 1)
    requires s.clock == (c.rate + 1) * (NANOS_PER_SECOND / c.rate) + 1
    ensures Unwrapped(c, s) && !PlainBound(c, s)
  {
    RoundsAreCheap(c.rate, NANOS_PER_SECOND / c.rate);
    QuotientBelow(c.rate * s.clock, NANOS_PER_SECOND, c.rate + 1);
  }

  lemma QuotientBelow(w: nat, k: nat, n: nat)
    requires k > 0 && w < n * k
    ensures w / k < n
  {
    DivBounds(w, k);
    MulCommutes(n, k);
    if n <= w / k { MulMonotone(k, n, w / k); }
  }

  lemma RoundsAreCheap(r: nat, d: nat)
    requires 0 < r < WORD && !ExactRate(r) && d == NANOS_PER_SECOND / r
    ensures r * ((r + 1) * d + 1) < (r + 1) * NANOS_PER_SECOND
    ensures r * ((r + 1) * d + 1) < WORD
  {
    DivBounds(NANOS_PER_SECOND, r);
    MulAssoc(r + 1, r, d);
    Distribute(r, (r + 1) * d, 1);
    if r < NANOS_PER_SECOND {
      MulMonotone(r + 1, r * d, NANOS_PER_SECOND - 1);
    } else {
      SmallQuotient(NANOS_PER_SECOND, r);
    }
  }
}
