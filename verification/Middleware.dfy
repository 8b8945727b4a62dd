/** The middleware chain.  What a middleware does in one run is an arbitrary finite behaviour: it
    returns, throws, or calls `next` and goes on in one way if that returns and in another if it
    throws. */
module Middleware {
  import opened Counting

  datatype Behaviour = Return | Throw | CallNext(onReturn: Behaviour, onThrow: Behaviour)

  datatype Outcome = Returned | Thrown

  datatype Event = Enter(index: nat) | Terminal | Exit(index: nat)

  datatype Ran = Ran(trace: seq<Event>, outcome: Outcome)

  /** `invoke`: the chain from a position on; `terminal` is how its last step ends. */
  function RunFrom(chain: seq<Behaviour>, index: nat, terminal: Outcome): Ran
    requires index <= |chain|
    decreases |chain| - index, 1, Return
  {
    if index == |chain| then Ran([Terminal], terminal)
    else
      var body := Body(chain, index, chain[index], false, terminal);
      Ran([Enter(index)] + body.trace + [Exit(index)], body.outcome)
  }

  /** The rest of one middleware; `advanced` is the flag that `next` sets. */
  function Body(chain: seq<Behaviour>, index: nat, rest: Behaviour, advanced: bool, terminal: Outcome): Ran
    requires index < |chain|
    decreases |chain| - index, 0, rest
  {
    match rest
    case Return => Ran([], Returned)
    case Throw => Ran([], Thrown)
    case CallNext(onReturn, onThrow) =>
      if advanced then Body(chain, index, onThrow, true, terminal)
      else
        var inner := RunFrom(chain, index + 1, terminal);
        var after := Body(chain, index, if inner.outcome.Returned? then onReturn else onThrow, true, terminal);
        Ran(inner.trace + after.trace, after.outcome)
  }

  // ---------------------------------------------------------------- what a run looks like

  /** How many middlewares from `index` on are entered: up to and including the first that does not
      call `next`. */
  function Reach(chain: seq<Behaviour>, index: nat): (k: nat)
    requires index <= |chain|
    ensures k <= |chain| - index
    decreases |chain| - index
  {
    if index == |chain| then 0
    else if chain[index].CallNext? then 1 + Reach(chain, index + 1)
    else 1
  }

  ghost predicate AllCallNext(chain: seq<Behaviour>, index: nat) {
    forall i :: index <= i < |chain| ==> chain[i].CallNext?
  }

  function Enters(index: nat, k: nat): seq<Event> {
    seq(k, i requires 0 <= i < k => Enter(index + i))
  }

  function Exits(index: nat, k: nat): seq<Event> {
    seq(k, i requires 0 <= i < k => Exit(index + k - 1 - i))
  }

  /** Once `next` was called, the rest of the middleware runs nothing further down: a second call
      throws at once. */
  lemma {:induction false} SecondCallRunsNothing(chain: seq<Behaviour>, index: nat, rest: Behaviour, terminal: Outcome)
    requires index < |chain|
    ensures Body(chain, index, rest, true, terminal).trace == []
    decreases rest
  {
    if rest.CallNext? { SecondCallRunsNothing(chain, index, rest.onThrow, terminal); }
  }

  /** The trace of a run: the middlewares entered in order, the terminal step in the middle exactly
      when every one of them called `next`, and the same middlewares left in the opposite order. */
  lemma {:induction false} TraceIsNested(chain: seq<Behaviour>, index: nat, terminal: Outcome)
    requires index <= |chain|
    ensures var k := Reach(chain, index);
            RunFrom(chain, index, terminal).trace ==
              Enters(index, k) + (if AllCallNext(chain, index) then [Terminal] else []) + Exits(index, k)
    decreases |chain| - index
  {
    if index == |chain| {
      assert Enters(index, 0) == [] == Exits(index, 0);
    } else if chain[index].CallNext? {
      var b, inner := chain[index], RunFrom(chain, index + 1, terminal);
      TraceIsNested(chain, index + 1, terminal);
      SecondCallRunsNothing(chain, index, if inner.outcome.Returned? then b.onReturn else b.onThrow, terminal);
      assert inner.trace + [] == inner.trace;
      assert AllCallNext(chain, index) <==> AllCallNext(chain, index + 1);
      Wrapped(index, Reach(chain, index + 1), if AllCallNext(chain, index) then [Terminal] else []);
    } else {
      assert Enters(index, 1) == [Enter(index)] && Exits(index, 1) == [Exit(index)];
    }
  }

  lemma Wrapped(index: nat, k: nat, mid: seq<Event>)
    ensures [Enter(index)] + (Enters(index + 1, k) + mid + Exits(index + 1, k)) + [Exit(index)] ==
            Enters(index, k + 1) + mid + Exits(index, k + 1)
  {
    var enters, exits := Enters(index + 1, k), Exits(index + 1, k);
    assert Enters(index, k + 1) == [Enter(index)] + enters;
    assert Exits(index, k + 1) == exits + [Exit(index)];
    Regroup([Enter(index)], enters, mid, exits, [Exit(index)]);
  }

  lemma Regroup(a: seq<Event>, b: seq<Event>, c: seq<Event>, d: seq<Event>, e: seq<Event>)
    ensures a + (b + c + d) + e == a + b + c + (d + e)
  {}

  /** A whole run: each middleware is entered and left at most once, namely if those before it called
      `next`, and the terminal step runs once or not at all. */
  lemma EachAtMostOnce(chain: seq<Behaviour>, terminal: Outcome, i: nat)
    requires i < |chain|
    ensures var trace := RunFrom(chain, 0, terminal).trace;
            && Times(trace, Enter(i)) == Times(trace, Exit(i)) == (if i < Reach(chain, 0) then 1 else 0)
            && Times(trace, Terminal) == (if AllCallNext(chain, 0) then 1 else 0)
  {
    var k := Reach(chain, 0);
    var mid := if AllCallNext(chain, 0) then [Terminal] else [];
    TraceIsNested(chain, 0, terminal);
    TimesInThree(Enters(0, k), mid, Exits(0, k), Enter(i));
    TimesInThree(Enters(0, k), mid, Exits(0, k), Exit(i));
    TimesInThree(Enters(0, k), mid, Exits(0, k), Terminal);
    TimesEnters(0, k, i);
    TimesExits(0, k, i);
    OnlyTerminal(mid, i);
  }

  lemma TimesInThree(a: seq<Event>, b: seq<Event>, c: seq<Event>, e: Event)
    ensures Times(a + b + c, e) == Times(a, e) + Times(b, e) + Times(c, e)
  {
    TimesConcat(a + b, c, e);
    TimesConcat(a, b, e);
  }

  lemma OnlyTerminal(mid: seq<Event>, i: nat)
    requires mid == [] || mid == [Terminal]
    ensures Times(mid, Enter(i)) == Times(mid, Exit(i)) == 0 && Times(mid, Terminal) == |mid|
  {
    if mid != [] { assert mid[..0] == []; }
  }

  lemma {:induction false} TimesEnters(index: nat, k: nat, i: nat)
    ensures Times(Enters(index, k), Enter(i)) == if index <= i < index + k then 1 else 0
    ensures Times(Enters(index, k), Exit(i)) == Times(Enters(index, k), Terminal) == 0
    decreases k
  {
    if k > 0 {
      assert Enters(index, k) == Enters(index, k - 1) + [Enter(index + k - 1)];
      TimesEnters(index, k - 1, i);
      TimesSnoc(Enters(index, k - 1), Enter(index + k - 1), Enter(i));
      TimesSnoc(Enters(index, k - 1), Enter(index + k - 1), Exit(i));
      TimesSnoc(Enters(index, k - 1), Enter(index + k - 1), Terminal);
    }
  }

  lemma {:induction false} TimesExits(index: nat, k: nat, i: nat)
    ensures Times(Exits(index, k), Exit(i)) == if index <= i < index + k then 1 else 0
    ensures Times(Exits(index, k), Enter(i)) == Times(Exits(index, k), Terminal) == 0
    decreases k
  {
    if k > 0 {
      assert Exits(index, k) == Exits(index + 1, k - 1) + [Exit(index)];
      TimesExits(index + 1, k - 1, i);
      TimesSnoc(Exits(index + 1, k - 1), Exit(index), Exit(i));
      TimesSnoc(Exits(index + 1, k - 1), Exit(index), Enter(i));
      TimesSnoc(Exits(index + 1, k - 1), Exit(index), Terminal);
    }
  }

  /** How a middleware ends that has already called `next` and goes on like this. */
  function Ending(rest: Behaviour): Outcome {
    match rest
    case Return => Returned
    case Throw => Thrown
    case CallNext(_, onThrow) => Ending(onThrow)
  }

  lemma {:induction false} BodyEnding(chain: seq<Behaviour>, index: nat, rest: Behaviour, terminal: Outcome)
    requires index < |chain|
    ensures Body(chain, index, rest, true, terminal).outcome == Ending(rest)
    decreases rest
  {
    if rest.CallNext? { BodyEnding(chain, index, rest.onThrow, terminal); }
  }

  /** How a middleware that calls `next` ends when that ended like this. */
  function Turned(b: Behaviour, inner: Outcome): Outcome
    requires b.CallNext?
  {
    Ending(if inner.Returned? then b.onReturn else b.onThrow)
  }

  /** A middleware passes an outcome on if it calls `next` and ends in the same way as that did. */
  predicate Passes(b: Behaviour, outcome: Outcome) {
    b.CallNext? && Turned(b, outcome) == outcome
  }

  /** The outcome of the terminal step, an exception or not, reaches the caller through any
      middlewares that pass it on, whatever else they do. */
  lemma {:induction false} OutcomePropagates(chain: seq<Behaviour>, index: nat, terminal: Outcome)
    requires index <= |chain| && forall i :: index <= i < |chain| ==> Passes(chain[i], terminal)
    ensures RunFrom(chain, index, terminal).outcome == terminal
    decreases |chain| - index
  {
    if index < |chain| {
      OutcomePropagates(chain, index + 1, terminal);
      var b := chain[index];
      BodyEnding(chain, index, if terminal.Returned? then b.onReturn else b.onThrow, terminal);
    }
  }

  /** And a middleware that does not pass the outcome on, with all those outside it passing on what
      it makes of it, decides in its stead. */
  lemma {:induction false} InnermostCatchDecides(chain: seq<Behaviour>, index: nat, k: nat, terminal: Outcome)
    requires index <= k < |chain| && chain[k].CallNext?
    requires forall i :: k < i < |chain| ==> Passes(chain[i], terminal)
    requires forall i :: index <= i < k ==> Passes(chain[i], Turned(chain[k], terminal))
    ensures RunFrom(chain, index, terminal).outcome == Turned(chain[k], terminal)
    decreases k - index
  {
    var own := Turned(chain[k], terminal);
    if index == k {
      OutcomePropagates(chain, k + 1, terminal);
      BodyEnding(chain, k, if terminal.Returned? then chain[k].onReturn else chain[k].onThrow, terminal);
    } else {
      InnermostCatchDecides(chain, index + 1, k, terminal);
      BodyEnding(chain, index, if own.Returned? then chain[index].onReturn else chain[index].onThrow, terminal);
    }
  }

  /** Alone in front of the terminal step, a middleware that goes on as `next` ended passes its outcome on, and one
      that throws after a return and returns after a throw turns it round. */
  lemma OneMiddleware(terminal: Outcome)
    ensures RunFrom([CallNext(Return, Throw)], 0, terminal).outcome == terminal
    ensures RunFrom([CallNext(Throw, Return)], 0, terminal).outcome == if terminal.Returned? then Thrown else Returned
  {
    OneAlone(CallNext(Return, Throw), terminal);
    OneAlone(CallNext(Throw, Return), terminal);
  }

  lemma OneAlone(b: Behaviour, terminal: Outcome)
    requires b.CallNext?
    ensures RunFrom([b], 0, terminal).outcome == Ending(if terminal.Returned? then b.onReturn else b.onThrow)
  {
    assert RunFrom([b], 1, terminal).outcome == terminal;
    BodyEnding([b], 0, if terminal.Returned? then b.onReturn else b.onThrow, terminal);
  }

  // ---------------------------------------------------------------- the pipeline as written

  /** What one run leaves behind; the events are those of the chain. */
  class RunState {
    const chain: seq<Behaviour>
    const terminal: Outcome
    var trace: seq<Event>

    constructor (chain: seq<Behaviour>, terminal: Outcome)
      ensures this.chain == chain && this.terminal == terminal && trace == []
    {
      this.chain, this.terminal, trace := chain, terminal, [];
    }

    method Run() returns (outcome: Outcome)
      requires trace == []
      modifies this`trace
      ensures Ran(trace, outcome) == RunFrom(chain, 0, terminal)
    {
      outcome := Invoke(0);
    }

    method Invoke(index: nat) returns (outcome: Outcome)
      requires index <= |chain|
      modifies this`trace
      ensures var ran := RunFrom(chain, index, terminal);
              trace == old(trace) + ran.trace && outcome == ran.outcome
      decreases |chain| - index, 1, Return
    {
      if index == |chain| {
        trace := trace + [Terminal];
        return terminal;
      }
      trace := trace + [Enter(index)];
      outcome := RunBody(index, chain[index], false);
      trace := trace + [Exit(index)];
    }

    /** The rest of a middleware's body, `advanced` being what its `next` has recorded. */
    method RunBody(index: nat, rest: Behaviour, advanced: bool) returns (outcome: Outcome)
      requires index < |chain|
      modifies this`trace
      ensures var ran := Body(chain, index, rest, advanced, terminal);
              trace == old(trace) + ran.trace && outcome == ran.outcome
      decreases |chain| - index, 0, rest
    {
      match rest {
        case Return =>
          outcome := Returned;
        case Throw =>
          outcome := Thrown;
        case CallNext(onReturn, onThrow) =>
          if advanced {
            outcome := RunBody(index, onThrow, true);
          } else {
            var inner := Invoke(index + 1);
            outcome := RunBody(index, if inner.Returned? then onReturn else onThrow, true);
          }
      }
    }
  }
}
