/** The double-buffered logger: producers, flushers, one writer thread and the destructor, one step
    for each section under the lock and one for each write outside it. */
module AsyncLogger {

  datatype Level = INFO | WARN | ERROR

  /** The timestamp is kept as the text it is printed as. */
  datatype Record = Record(timestamp: string, level: Level, requestId: string, message: string)

  /** Where the writer is in its loop; a batch and the stop flag are its own. */
  datatype Writer =
    | Waiting
    | Writing(batch: seq<Record>, stop: bool)
    | Written(stop: bool)
    | Exited

  datatype Destructor =
    | Alive
    | Joining
    | Remaining(first: seq<Record>, second: seq<Record>)
    | Second(second: seq<Record>)
    | Destroyed

  type Caller = nat

  /** `accepted` lists the records in the order the lock admitted them, `written` what was written;
      `flushers` are the calls blocked in `flush`. */
  datatype State = State(
    buffers: seq<seq<Record>>,
    active: nat,
    flushRequested: bool,
    stopping: bool,
    writer: Writer,
    destructor: Destructor,
    flushers: set<Caller>,
    accepted: seq<Record>,
    written: seq<Record>
  )

  datatype Event =
    | Log(record: Record)
    | FlushCall(caller: Caller)
    | FlushReturn(caller: Caller)
    | Swap
    | WriteBatch
    | CheckFlush
    | Stop
    | JoinAndTake
    | WriteFirst
    | WriteSecond

  const START := State([[], []], 0, false, false, Waiting, Alive, {}, [], [])

  /** Two buffers, one of them active. */
  ghost predicate Shape(s: State) {
    |s.buffers| == 2 && s.active < 2
  }

  /** Callers may still come in until the destructor has taken what is left. */
  predicate Open(s: State) {
    s.destructor.Alive? || s.destructor.Joining?
  }

  ghost predicate Enabled(s: State, e: Event) {
    match e
    case Log(_) => Open(s)
    case FlushCall(c) => Open(s) && c !in s.flushers
    case FlushReturn(c) => c in s.flushers && !s.flushRequested
    case Swap => s.writer.Waiting?
    case WriteBatch => s.writer.Writing?
    case CheckFlush => s.writer.Written?
    case Stop => s.destructor.Alive?
    case JoinAndTake => s.destructor.Joining? && s.writer.Exited?
    case WriteFirst => s.destructor.Remaining?
    case WriteSecond => s.destructor.Second?
  }

  ghost function Apply(s: State, e: Event): State
    requires Shape(s) && Enabled(s, e)
  {
    match e
    case Log(r) => s.(buffers := s.buffers[s.active := s.buffers[s.active] + [r]], accepted := s.accepted + [r])
    case FlushCall(c) => s.(flushRequested := true, flushers := s.flushers + {c})
    case FlushReturn(c) => s.(flushers := s.flushers - {c})
    case Swap =>
      s.(buffers := s.buffers[s.active := []], active := 1 - s.active,
         writer := Writing(s.buffers[s.active], s.stopping))
    case WriteBatch => s.(written := s.written + s.writer.batch, writer := Written(s.writer.stop))
    case CheckFlush =>
      s.(flushRequested := s.flushRequested && (s.buffers[0] != [] || s.buffers[1] != []),
         writer := if s.writer.stop then Exited else Waiting)
    case Stop => s.(stopping := true, destructor := Joining)
    case JoinAndTake => s.(buffers := [[], []], destructor := Remaining(s.buffers[0], s.buffers[1]))
    case WriteFirst => s.(written := s.written + s.destructor.first, destructor := Second(s.destructor.second))
    case WriteSecond => s.(written := s.written + s.destructor.second, destructor := Destroyed)
  }

  // ---------------------------------------------------------------- the invariant

  /** What the writer or the destructor has taken out of the buffers and not written yet. */
  ghost function InHand(s: State): seq<Record> {
    (if s.writer.Writing? then s.writer.batch else [])
    + (match s.destructor
       case Remaining(first, second) => first + second
       case Second(second) => second
       case _ => [])
  }

  ghost predicate Inv(s: State) {
    && Shape(s)
    && s.written + InHand(s) + s.buffers[s.active] == s.accepted
    && s.buffers[1 - s.active] == []
    && (Open(s) || s.writer.Exited?)
    && (s.stopping <==> !s.destructor.Alive?)
    && (!Open(s) ==> s.buffers[s.active] == [])
  }

  lemma StepKeepsInv(s: State, e: Event)
    requires Inv(s) && Enabled(s, e)
    ensures Inv(Apply(s, e))
  {
    match e
    case Log(r) => LogKeepsInv(s, r);
    case Swap => SwapKeepsInv(s);
    case WriteBatch => WriteKeepsInv(s);
    case JoinAndTake => TakeKeepsInv(s);
    case WriteFirst => WriteFirstKeepsInv(s);
    case WriteSecond => WriteSecondKeepsInv(s);
    case _ =>
  }

  lemma LogKeepsInv(s: State, r: Record)
    requires Inv(s) && Enabled(s, Log(r))
    ensures Inv(Apply(s, Log(r)))
  {
    Regroup(s.written + InHand(s), s.buffers[s.active], [r]);
  }

  lemma SwapKeepsInv(s: State)
    requires Inv(s) && Enabled(s, Swap)
    ensures Inv(Apply(s, Swap))
  {
    assert InHand(s) == [] && InHand(Apply(s, Swap)) == s.buffers[s.active] + [];
  }

  lemma WriteKeepsInv(s: State)
    requires Inv(s) && Enabled(s, WriteBatch)
    ensures Inv(Apply(s, WriteBatch))
  {
    assert InHand(s) == s.writer.batch + [] && InHand(Apply(s, WriteBatch)) == [];
  }

  lemma TakeKeepsInv(s: State)
    requires Inv(s) && Enabled(s, JoinAndTake)
    ensures Inv(Apply(s, JoinAndTake))
  {
    var left := s.buffers[s.active];
    BothBuffers(s);
    NothingAround(s.written, []);
    NothingAround(s.written, left);
    assert InHand(s) == [] + [] && InHand(Apply(s, JoinAndTake)) == [] + left;
    assert s.written + [] == s.written;
  }

  lemma BothBuffers(s: State)
    requires Inv(s)
    ensures s.buffers[0] + s.buffers[1] == s.buffers[s.active]
  {
    if s.active == 0 { assert s.buffers[0] + [] == s.buffers[0]; } else { assert [] + s.buffers[1] == s.buffers[1]; }
  }

  lemma SecondInHand(s: State)
    requires Inv(s) && s.destructor.Second?
    ensures InHand(s) == [] + s.destructor.second && s.buffers[s.active] == []
    ensures InHand(Apply(s, WriteSecond)) == [] + []
  {}

  lemma WrittenOut(w: seq<Record>, second: seq<Record>, all: seq<Record>)
    requires w + ([] + second) + [] == all
    ensures w + second + ([] + []) + [] == all
  {
    NothingAround(w, second);
    NothingAround(w + second, []);
    assert w + second + [] == w + second;
  }

  lemma NothingAround(a: seq<Record>, b: seq<Record>)
    ensures a + ([] + b) + [] == a + b
  {}

  lemma WriteFirstKeepsInv(s: State)
    requires Inv(s) && Enabled(s, WriteFirst)
    ensures Inv(Apply(s, WriteFirst))
  {
    Regroup(s.written, s.destructor.first, s.destructor.second);
  }

  lemma WriteSecondKeepsInv(s: State)
    requires Inv(s) && Enabled(s, WriteSecond)
    ensures Inv(Apply(s, WriteSecond))
  {
    SecondInHand(s);
    WrittenOut(s.written, s.destructor.second, s.accepted);
  }

  lemma Regroup(a: seq<Record>, b: seq<Record>, c: seq<Record>)
    ensures a + (b + c) == a + b + c
  {}

  // ---------------------------------------------------------------- runs

  /** `states` are the states a run of `events` goes through. */
  ghost predicate IsRun(events: seq<Event>, states: seq<State>) {
    && |states| == |events| + 1
    && states[0] == START
    && forall i :: 0 <= i < |events| ==> IsStep(states[i], events[i], states[i + 1])
  }

  ghost predicate IsStep(s: State, e: Event, t: State) {
    Shape(s) && Enabled(s, e) && t == Apply(s, e)
  }

  lemma {:induction false} RunKeepsInv(events: seq<Event>, states: seq<State>, i: nat)
    requires IsRun(events, states) && i <= |events|
    ensures Inv(states[i])
  {
    if i > 0 {
      RunKeepsInv(events, states, i - 1);
      assert IsStep(states[i - 1], events[i - 1], states[i]);
      StepKeepsInv(states[i - 1], events[i - 1]);
    }
  }

  /** At every moment of every run the records written are the first ones accepted, in order, each
      once; whatever is missing is in hand or in the active buffer, and the other buffer is empty. */
  lemma WrittenIsPrefix(events: seq<Event>, states: seq<State>, i: nat)
    requires IsRun(events, states) && i <= |events|
    ensures var s := states[i];
            && Shape(s) && s.written <= s.accepted
            && s.accepted == s.written + InHand(s) + s.buffers[s.active]
            && s.buffers[1 - s.active] == []
  {
    RunKeepsInv(events, states, i);
  }

  /** The destructor leaves every record written, once and in order. */
  lemma DestructorWritesAll(events: seq<Event>, states: seq<State>, i: nat)
    requires IsRun(events, states) && i <= |events| && states[i].destructor.Destroyed?
    ensures states[i].written == states[i].accepted
  {
    RunKeepsInv(events, states, i);
    DestroyedHasWritten(states[i]);
  }

  lemma DestroyedHasWritten(s: State)
    requires Inv(s) && s.destructor.Destroyed?
    ensures s.written == s.accepted
  {
    assert InHand(s) == [];
  }

  // ---------------------------------------------------------------- flush

  /** `caller` is blocked in a `flush` that began when `mark` was accepted. */
  ghost predicate Waits(s: State, caller: Caller, mark: seq<Record>) {
    && caller in s.flushers && mark <= s.accepted
    && (!s.flushRequested ==> mark <= s.written)
  }

  lemma StepKeepsWaiting(s: State, e: Event, caller: Caller, mark: seq<Record>)
    requires Inv(s) && Enabled(s, e) && Waits(s, caller, mark) && e != FlushReturn(caller)
    ensures Waits(Apply(s, e), caller, mark)
  {
    if e == CheckFlush && !Apply(s, e).flushRequested && s.flushRequested {
      assert s.buffers[s.active] == [] && InHand(s) == [];
    }
  }

  lemma {:induction false} StillWaiting(events: seq<Event>, states: seq<State>, i: nat, j: nat, caller: Caller)
    requires IsRun(events, states) && i < j <= |events| && events[i] == FlushCall(caller)
    requires forall k :: i < k < j ==> events[k] != FlushReturn(caller)
    ensures Waits(states[j], caller, states[i].accepted)
    decreases j
  {
    RunKeepsInv(events, states, j - 1);
    assert IsStep(states[j - 1], events[j - 1], states[j]);
    if j > i + 1 {
      StillWaiting(events, states, i, j - 1, caller);
      StepKeepsWaiting(states[j - 1], events[j - 1], caller, states[i].accepted);
    }
  }

  /** `flush` returns only after everything accepted before it was called is written, in order. */
  lemma FlushIsSynchronous(events: seq<Event>, states: seq<State>, i: nat, j: nat, caller: Caller)
    requires IsRun(events, states) && i < j < |events|
    requires events[i] == FlushCall(caller) && events[j] == FlushReturn(caller)
    requires forall k :: i < k < j ==> events[k] != FlushReturn(caller)
    ensures states[i].accepted <= states[j].written
  {
    StillWaiting(events, states, i, j, caller);
    assert IsStep(states[j], events[j], states[j + 1]);
  }

  // ---------------------------------------------------------------- the writer alone

  /** The step the writer takes next, whoever else is waiting. */
  ghost function WriterEvent(s: State): Event
    requires !s.writer.Exited?
  {
    match s.writer
    case Waiting => Swap
    case Writing(_, _) => WriteBatch
    case Written(_) => CheckFlush
  }

  ghost function WriterSteps(s: State, n: nat): State
    requires Inv(s)
    decreases n
  {
    if n == 0 || s.writer.Exited? then s
    else
      StepKeepsInv(s, WriterEvent(s));
      WriterSteps(Apply(s, WriterEvent(s)), n - 1)
  }

  lemma RoundBegins(s: State)
    requires Inv(s) && s.writer.Waiting?
    ensures Inv(Apply(s, Swap)) && WriterSteps(s, 3) == WriterSteps(Apply(s, Swap), 2)
  {
    StepKeepsInv(s, Swap);
  }

  lemma RoundEnds(s: State)
    requires Inv(s) && s.writer.Writing?
    ensures WriterSteps(s, 2) == Apply(Apply(s, WriteBatch), CheckFlush)
  {
    StepKeepsInv(s, WriteBatch);
    var s' := Apply(s, WriteBatch);
    StepKeepsInv(s', CheckFlush);
    assert WriterSteps(s, 2) == WriterSteps(s', 1) == WriterSteps(Apply(s', CheckFlush), 0);
  }

  /** A round that begins with the swap answers every flush. */
  lemma {:induction false} RoundAnswers(s: State)
    requires Inv(s) && s.writer.Waiting?
    ensures !WriterSteps(s, 3).flushRequested
  {
    RoundBegins(s);
    RoundEnds(Apply(s, Swap));
  }

  /** With nobody logging, a pending flush is answered at the latest by the round after the current
      one, unless the current one is the writer's last. */
  lemma FlushAnswered(s: State)
    requires Inv(s) && (s.writer.Waiting? || (!s.writer.Exited? && !s.writer.stop))
    ensures var n := if s.writer.Waiting? then 3 else if s.writer.Written? then 4 else 5;
            !WriterSteps(s, n).flushRequested
  {
    if s.writer.Waiting? {
      RoundAnswers(s);
    } else {
      var s1 := Apply(s, WriterEvent(s));
      StepKeepsInv(s, WriterEvent(s));
      if s.writer.Written? {
        RoundAnswers(s1);
      } else {
        StepKeepsInv(s1, CheckFlush);
        RoundAnswers(Apply(s1, CheckFlush));
        assert WriterSteps(s1, 4) == WriterSteps(Apply(s1, CheckFlush), 3);
      }
    }
  }

  ghost predicate Answered(s: State, n: nat)
    requires Inv(s)
  {
    !WriterSteps(s, n).flushRequested
  }

  /** In the writer's last round a flush is answered only by the check that ends it. */
  lemma LastRound(s: State, n: nat)
    requires Inv(s) && s.flushRequested && !s.writer.Waiting? && (s.writer.Exited? || s.writer.stop)
    ensures Answered(s, n) ==> !s.writer.Exited? && s.buffers[s.active] == []
    ensures n >= 2 && !s.writer.Exited? && s.buffers[s.active] == [] ==> Answered(s, n)
  {
    match s.writer
    case Exited => NoMoreSteps(s, n);
    case Writing(_, _) => AtLastWrite(s, n);
    case Written(_) => AtLastCheck(s, n);
  }

  lemma NoMoreSteps(s: State, n: nat)
    requires Inv(s) && s.flushRequested && s.writer.Exited?
    ensures !Answered(s, n)
  {
    assert WriterSteps(s, n) == s;
  }

  lemma AtLastWrite(s: State, n: nat)
    requires Inv(s) && s.flushRequested && s.writer.Writing? && s.writer.stop
    ensures Answered(s, n) <==> n >= 2 && s.buffers[s.active] == []
  {
    if n > 0 {
      StepKeepsInv(s, WriteBatch);
      AtLastCheck(Apply(s, WriteBatch), n - 1);
      assert WriterSteps(s, n) == WriterSteps(Apply(s, WriteBatch), n - 1);
    } else {
      assert WriterSteps(s, n) == s;
    }
  }

  lemma AtLastCheck(s: State, n: nat)
    requires Inv(s) && s.flushRequested && s.writer.Written? && s.writer.stop
    ensures Answered(s, n) <==> n >= 1 && s.buffers[s.active] == []
  {
    if n > 0 {
      StepKeepsInv(s, CheckFlush);
      assert WriterSteps(s, n) == WriterSteps(Apply(s, CheckFlush), n - 1) == Apply(s, CheckFlush);
      assert s.buffers[0] == s.buffers[s.active] || s.buffers[1] == s.buffers[s.active];
    }
  }

  /** With nobody logging, the writer answers a pending flush if and only if it is not in its last
      round or nothing is left in the active buffer; after its last round never. */
  lemma FlushAnsweredIff(s: State)
    requires Inv(s) && s.flushRequested
    ensures (exists n: nat :: Answered(s, n)) <==>
            s.writer.Waiting? || (!s.writer.Exited? && (!s.writer.stop || s.buffers[s.active] == []))
  {
    if s.writer.Waiting? || (!s.writer.Exited? && !s.writer.stop) {
      FlushAnswered(s);
      assert Answered(s, if s.writer.Waiting? then 3 else if s.writer.Written? then 4 else 5);
    } else {
      LastRound(s, 2);
      forall n: nat | Answered(s, n) ensures !s.writer.Exited? && s.buffers[s.active] == [] { LastRound(s, n); }
    }
  }
}
