/** The worker pool: enqueueing threads, workers and the destructor, one step for each section under
    the queue lock and one for the end of each task. */
module ThreadPool {
  import opened Counting

  /** A task is known by a number; the same work may be enqueued twice. */
  type Task = nat

  datatype Worker = Idle | Running(task: Task) | Exited

  /** `enqueued` and `started` list the tasks in the order of the queue lock, `finished` those
      that have returned. */
  datatype State = State(
    queue: seq<Task>,
    stopping: bool,
    workers: seq<Worker>,
    destroyed: bool,
    enqueued: seq<Task>,
    started: seq<Task>,
    finished: seq<Task>
  )

  datatype Event =
    | Enqueue(task: Task)
    | Refuse(task: Task)
    | Take(w: nat)
    | Finish(w: nat)
    | Leave(w: nat)
    | Stop
    | JoinAll

  /** A pool is never without workers. */
  function WorkerCount(threadCount: nat): (n: nat)
    ensures n >= 1 && (threadCount >= 1 ==> n == threadCount) && (threadCount == 0 ==> n == 1)
  {
    if threadCount == 0 then 1 else threadCount
  }

  ghost function Start(threadCount: nat): State {
    State([], false, seq(WorkerCount(threadCount), _ => Idle), false, [], [], [])
  }

  ghost predicate Enabled(s: State, e: Event) {
    match e
    case Enqueue(_) => !s.stopping
    case Refuse(_) => s.stopping
    case Take(w) => w < |s.workers| && s.workers[w].Idle? && s.queue != []
    case Finish(w) => w < |s.workers| && s.workers[w].Running?
    case Leave(w) => w < |s.workers| && s.workers[w].Idle? && s.stopping && s.queue == []
    case Stop => !s.stopping
    case JoinAll => s.stopping && !s.destroyed && forall w :: 0 <= w < |s.workers| ==> s.workers[w].Exited?
  }

  ghost function Apply(s: State, e: Event): State
    requires Enabled(s, e)
  {
    match e
    case Enqueue(t) => s.(queue := s.queue + [t], enqueued := s.enqueued + [t])
    case Refuse(_) => s
    case Take(w) =>
      s.(queue := s.queue[1..], workers := s.workers[w := Running(s.queue[0])], started := s.started + [s.queue[0]])
    case Finish(w) =>
      s.(workers := s.workers[w := Idle], finished := s.finished + [s.workers[w].task])
    case Leave(w) => s.(workers := s.workers[w := Exited])
    case Stop => s.(stopping := true)
    case JoinAll => s.(destroyed := true)
  }

  // ---------------------------------------------------------------- the invariant

  /** How many workers are running it. */
  ghost function Busy(ws: seq<Worker>, t: Task): nat {
    if ws == [] then 0 else Busy(ws[..|ws| - 1], t) + Runs(ws[|ws| - 1], t)
  }

  ghost function Runs(w: Worker, t: Task): nat {
    if w == Running(t) then 1 else 0
  }

  lemma {:induction false} BusyUpdate(ws: seq<Worker>, i: nat, w: Worker, t: Task)
    requires i < |ws|
    ensures Busy(ws[i := w], t) + Runs(ws[i], t) == Busy(ws, t) + Runs(w, t)
    decreases |ws|
  {
    var n := |ws| - 1;
    if i == n {
      assert ws[i := w][..n] == ws[..n];
    } else {
      assert ws[i := w][..n] == ws[..n][i := w];
      BusyUpdate(ws[..n], i, w, t);
    }
  }

  lemma {:induction false} NoneRunning(ws: seq<Worker>, t: Task)
    requires forall w :: 0 <= w < |ws| ==> !ws[w].Running?
    ensures Busy(ws, t) == 0
    decreases |ws|
  {
    if ws != [] { NoneRunning(ws[..|ws| - 1], t); }
  }

  /** Every start of a task is running on a worker or finished. */
  ghost predicate Conserved(s: State) {
    forall t :: Times(s.started, t) == Times(s.finished, t) + Busy(s.workers, t)
  }

  ghost predicate Inv(s: State) {
    && |s.workers| >= 1
    && s.started + s.queue == s.enqueued
    && Conserved(s)
    && (forall w :: 0 <= w < |s.workers| && s.workers[w].Exited? ==> s.stopping && s.queue == [])
    && (s.destroyed ==> s.stopping && forall w :: 0 <= w < |s.workers| ==> s.workers[w].Exited?)
  }

  lemma StepConserves(s: State, e: Event)
    requires Conserved(s) && Enabled(s, e)
    ensures Conserved(Apply(s, e))
  {
    var s' := Apply(s, e);
    forall t ensures Times(s'.started, t) == Times(s'.finished, t) + Busy(s'.workers, t) {
      match e
      case Take(w) =>
        BusyUpdate(s.workers, w, Running(s.queue[0]), t);
        TimesSnoc(s.started, s.queue[0], t);
      case Finish(w) =>
        BusyUpdate(s.workers, w, Idle, t);
        TimesSnoc(s.finished, s.workers[w].task, t);
      case Leave(w) =>
        BusyUpdate(s.workers, w, Exited, t);
      case _ =>
    }
  }

  lemma StepKeepsOrder(s: State, e: Event)
    requires s.started + s.queue == s.enqueued && Enabled(s, e)
    ensures Apply(s, e).started + Apply(s, e).queue == Apply(s, e).enqueued
  {
    if e.Enqueue? {
      assert s.started + (s.queue + [e.task]) == s.started + s.queue + [e.task];
    } else if e.Take? {
      assert s.started + [s.queue[0]] + s.queue[1..] == s.started + s.queue;
    }
  }

  lemma StepKeepsInv(s: State, e: Event)
    requires Inv(s) && Enabled(s, e)
    ensures Inv(Apply(s, e))
  {
    StepConserves(s, e);
    StepKeepsOrder(s, e);
  }

  // ---------------------------------------------------------------- runs

  ghost predicate IsStep(s: State, e: Event, t: State) {
    Enabled(s, e) && t == Apply(s, e)
  }

  ghost predicate IsRun(threadCount: nat, events: seq<Event>, states: seq<State>) {
    && |states| == |events| + 1
    && states[0] == Start(threadCount)
    && forall i :: 0 <= i < |events| ==> IsStep(states[i], events[i], states[i + 1])
  }

  lemma {:induction false} RunKeepsInv(threadCount: nat, events: seq<Event>, states: seq<State>, i: nat)
    requires IsRun(threadCount, events, states) && i <= |events|
    ensures Inv(states[i])
  {
    if i == 0 {
      forall t ensures Busy(states[0].workers, t) == 0 { NoneRunning(states[0].workers, t); }
    } else {
      RunKeepsInv(threadCount, events, states, i - 1);
      assert IsStep(states[i - 1], events[i - 1], states[i]);
      StepKeepsInv(states[i - 1], events[i - 1]);
    }
  }

  /** The tasks enqueued in the first `i` events. */
  ghost function EnqueuedBy(events: seq<Event>, i: nat): seq<Task>
    requires i <= |events|
  {
    if i == 0 then []
    else if events[i - 1].Enqueue? then EnqueuedBy(events, i - 1) + [events[i - 1].task]
    else EnqueuedBy(events, i - 1)
  }

  lemma {:induction false} EnqueuedIsHistory(threadCount: nat, events: seq<Event>, states: seq<State>, i: nat)
    requires IsRun(threadCount, events, states) && i <= |events|
    ensures states[i].enqueued == EnqueuedBy(events, i)
  {
    if i > 0 {
      EnqueuedIsHistory(threadCount, events, states, i - 1);
      assert IsStep(states[i - 1], events[i - 1], states[i]);
    }
  }

  /** Tasks start in the order they were enqueued, each at most once, and every started task is
      either running on one worker or finished. */
  lemma StartsInOrder(threadCount: nat, events: seq<Event>, states: seq<State>, i: nat)
    requires IsRun(threadCount, events, states) && i <= |events|
    ensures var s := states[i];
            && s.started <= EnqueuedBy(events, i)
            && s.queue == EnqueuedBy(events, i)[|s.started|..]
            && forall t :: Times(s.started, t) == Times(s.finished, t) + Busy(s.workers, t)
  {
    RunKeepsInv(threadCount, events, states, i);
    EnqueuedIsHistory(threadCount, events, states, i);
  }

  /** When the destructor returns the queue is empty and every task ever enqueued has run to its
      end, exactly once. */
  lemma DestructorDrains(threadCount: nat, events: seq<Event>, states: seq<State>, i: nat)
    requires IsRun(threadCount, events, states) && i <= |events| && states[i].destroyed
    ensures states[i].queue == []
    ensures states[i].started == EnqueuedBy(events, i)
    ensures forall t :: Times(states[i].finished, t) == Times(EnqueuedBy(events, i), t)
  {
    var s := states[i];
    RunKeepsInv(threadCount, events, states, i);
    EnqueuedIsHistory(threadCount, events, states, i);
    assert s.workers[0].Exited?;
    assert s.started + [] == s.started;
    forall t ensures Times(s.finished, t) == Times(s.started, t) { NoneRunning(s.workers, t); }
  }

  // ---------------------------------------------------------------- shutdown terminates

  ghost function Load(ws: seq<Worker>): nat {
    if ws == [] then 0
    else Load(ws[..|ws| - 1]) + WorkerLoad(ws[|ws| - 1])
  }

  ghost function WorkerLoad(w: Worker): nat {
    match w case Idle => 1 case Running(_) => 2 case Exited => 0
  }

  lemma {:induction false} LoadUpdate(ws: seq<Worker>, i: nat, w: Worker)
    requires i < |ws|
    ensures Load(ws[i := w]) + WorkerLoad(ws[i]) == Load(ws) + WorkerLoad(w)
    decreases |ws|
  {
    var n := |ws| - 1;
    if i == n {
      assert ws[i := w][..n] == ws[..n];
    } else {
      assert ws[i := w][..n] == ws[..n][i := w];
      LoadUpdate(ws[..n], i, w);
    }
  }

  /** What is left to do. */
  ghost function Work(s: State): nat {
    2 * |s.queue| + Load(s.workers)
  }

  ghost predicate IsWorkerEvent(e: Event) {
    e.Take? || e.Finish? || e.Leave?
  }

  lemma WorkShrinks(s: State, e: Event)
    requires s.stopping && Enabled(s, e)
    ensures Apply(s, e).stopping
    ensures Work(Apply(s, e)) + (if IsWorkerEvent(e) then 1 else 0) <= Work(s)
  {
    match e
    case Take(w) => LoadUpdate(s.workers, w, Running(s.queue[0]));
    case Finish(w) => LoadUpdate(s.workers, w, Idle);
    case Leave(w) => LoadUpdate(s.workers, w, Exited);
    case _ =>
  }

  ghost function WorkerEvents(events: seq<Event>, i: nat, j: nat): nat
    requires i <= j <= |events|
    decreases j
  {
    if i == j then 0
    else WorkerEvents(events, i, j - 1) + if IsWorkerEvent(events[j - 1]) then 1 else 0
  }

  /** Once the pool is stopping, the workers have a bounded number of steps left. */
  lemma {:induction false} ShutdownBound(threadCount: nat, events: seq<Event>, states: seq<State>, i: nat, j: nat)
    requires IsRun(threadCount, events, states) && i <= j <= |events| && states[i].stopping
    ensures states[j].stopping && Work(states[j]) + WorkerEvents(events, i, j) <= Work(states[i])
    decreases j
  {
    if i < j {
      ShutdownBound(threadCount, events, states, i, j - 1);
      assert IsStep(states[j - 1], events[j - 1], states[j]);
      WorkShrinks(states[j - 1], events[j - 1]);
    }
  }

  /** And while the destructor has not returned, a worker or the destructor can go on. */
  lemma ShutdownGoesOn(s: State)
    requires s.stopping && !s.destroyed
    ensures Enabled(s, JoinAll) || exists e :: IsWorkerEvent(e) && Enabled(s, e)
  {
    if w :| 0 <= w < |s.workers| && !s.workers[w].Exited? {
      var e := if s.workers[w].Running? then Finish(w) else if s.queue != [] then Take(w) else Leave(w);
      assert IsWorkerEvent(e) && Enabled(s, e);
    }
  }
}
