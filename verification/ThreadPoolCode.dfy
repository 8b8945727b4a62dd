/** The pool's own code, section by section. */
module ThreadPoolCode {
  import opened ThreadPool

  lemma Regroup(a: seq<Task>, b: seq<Task>, c: seq<Task>)
    ensures a + (b + c) == a + b + c
  {}

  class Pool {
    var tasks: seq<Task>
    var stopping: bool
    const workerCount: nat

    ghost var workers: seq<Worker>
    ghost var destroyed: bool
    ghost var enqueued: seq<Task>
    ghost var started: seq<Task>
    ghost var finished: seq<Task>

    ghost function View(): State
      reads this
    {
      State(tasks, stopping, workers, destroyed, enqueued, started, finished)
    }

    ghost predicate Valid()
      reads this
    {
      Inv(View()) && |workers| == workerCount
    }

    constructor (threadCount: nat)
      ensures Valid() && View() == Start(threadCount)
    {
      var n := threadCount;
      if n == 0 {
        n := 1;
      }
      tasks, stopping, workerCount := [], false, n;
      workers, destroyed, enqueued, started, finished := seq(n, _ => Idle), false, [], [], [];
      new;
      forall t ensures Busy(workers, t) == 0 { NoneRunning(workers, t); }
    }

    /** False when the pool is shutting down; the source throws. */
    method Enqueue(task: Task) returns (accepted: bool)
      requires Valid()
      modifies this`tasks, this`enqueued
      ensures Valid() && accepted == !old(stopping)
      ensures View() == Apply(old(View()), if accepted then Event.Enqueue(task) else Refuse(task))
    {
      if stopping {
        return false;
      }
      StepKeepsInv(View(), Event.Enqueue(task));
      tasks := tasks + [task];
      enqueued := enqueued + [task];
      accepted := true;
    }

    /** What an idle worker does under the lock once its wait is over. */
    method NextTask(w: nat) returns (leave: bool, task: seq<Task>)
      requires Valid() && w < |workers| && workers[w].Idle? && (stopping || tasks != [])
      modifies this`tasks, this`workers, this`started
      ensures Valid() && leave == (old(tasks) == [])
      ensures View() == Apply(old(View()), if leave then Leave(w) else Take(w))
      ensures !leave ==> |task| == 1 && workers[w] == Running(task[0])
    {
      if stopping && tasks == [] {
        StepKeepsInv(View(), Leave(w));
        workers := workers[w := Exited];
        return true, [];
      }
      StepKeepsInv(View(), Take(w));
      leave, task := false, [tasks[0]];
      started := started + [tasks[0]];
      workers := workers[w := Running(tasks[0])];
      tasks := tasks[1..];
    }

    ghost method EndTask(w: nat)
      requires Valid() && w < |workers| && workers[w].Running?
      modifies this`workers, this`finished
      ensures Valid() && View() == Apply(old(View()), Finish(w))
    {
      StepKeepsInv(View(), Finish(w));
      finished := finished + [workers[w].task];
      workers := workers[w := Idle];
    }

    /** The loop of one worker of a pool that is shutting down while the others are busy: it runs
        whatever is queued, in order, and leaves. */
    method WorkerLoop(w: nat) returns (ran: seq<Task>)
      requires Valid() && w < |workers| && workers[w].Idle? && stopping
      modifies this`tasks, this`workers, this`started, this`finished
      ensures Valid() && tasks == [] && workers == old(workers)[w := Exited]
      ensures ran == old(tasks) && started == old(started) + ran
    {
      ran := [];
      while true
        invariant Valid() && stopping && workers == old(workers) && enqueued == old(enqueued)
        invariant ran + tasks == old(tasks) && started == old(started) + ran
        decreases |tasks|
      {
        ghost var before := tasks;
        var leave, task := NextTask(w);
        if leave {
          assert ran + [] == ran;
          return;
        }
        assert before == task + tasks;
        EndTask(w);
        Regroup(ran, task, tasks);
        ran := ran + task;
      }
    }

    method RequestStop()
      requires Valid() && !stopping
      modifies this`stopping
      ensures Valid() && View() == Apply(old(View()), Stop)
    {
      StepKeepsInv(View(), Stop);
      stopping := true;
    }
  }
}
