/**
 The pool object itself. Each method is one critical section or one notification of the source and is
 proved to be exactly the corresponding step of the protocol, so that it keeps the protocol's invariant.
 `RunToReturn` lets these methods act in an arbitrary order, and `Shutdown` is the call built from them.
 */
module ThreadPool {
  import P = ThreadPoolProtocol
  import G = ThreadPoolGuarantees

  /** `tasks` and `stopping` are the guarded fields; `workers`, `notifies` and `caller` say where the
      threads of the workers, of the submitters and of the closing caller stand. */
  class ThreadPool<T(==)> {
    var tasks: seq<T>
    var stopping: bool
    var workers: seq<P.Worker<T>>
    var notifies: nat
    var caller: P.Caller
    ghost var accepted: seq<T>
    ghost var dequeued: seq<T>
    ghost var finished: seq<T>

    ghost function View(): P.Pool<T>
      reads this
    {
      P.Pool(tasks, stopping, workers, notifies, caller, accepted, dequeued, finished)
    }

    ghost predicate Valid()
      reads this
    {
      P.Invariant(View())
    }

    /** Starts the workers, at least one; each begins by going for the mutex. */
    constructor (workerCount: nat)
      ensures Valid() && View() == P.Initial(workerCount)
      ensures |workers| == if workerCount < 1 then 1 else workerCount
    {
      var count := if workerCount < 1 then 1 else workerCount;
      var started: seq<P.Worker<T>> := [];
      while |started| < count
        invariant |started| <= count
        invariant forall i :: 0 <= i < |started| ==> started[i] == P.Locking
      {
        started := started + [P.Locking];
      }
      tasks, stopping, workers := [], false, started;
      notifies, caller, accepted, dequeued, finished := 0, P.Idle, [], [], [];
      new;
      P.ReachableInvariant<T>(workerCount, []);
    }

    /** The locked part of `submit`; `ok` is false where the source throws. */
    method Submit(task: T) returns (ok: bool)
      requires Valid() && task !in accepted
      modifies this
      ensures Valid() && View() == P.Next(old(View()), P.Submit(task))
      ensures ok == !old(stopping)
      ensures ok ==> tasks == old(tasks) + [task]
      ensures !ok ==> View() == old(View())
    {
      P.StepKeepsInvariant(View(), P.Submit(task));
      ok := !stopping;
      if ok {
        tasks := tasks + [task];
        accepted := accepted + [task];
        notifies := notifies + 1;
      }
    }

    /** `notify_one` after the mutex is released: wakes some sleeper if there is one. */
    method NotifyOne() returns (ghost step: P.Step<T>)
      requires Valid() && notifies > 0
      modifies this
      ensures step.NotifyOne? || step.NotifyNobody?
      ensures P.Enabled(old(View()), step) && Valid() && View() == P.Next(old(View()), step)
    {
      var w := 0;
      while w < |workers| && workers[w] != P.Asleep
        invariant w <= |workers|
        invariant forall i :: 0 <= i < w ==> !workers[i].Asleep?
      {
        w := w + 1;
      }
      step := if w < |workers| then P.NotifyOne(w) else P.NotifyNobody;
      P.StepKeepsInvariant(View(), step);
      if w < |workers| {
        workers := workers[w := P.Locking];
      }
      notifies := notifies - 1;
    }

    /** A sleeper wakes without having been notified. */
    method WakeSpuriously(w: nat)
      requires Valid() && w < |workers| && workers[w].Asleep?
      modifies this`workers
      ensures Valid() && View() == P.Next(old(View()), P.Wake(w))
    {
      P.StepKeepsInvariant(View(), P.Wake(w));
      workers := workers[w := P.Locking];
    }

    /** One pass of `worker_loop` under the mutex, up to the moment it is released: the worker falls
        asleep, leaves the loop, or takes the first task, which nobody has taken before. */
    method WorkerLoop(w: nat)
      requires Valid() && w < |workers| && workers[w].Locking?
      modifies this
      ensures Valid() && View() == P.Next(old(View()), P.Lock(w))
      ensures old(tasks) == [] && !old(stopping) ==> workers[w] == P.Asleep
      ensures old(tasks) == [] && old(stopping) ==> workers[w] == P.Exited
      ensures old(tasks) != [] ==> workers[w] == P.Running(old(tasks)[0]) && tasks == old(tasks)[1..]
      ensures old(tasks) != [] ==> old(tasks)[0] !in old(dequeued) && old(tasks)[0] !in finished
    {
      P.StepKeepsInvariant(View(), P.Lock(w));
      if !(stopping || tasks != []) {
        workers := workers[w := P.Asleep];
      } else if tasks == [] {
        workers := workers[w := P.Exited];
      } else {
        var task := tasks[0];
        assert accepted[|dequeued|] == task && forall i :: 0 <= i < |dequeued| ==> accepted[i] == dequeued[i];
        tasks := tasks[1..];
        dequeued := dequeued + [task];
        workers := workers[w := P.Running(task)];
      }
    }

    /** The task returns and the worker goes round its loop. The task had not finished before, has
        finished exactly once now, and runs nowhere. */
    method FinishTask(w: nat)
      requires Valid() && w < |workers| && workers[w].Running?
      modifies this
      ensures Valid() && View() == P.Next(old(View()), P.Finish(w))
      ensures old(workers[w].task !in finished) && multiset(finished)[old(workers[w].task)] == 1
      ensures !P.IsRunning(View(), old(workers[w].task))
    {
      P.StepKeepsInvariant(View(), P.Finish(w));
      finished := finished + [workers[w].task];
      G.CountInDuplicateFree(finished, workers[w].task);
      workers := workers[w := P.Locking];
    }

    /** The locked part of `shutdown`; `first` is false where the source returns at once. */
    method BeginShutdown() returns (first: bool)
      requires Valid()
      modifies this
      ensures Valid() && View() == P.Next(old(View()), P.Shutdown)
      ensures stopping && first == !old(stopping)
    {
      P.StepKeepsInvariant(View(), P.Shutdown);
      first := !stopping;
      if first {
        stopping := true;
        caller := P.Notifying;
      }
    }

    /** `notify_all`: every sleeper goes for the mutex. */
    method NotifyAll()
      requires Valid() && caller.Notifying?
      modifies this
      ensures Valid() && View() == P.Next(old(View()), P.NotifyAll)
      ensures forall i :: 0 <= i < |workers| ==> !workers[i].Asleep?
    {
      P.StepKeepsInvariant(View(), P.NotifyAll);
      var w := 0;
      ghost var before := workers;
      while w < |workers|
        invariant w <= |workers| == |before|
        invariant forall i :: 0 <= i < w ==> workers[i] == P.WakeAll(before)[i]
        invariant forall i :: w <= i < |before| ==> workers[i] == before[i]
        modifies this`workers
      {
        if workers[w] == P.Asleep {
          workers := workers[w := P.Locking];
        }
        w := w + 1;
      }
      assert workers == P.WakeAll(before);
      caller := P.Joining(0);
    }

    /** One turn of the join loop, which waits for worker `next` to exit, or the return after the
        last one, when the pool is drained. */
    method Join(next: nat) returns (done: bool)
      requires Valid() && caller == P.Joining(next)
      requires next < |workers| ==> workers[next].Exited?
      modifies this`caller
      ensures Valid() && View() == P.Next(old(View()), P.Join)
      ensures done <==> caller.Returned?
      ensures done ==> G.ShutDown(View())
    {
      P.StepKeepsInvariant(View(), P.Join);
      done := next >= |workers|;
      caller := if done then P.Returned else P.Joining(next + 1);
      if done {
        G.ExitedMeansShutDown(View());
      }
    }

    /** Some thread acts, while the closing call has not returned. Whoever can may be the one, a sleeper
        by a spurious wake-up too; the choice is left open. */
    method SomeoneActs() returns (ghost step: P.Step<T>)
      requires Valid() && stopping && !caller.Returned?
      modifies this
      ensures G.IsPoolStep(step) && P.Enabled(old(View()), step)
      ensures Valid() && View() == P.Next(old(View()), step)
    {
      step := G.ShutdownNeverStuck(View());
      if
      case notifies > 0 =>
        step := NotifyOne();
      case caller.Notifying? =>
        step := P.NotifyAll;
        NotifyAll();
      case w :| 0 <= w < |workers| && workers[w].Asleep? =>
        step := P.Wake(w);
        WakeSpuriously(w);
      case w :| 0 <= w < |workers| && workers[w].Locking? =>
        step := P.Lock(w);
        WorkerLoop(w);
      case w :| 0 <= w < |workers| && workers[w].Running? =>
        step := P.Finish(w);
        FinishTask(w);
      case caller.Joining? && (caller.next < |workers| ==> workers[caller.next].Exited?) =>
        step := P.Join;
        var done := Join(caller.next);
    }

    /** The threads after the stop, until the closing call has returned: every schedule of them ends, and
        ends with all accepted tasks finished exactly once. */
    method RunToReturn()
      requires Valid() && stopping
      modifies this
      ensures Valid() && stopping && caller.Returned?
      ensures accepted == old(accepted) && G.ShutDown(View())
    {
      while !caller.Returned?
        invariant Valid() && stopping && accepted == old(accepted)
        decreases G.Measure(View())
      {
        hide P.Invariant, G.Measure;
        ghost var before := View();
        ghost var step := SomeoneActs();
        G.PoolStepsDecreaseMeasure(before, step);
      }
      G.ExitedMeansShutDown(View());
    }

    /** The whole call: the first one returns when every accepted task has run exactly once and every
        worker is gone; a later one returns at once and leaves the pool as it is. */
    method Shutdown()
      requires Valid()
      modifies this
      ensures Valid() && stopping && accepted == old(accepted)
      ensures !old(stopping) ==> caller.Returned? && G.ShutDown(View())
      ensures old(stopping) ==> View() == old(View())
    {
      var first := BeginShutdown();
      if first {
        NotifyAll();
        RunToReturn();
      }
    }
  }
}
