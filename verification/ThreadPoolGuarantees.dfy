/** What the pool promises its users, for every run of the protocol. */
module ThreadPoolGuarantees {
  import opened Sequences
  import opened ThreadPoolProtocol

  // Safety

  /** No wake-up is lost: a queued task is never left to a sleeping worker alone, and once the stop
      flag is set a worker can only be asleep while the closing `notify_all` is still to come. */
  lemma NoLostWakeUps<T>(workerCount: nat, steps: seq<Step<T>>)
    requires ValidRun(Initial(workerCount), steps)
    ensures var p := Exec(Initial(workerCount), steps);
            && (SomeoneAsleep(p) ==> |p.tasks| <= p.notifies + Total(p.workers, 0, 1, 0))
            && (p.stopping ==> p.caller.Notifying? || !SomeoneAsleep(p))
  {
    ReachableInvariant(workerCount, steps);
  }

  /** Tasks are taken in the order of acceptance; whoever was taken is running on exactly one worker
      or has finished exactly once, and nothing else ever runs. */
  lemma TakenInOrderAndRunOnce<T>(workerCount: nat, steps: seq<Step<T>>)
    requires ValidRun(Initial(workerCount), steps)
    ensures var p := Exec(Initial(workerCount), steps);
            && p.accepted == p.dequeued + p.tasks
            && NoDuplicates(p.finished)
            && (forall t :: t in p.dequeued <==> t in p.finished || IsRunning(p, t))
            && (forall t :: !(t in p.finished && IsRunning(p, t)))
            && (forall i, j :: 0 <= i < j < |p.workers| && p.workers[i].Running? ==>
                  p.workers[i] != p.workers[j])
  {
    ReachableInvariant(workerCount, steps);
  }

  // What `shutdown` promises

  ghost predicate AllExited<T>(p: Pool<T>) {
    forall i :: 0 <= i < |p.workers| ==> p.workers[i].Exited?
  }

  /** The queue is drained, all workers are gone, and every accepted task has run exactly once. */
  ghost predicate ShutDown<T>(p: Pool<T>) {
    p.tasks == [] && AllExited(p) && multiset(p.finished) == multiset(p.accepted)
  }

  lemma ExitedMeansShutDown<T>(p: Pool<T>)
    requires Invariant(p) && AllExited(p)
    ensures ShutDown(p)
  {
    assert p.workers[0].Exited?;
    assert p.accepted == p.dequeued;
    forall t ensures t in p.finished <==> t in p.accepted {
      assert !IsRunning(p, t);
    }
    SameElementsSameMultiset(p.finished, p.accepted);
  }

  /** When the closing `shutdown` call returns, the pool is shut down. */
  lemma DrainedWhenShutdownReturns<T>(workerCount: nat, steps: seq<Step<T>>)
    requires ValidRun(Initial(workerCount), steps)
    requires Exec(Initial(workerCount), steps).caller.Returned?
    ensures ShutDown(Exec(Initial(workerCount), steps))
  {
    ReachableInvariant(workerCount, steps);
    ExitedMeansShutDown(Exec(Initial(workerCount), steps));
  }

  /** A later call returns at once and leaves the pool as it is. It returns on a pool that is shut down
      exactly when every worker has exited, for which the return of the closing call is enough. */
  lemma LaterShutdownKeepsPromiseIff<T>(p: Pool<T>)
    requires Invariant(p) && p.stopping
    ensures Next(p, Shutdown) == p
    ensures ShutDown(Next(p, Shutdown)) <==> AllExited(p)
    ensures p.caller.Returned? ==> ShutDown(Next(p, Shutdown))
  {
    if AllExited(p) {
      ExitedMeansShutDown(p);
    }
  }

  /** With any number of workers, a second call can return while an accepted task has not even started
      and no worker has exited. */
  lemma LaterShutdownMayReturnEarly<T>(workerCount: nat, task: T) returns (steps: seq<Step<T>>)
    ensures ValidRun(Initial(workerCount), steps)
    ensures var p := Exec(Initial(workerCount), steps);
            && p.stopping && Next(p, Shutdown) == p && !ShutDown(p)
            && task in p.accepted && task !in p.dequeued && task !in p.finished
            && forall i :: 0 <= i < |p.workers| ==> !p.workers[i].Exited?
  {
    steps := [Submit(task), Shutdown];
    var p: Pool<T> := Initial(workerCount);
    var q := Next(p, Submit(task));
    var rest: seq<Step<T>> := [Shutdown];
    assert steps[1..] == rest && rest[1..] == [];
    assert ValidRun(q, rest) && Exec(q, rest) == Next(q, Shutdown);
    assert Next(q, Shutdown).tasks == [task];
  }

  lemma {:induction false} CountInDuplicateFree<T>(s: seq<T>, x: T)
    requires NoDuplicates(s)
    ensures multiset(s)[x] == if x in s then 1 else 0
  {
    if s != [] {
      CountInDuplicateFree(s[1..], x);
      assert s == [s[0]] + s[1..];
    }
  }

  lemma SameElementsSameMultiset<T>(s: seq<T>, t: seq<T>)
    requires NoDuplicates(s) && NoDuplicates(t)
    requires forall x :: x in s <==> x in t
    ensures multiset(s) == multiset(t)
  {
    forall x ensures multiset(s)[x] == multiset(t)[x] {
      CountInDuplicateFree(s, x);
      CountInDuplicateFree(t, x);
    }
  }

  /** After the stop flag is set it stays set, and no later submission is accepted. */
  lemma {:induction false} ClosedAfterStop<T>(p: Pool<T>, steps: seq<Step<T>>)
    requires p.stopping && ValidRun(p, steps)
    ensures Exec(p, steps).stopping && Exec(p, steps).accepted == p.accepted
    decreases |steps|
  {
    if steps != [] {
      ClosedAfterStop(Next(p, steps[0]), steps[1..]);
    }
  }

  // Progress

  /** The steps the pool takes by itself, as opposed to new calls from outside. */
  predicate IsPoolStep<T>(s: Step<T>) {
    !s.Submit? && !s.Shutdown?
  }

  function CallerRank<T>(p: Pool<T>): nat {
    match p.caller
    case Idle => 0
    case Notifying => |p.workers| + 2
    case Joining(k) => if k <= |p.workers| then |p.workers| - k + 1 else 1
    case Returned => 0
  }

  /** The work left. Before the stop a sleeper has none; after it, it still has to wake and exit. */
  function Measure<T>(p: Pool<T>): nat {
    2 * |p.tasks| + 2 * p.notifies + Total(p.workers, if p.stopping then 2 else 0, 1, 2) + CallerRank(p)
  }

  /** Every step of the pool's own brings it closer to rest. The one exception is a spurious wake-up
      before the stop, which costs one; after the stop even that is progress. */
  lemma PoolStepsDecreaseMeasure<T>(p: Pool<T>, s: Step<T>)
    requires Invariant(p) && Enabled(p, s) && IsPoolStep(s)
    ensures p.stopping || !s.Wake? ==> Measure(Next(p, s)) < Measure(p)
    ensures Measure(Next(p, s)) <= Measure(p) + 1
  {
    hide WakeUpsAccounted, ExactlyOnce, StopReachesSleepers, Total;
    var q := Next(p, s);
    var a := if p.stopping then 2 else 0;
    match s
    case NotifyOne(w) => TotalUpdate(p.workers, w, Locking, a, 1, 2);
    case Wake(w) => TotalUpdate(p.workers, w, Locking, a, 1, 2);
    case Lock(w) => TotalUpdate(p.workers, w, q.workers[w], a, 1, 2);
    case Finish(w) => TotalUpdate(p.workers, w, Locking, a, 1, 2);
    case NotifyAll => TotalWakeAll(p.workers, a, 1, 2);
    case _ =>
  }

  function PoolSteps<T>(steps: seq<Step<T>>): nat {
    if steps == [] then 0 else (if IsPoolStep(steps[0]) then 1 else 0) + PoolSteps(steps[1..])
  }

  /** After the stop every run takes at most as many steps of the pool as there is work left, whatever
      refused submissions, later shutdown calls and spurious wake-ups come in between. */
  lemma {:induction false} ShutdownIsBounded<T>(p: Pool<T>, steps: seq<Step<T>>)
    requires Invariant(p) && p.stopping && ValidRun(p, steps)
    ensures PoolSteps(steps) + Measure(Exec(p, steps)) <= Measure(p)
    decreases |steps|
  {
    if steps != [] {
      if IsPoolStep(steps[0]) {
        PoolStepsDecreaseMeasure(p, steps[0]);
      }
      StepKeepsInvariant(p, steps[0]);
      ShutdownIsBounded(Next(p, steps[0]), steps[1..]);
    }
  }

  /** What a step may add to the work left: an accepted task is submitted, taken, run and notified of,
      the stop wakes and ends every worker and joins it, a spurious wake-up sends a worker to the queue. */
  function Credit<T>(workerCount: nat, s: Step<T>): nat {
    match s
    case Submit(_) => 4
    case Shutdown => 3 * workerCount + 2
    case Wake(_) => 2
    case _ => 0
  }

  function Credits<T>(workerCount: nat, steps: seq<Step<T>>): nat {
    if steps == [] then 0 else Credit(workerCount, steps[0]) + Credits(workerCount, steps[1..])
  }

  lemma StepWithinCredit<T>(p: Pool<T>, s: Step<T>)
    requires Invariant(p) && Enabled(p, s)
    ensures |Next(p, s).workers| == |p.workers|
    ensures Measure(Next(p, s)) + (if IsPoolStep(s) then 1 else 0) <= Measure(p) + Credit(|p.workers|, s)
  {
    if IsPoolStep(s) {
      PoolStepsDecreaseMeasure(p, s);
    } else if s.Shutdown? {
      TotalMoreForSleepers(p.workers, 2, 1, 2);
    }
  }

  /** Every run at all: the pool takes no more steps than the work left at its start and the credits of
      the calls and the spurious wake-ups in it allow. */
  lemma {:induction false} RunsAreBounded<T>(p: Pool<T>, steps: seq<Step<T>>)
    requires Invariant(p) && ValidRun(p, steps)
    ensures PoolSteps(steps) + Measure(Exec(p, steps)) <= Measure(p) + Credits(|p.workers|, steps)
    decreases |steps|
  {
    if steps != [] {
      StepWithinCredit(p, steps[0]);
      StepKeepsInvariant(p, steps[0]);
      RunsAreBounded(Next(p, steps[0]), steps[1..]);
    }
  }

  /** A worker that is neither asleep nor gone can always move. */
  lemma WorkerMoves<T>(p: Pool<T>, w: nat) returns (s: Step<T>)
    requires w < |p.workers| && !p.workers[w].Asleep? && !p.workers[w].Exited?
    ensures Enabled(p, s) && IsPoolStep(s) && !s.Wake?
  {
    s := if p.workers[w].Locking? then Lock(w) else Finish(w);
  }

  /** After the stop, some step that is not a spurious wake-up can be taken until the closing call
      has returned. */
  lemma ShutdownNeverStuck<T>(p: Pool<T>) returns (s: Step<T>)
    requires Invariant(p) && p.stopping && !p.caller.Returned?
    ensures Enabled(p, s) && IsPoolStep(s) && !s.Wake?
  {
    if p.caller.Notifying? {
      s := NotifyAll;
    } else {
      var k := p.caller.next;
      if k == |p.workers| || p.workers[k].Exited? {
        s := Join;
      } else {
        assert !p.workers[k].Asleep?;
        s := WorkerMoves(p, k);
      }
    }
  }

  /** Every run after the stop, whoever calls in between, has a bounded number of pool steps, and where
      it cannot be continued by one the closing call has returned on a pool that is shut down. */
  lemma ShutdownCompletes<T>(p: Pool<T>, steps: seq<Step<T>>)
    requires Invariant(p) && p.stopping && ValidRun(p, steps)
    ensures PoolSteps(steps) <= Measure(p)
    ensures (forall s :: IsPoolStep(s) && !s.Wake? ==> !Enabled(Exec(p, steps), s)) ==>
      Exec(p, steps).caller.Returned? && ShutDown(Exec(p, steps))
  {
    var q := Exec(p, steps);
    ShutdownIsBounded(p, steps);
    ExecKeepsInvariant(p, steps);
    ClosedAfterStop(p, steps);
    if q.caller.Returned? {
      ExitedMeansShutDown(q);
    } else {
      var s := ShutdownNeverStuck(q);
    }
  }

  /** Such a run exists from every reachable state after the stop, by the pool's steps alone. */
  lemma {:induction false} ShutdownReturns<T>(p: Pool<T>) returns (steps: seq<Step<T>>)
    requires Invariant(p) && p.stopping
    ensures ValidRun(p, steps) && forall i :: 0 <= i < |steps| ==> IsPoolStep(steps[i])
    ensures Exec(p, steps).caller.Returned?
    decreases Measure(p)
  {
    if p.caller.Returned? {
      steps := [];
    } else {
      var s := ShutdownNeverStuck(p);
      StepKeepsInvariant(p, s);
      PoolStepsDecreaseMeasure(p, s);
      var rest := ShutdownReturns(Next(p, s));
      steps := [s] + rest;
      assert steps[1..] == rest;
    }
  }

  // First in, first out

  /** How often a worker takes a task in the run. */
  ghost function Takes<T>(p: Pool<T>, steps: seq<Step<T>>): nat
    requires ValidRun(p, steps)
    decreases |steps|
  {
    if steps == [] then 0
    else (if steps[0].Lock? && p.tasks != [] then 1 else 0) + Takes(Next(p, steps[0]), steps[1..])
  }

  lemma {:induction false} TakesAreCounted<T>(p: Pool<T>, steps: seq<Step<T>>)
    requires Invariant(p) && ValidRun(p, steps)
    ensures |Exec(p, steps).dequeued| == |p.dequeued| + Takes(p, steps)
    ensures p.accepted <= Exec(p, steps).accepted
    decreases |steps|
  {
    if steps != [] {
      StepKeepsInvariant(p, steps[0]);
      TakesAreCounted(Next(p, steps[0]), steps[1..]);
    }
  }

  /** Nobody overtakes: in every run, whoever else submits, the task with `k` tasks accepted before it
      is taken by the take number `k + 1` and by no other. */
  lemma TakenInTurn<T>(workerCount: nat, steps: seq<Step<T>>, k: nat)
    requires ValidRun(Initial(workerCount), steps) && k < |Exec(Initial(workerCount), steps).accepted|
    ensures var p := Exec(Initial(workerCount), steps);
            p.accepted[k] in p.dequeued <==> k < Takes(Initial(workerCount), steps)
  {
    var p := Exec(Initial(workerCount), steps);
    ReachableInvariant<T>(workerCount, []);
    ReachableInvariant(workerCount, steps);
    TakesAreCounted(Initial(workerCount), steps);
    if k < |p.dequeued| {
      assert p.dequeued[k] == p.accepted[k];
    } else {
      forall i | 0 <= i < |p.dequeued| ensures p.dequeued[i] != p.accepted[k] {
        assert p.accepted[i] == p.dequeued[i];
      }
    }
  }

  /** From any state on, as many takes as tasks are queued now empty the present queue. */
  lemma QueueTakenInTurn<T>(p: Pool<T>, steps: seq<Step<T>>)
    requires Invariant(p) && ValidRun(p, steps) && Takes(p, steps) >= |p.tasks|
    ensures forall t :: t in p.accepted ==> t in Exec(p, steps).dequeued
  {
    var q := Exec(p, steps);
    TakesAreCounted(p, steps);
    ExecKeepsInvariant(p, steps);
    forall t | t in p.accepted ensures t in q.dequeued {
      var i :| 0 <= i < |p.accepted| && p.accepted[i] == t;
      assert q.accepted[i] == t && q.dequeued[i] == t;
    }
  }

  /** Work conserving: while an accepted task has not finished, some step other than a spurious
      wake-up can be taken, whether the pool is being stopped or not. */
  lemma UnfinishedWorkMoves<T>(p: Pool<T>, task: T) returns (s: Step<T>)
    requires Invariant(p) && task in p.accepted && task !in p.finished
    ensures Enabled(p, s) && IsPoolStep(s) && !s.Wake?
  {
    if task in p.dequeued {
      var w :| 0 <= w < |p.workers| && p.workers[w] == Running(task);
      s := Finish(w);
    } else {
      assert task in p.tasks;
      if SomeoneAsleep(p) {
        var w :| 0 <= w < |p.workers| && p.workers[w].Asleep?;
        if p.notifies > 0 {
          s := NotifyOne(w);
        } else {
          var l := SomeoneLocking(p.workers);
          s := Lock(l);
        }
      } else {
        s := WorkerMoves(p, 0);
      }
    }
  }

  /** A pool at rest has finished everything it accepted. */
  lemma RestMeansFinished<T>(p: Pool<T>)
    requires Invariant(p)
    requires forall s :: IsPoolStep(s) && !s.Wake? ==> !Enabled(p, s)
    ensures forall t :: t in p.accepted ==> t in p.finished
  {
    forall t | t in p.accepted ensures t in p.finished {
      if t !in p.finished {
        var s := UnfinishedWorkMoves(p, t);
        assert false;
      }
    }
  }
}
