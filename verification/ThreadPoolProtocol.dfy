/**
 The worker pool as a step machine: any number of submitters, the workers and the one shutdown
 caller that closes the pool. A critical section is one step, since the mutex excludes every other
 one; the notifications are steps of their own, since they are sent after the mutex is released.
 */
module ThreadPoolProtocol {
  import opened Sequences

  /** `Locking` is a worker on its way to the mutex, either for its first look at the queue, after a
      task, or after being woken; it is the only awake worker that is not running a task. */
  datatype Worker<T> = Locking | Asleep | Running(task: T) | Exited

  /** The caller of `shutdown` that set the stop flag. */
  datatype Caller = Idle | Notifying | Joining(next: nat) | Returned

  /** `notifies` counts the submitters that have queued a task and not yet called `notify_one`.
      `accepted`, `dequeued` and `finished` record the run. A task stands for one packaged task
      object, so no two submissions hand over the same one. */
  datatype Pool<T> = Pool(
    tasks: seq<T>,
    stopping: bool,
    workers: seq<Worker<T>>,
    notifies: nat,
    caller: Caller,
    accepted: seq<T>,
    dequeued: seq<T>,
    finished: seq<T>)

  function Initial<T>(workerCount: nat): Pool<T> {
    Pool([], false, seq(if workerCount < 1 then 1 else workerCount, _ => Locking), 0, Idle, [], [], [])
  }

  datatype Step<T> =
    | Submit(task: T)         // the critical section of `submit`
    | NotifyOne(worker: nat)  // a submitter's `notify_one` wakes this sleeper
    | NotifyNobody            // a submitter's `notify_one` finds no sleeper
    | Wake(worker: nat)       // a spurious wake-up
    | Lock(worker: nat)       // the critical section of `worker_loop`
    | Finish(worker: nat)     // the worker's task returns
    | Shutdown                // the critical section of `shutdown`
    | NotifyAll               // the closing caller's `notify_all`
    | Join                    // it joins the next worker, or returns after the last

  ghost predicate SomeoneAsleep<T>(p: Pool<T>) {
    exists i :: 0 <= i < |p.workers| && p.workers[i].Asleep?
  }

  ghost predicate Enabled<T>(p: Pool<T>, s: Step<T>) {
    match s
    case Submit(task) => task !in p.accepted
    case NotifyOne(w) => p.notifies > 0 && w < |p.workers| && p.workers[w].Asleep?
    case NotifyNobody => p.notifies > 0 && !SomeoneAsleep(p)
    case Wake(w) => w < |p.workers| && p.workers[w].Asleep?
    case Lock(w) => w < |p.workers| && p.workers[w].Locking?
    case Finish(w) => w < |p.workers| && p.workers[w].Running?
    case Shutdown => true
    case NotifyAll => p.caller.Notifying?
    case Join =>
      p.caller.Joining? && (p.caller.next < |p.workers| ==> p.workers[p.caller.next].Exited?)
  }

  function WakeAll<T>(ws: seq<Worker<T>>): seq<Worker<T>> {
    seq(|ws|, i requires 0 <= i < |ws| => if ws[i].Asleep? then Locking else ws[i])
  }

  function Next<T>(p: Pool<T>, s: Step<T>): Pool<T>
    requires Enabled(p, s)
  {
    match s
    case Submit(task) =>
      if p.stopping then p  // refused with an exception
      else p.(tasks := p.tasks + [task], notifies := p.notifies + 1, accepted := p.accepted + [task])
    case NotifyOne(w) => p.(notifies := p.notifies - 1, workers := p.workers[w := Locking])
    case NotifyNobody => p.(notifies := p.notifies - 1)
    case Wake(w) => p.(workers := p.workers[w := Locking])
    case Lock(w) =>
      if p.tasks == [] then
        p.(workers := p.workers[w := if p.stopping then Exited else Asleep])
      else
        p.(workers := p.workers[w := Running(p.tasks[0])],
           tasks := p.tasks[1..],
           dequeued := p.dequeued + [p.tasks[0]])
    case Finish(w) =>
      p.(workers := p.workers[w := Locking], finished := p.finished + [p.workers[w].task])
    case Shutdown =>
      if p.stopping then p  // a later caller returns at once
      else p.(stopping := true, caller := Notifying)
    case NotifyAll => p.(workers := WakeAll(p.workers), caller := Joining(0))
    case Join =>
      p.(caller := if p.caller.next < |p.workers| then Joining(p.caller.next + 1) else Returned)
  }

  // Runs

  ghost predicate ValidRun<T>(p: Pool<T>, steps: seq<Step<T>>)
    decreases |steps|
  {
    steps == [] || (Enabled(p, steps[0]) && ValidRun(Next(p, steps[0]), steps[1..]))
  }

  ghost function Exec<T>(p: Pool<T>, steps: seq<Step<T>>): Pool<T>
    requires ValidRun(p, steps)
    decreases |steps|
  {
    if steps == [] then p else Exec(Next(p, steps[0]), steps[1..])
  }

  // Weighted sums over the workers

  function Weight<T>(w: Worker<T>, asleep: nat, locking: nat, running: nat): nat {
    match w
    case Asleep => asleep
    case Locking => locking
    case Running(_) => running
    case Exited => 0
  }

  function Total<T>(ws: seq<Worker<T>>, asleep: nat, locking: nat, running: nat): nat {
    if ws == [] then 0
    else Total(ws[..|ws| - 1], asleep, locking, running) + Weight(ws[|ws| - 1], asleep, locking, running)
  }

  lemma {:induction false} TotalUpdate<T>(ws: seq<Worker<T>>, i: nat, w: Worker<T>, a: nat, l: nat, r: nat)
    requires i < |ws|
    ensures Total(ws[i := w], a, l, r) == Total(ws, a, l, r) - Weight(ws[i], a, l, r) + Weight(w, a, l, r)
  {
    var n := |ws| - 1;
    if i == n {
      assert ws[i := w][..n] == ws[..n];
    } else {
      assert ws[i := w][..n] == ws[..n][i := w];
      TotalUpdate(ws[..n], i, w, a, l, r);
    }
  }

  lemma {:induction false} TotalWakeAll<T>(ws: seq<Worker<T>>, a: nat, l: nat, r: nat)
    requires l <= a
    ensures Total(WakeAll(ws), a, l, r) <= Total(ws, a, l, r)
  {
    if ws != [] {
      var n := |ws| - 1;
      assert WakeAll(ws)[..n] == WakeAll(ws[..n]);
      TotalWakeAll(ws[..n], a, l, r);
    }
  }

  /** The stop gives every sleeper work: it has to wake and to exit. */
  lemma {:induction false} TotalMoreForSleepers<T>(ws: seq<Worker<T>>, a: nat, l: nat, r: nat)
    ensures Total(ws, 0, l, r) <= Total(ws, a, l, r) <= Total(ws, 0, l, r) + a * |ws|
  {
    if ws != [] {
      var n := |ws| - 1;
      TotalMoreForSleepers(ws[..n], a, l, r);
      assert a * |ws| == a * n + a;
    }
  }

  /** A positive count of workers on their way to the mutex names one of them. */
  lemma {:induction false} SomeoneLocking<T>(ws: seq<Worker<T>>) returns (w: nat)
    requires Total(ws, 0, 1, 0) > 0
    ensures w < |ws| && ws[w].Locking?
  {
    if ws[|ws| - 1].Locking? {
      w := |ws| - 1;
    } else {
      w := SomeoneLocking(ws[..|ws| - 1]);
    }
  }

  // What every step keeps

  /** As long as someone sleeps, each queued task is matched by a notification still to be sent or by
      an awake worker about to look at the queue. */
  ghost predicate WakeUpsAccounted<T>(p: Pool<T>) {
    SomeoneAsleep(p) ==> |p.tasks| <= p.notifies + Total(p.workers, 0, 1, 0)
  }

  ghost predicate StopReachesSleepers<T>(p: Pool<T>) {
    p.stopping ==> p.caller.Notifying? || !SomeoneAsleep(p)
  }

  ghost predicate LifeCycle<T>(p: Pool<T>) {
    && |p.workers| > 0
    && (p.stopping <==> !p.caller.Idle?)
    && (forall i :: 0 <= i < |p.workers| && p.workers[i].Exited? ==> p.stopping && p.tasks == [])
    && (p.caller.Joining? ==>
          p.caller.next <= |p.workers| && forall i :: 0 <= i < p.caller.next ==> p.workers[i].Exited?)
    && (p.caller.Returned? ==> forall i :: 0 <= i < |p.workers| ==> p.workers[i].Exited?)
  }

  ghost predicate IsRunning<T>(p: Pool<T>, task: T) {
    exists i :: 0 <= i < |p.workers| && p.workers[i] == Running(task)
  }

  /** Tasks leave the queue in the order they entered it, and each dequeued task is either running on
      exactly one worker or finished exactly once, not both. */
  ghost predicate ExactlyOnce<T>(p: Pool<T>) {
    && p.accepted == p.dequeued + p.tasks
    && NoDuplicates(p.accepted)
    && NoDuplicates(p.finished)
    && (forall t :: t in p.finished ==> t in p.dequeued)
    && (forall i :: 0 <= i < |p.workers| && p.workers[i].Running? ==>
          p.workers[i].task in p.dequeued && p.workers[i].task !in p.finished)
    && (forall i, j :: 0 <= i < j < |p.workers| && p.workers[i].Running? && p.workers[j].Running? ==>
          p.workers[i].task != p.workers[j].task)
    && (forall t :: t in p.dequeued ==> t in p.finished || IsRunning(p, t))
  }

  ghost predicate Invariant<T>(p: Pool<T>) {
    WakeUpsAccounted(p) && StopReachesSleepers(p) && LifeCycle(p) && ExactlyOnce(p)
  }

  lemma SleeperStays<T>(p: Pool<T>, w: nat, worker: Worker<T>)
    requires w < |p.workers| && !worker.Asleep?
    requires SomeoneAsleep(p.(workers := p.workers[w := worker]))
    ensures SomeoneAsleep(p)
  {
    var q := p.(workers := p.workers[w := worker]);
    var i :| 0 <= i < |q.workers| && q.workers[i].Asleep?;
    assert p.workers[i].Asleep?;
  }

  lemma StepKeepsWakeUps<T>(p: Pool<T>, s: Step<T>)
    requires WakeUpsAccounted(p) && Enabled(p, s)
    ensures WakeUpsAccounted(Next(p, s))
  {
    var q := Next(p, s);
    if SomeoneAsleep(q) {
      match s
      case Submit(_) => assert SomeoneAsleep(p) by { assert q.workers == p.workers; }
      case NotifyOne(w) =>
        assert SomeoneAsleep(p);
        TotalUpdate(p.workers, w, Locking, 0, 1, 0);
      case NotifyNobody =>
      case Wake(w) =>
        assert SomeoneAsleep(p);
        TotalUpdate(p.workers, w, Locking, 0, 1, 0);
      case Lock(w) =>
        if p.tasks != [] {
          SleeperStays(p, w, q.workers[w]);
          TotalUpdate(p.workers, w, q.workers[w], 0, 1, 0);
        }
      case Finish(w) =>
        SleeperStays(p, w, Locking);
        TotalUpdate(p.workers, w, Locking, 0, 1, 0);
      case Shutdown => assert SomeoneAsleep(p) by { assert q.workers == p.workers; }
      case NotifyAll =>
      case Join =>
        assert q.workers == p.workers;
    }
  }

  lemma StepKeepsLifeCycle<T>(p: Pool<T>, s: Step<T>)
    requires LifeCycle(p) && StopReachesSleepers(p) && Enabled(p, s)
    ensures LifeCycle(Next(p, s)) && StopReachesSleepers(Next(p, s))
  {
    var q := Next(p, s);
    if q.stopping && !q.caller.Notifying? {
      forall i | 0 <= i < |q.workers| ensures !q.workers[i].Asleep? {
        assert s.NotifyAll? || !p.workers[i].Asleep?;
      }
    }
  }

  lemma StepKeepsExactlyOnce<T>(p: Pool<T>, s: Step<T>)
    requires ExactlyOnce(p) && Enabled(p, s)
    ensures ExactlyOnce(Next(p, s))
  {
    var q := Next(p, s);
    match s
    case Lock(w) =>
      if p.tasks != [] {
        TakingATask(p, w);
      } else {
        SameRunning(p, q);
      }
    case Finish(w) => FinishingATask(p, w);
    case Submit(_) =>
      assert q.accepted == q.dequeued + q.tasks;
      SameRunning(p, q);
    case _ => SameRunning(p, q);
  }

  /** A step that starts and ends no task leaves the set of running ones alone. */
  lemma SameRunning<T>(p: Pool<T>, q: Pool<T>)
    requires |p.workers| == |q.workers|
    requires forall i :: 0 <= i < |p.workers| && (p.workers[i].Running? || q.workers[i].Running?) ==>
                           q.workers[i] == p.workers[i]
    ensures forall t :: IsRunning(p, t) ==> IsRunning(q, t)
  {
    forall t | IsRunning(p, t) ensures IsRunning(q, t) {
      var i :| 0 <= i < |p.workers| && p.workers[i] == Running(t);
      assert q.workers[i] == Running(t);
    }
  }

  lemma TakingATask<T>(p: Pool<T>, w: nat)
    requires ExactlyOnce(p) && Enabled(p, Lock(w)) && p.tasks != []
    ensures ExactlyOnce(Next(p, Lock(w)))
  {
    var q, task := Next(p, Lock(w)), p.tasks[0];
    assert p.accepted[|p.dequeued|] == task;
    assert q.accepted == q.dequeued + q.tasks;
    forall k | 0 <= k < |p.dequeued| ensures p.dequeued[k] != task {
      assert p.accepted[k] == p.dequeued[k];
    }
    forall t | t in q.dequeued ensures t in q.finished || IsRunning(q, t) {
      if t == task {
        assert q.workers[w] == Running(t);
      } else if t !in p.finished {
        assert t in p.dequeued;
        var i :| 0 <= i < |p.workers| && p.workers[i] == Running(t);
        assert q.workers[i] == Running(t);
      }
    }
  }

  lemma FinishingATask<T>(p: Pool<T>, w: nat)
    requires ExactlyOnce(p) && Enabled(p, Finish(w))
    ensures ExactlyOnce(Next(p, Finish(w)))
  {
    var q, task := Next(p, Finish(w)), p.workers[w].task;
    forall t | t in q.dequeued ensures t in q.finished || IsRunning(q, t) {
      if t == task {
        assert q.finished[|p.finished|] == task;
      } else if t in p.finished {
        assert t in q.finished;
      } else {
        var i :| 0 <= i < |p.workers| && p.workers[i] == Running(t);
        assert q.workers[i] == Running(t);
      }
    }
  }

  lemma StepKeepsInvariant<T>(p: Pool<T>, s: Step<T>)
    requires Invariant(p) && Enabled(p, s)
    ensures Invariant(Next(p, s))
  {
    StepKeepsWakeUps(p, s);
    StepKeepsLifeCycle(p, s);
    StepKeepsExactlyOnce(p, s);
  }

  lemma {:induction false} ExecKeepsInvariant<T>(p: Pool<T>, steps: seq<Step<T>>)
    requires Invariant(p) && ValidRun(p, steps)
    ensures Invariant(Exec(p, steps))
    decreases |steps|
  {
    if steps != [] {
      StepKeepsInvariant(p, steps[0]);
      ExecKeepsInvariant(Next(p, steps[0]), steps[1..]);
    }
  }

  lemma ReachableInvariant<T>(workerCount: nat, steps: seq<Step<T>>)
    requires ValidRun(Initial(workerCount), steps)
    ensures Invariant(Exec(Initial(workerCount), steps))
  {
    ExecKeepsInvariant(Initial(workerCount), steps);
  }
}
