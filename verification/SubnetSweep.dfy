/**
 The parallel sweep: one caller submits a probe per address and then waits for the futures in order,
 while the pool's workers, other users of the pool and a closing caller take their own steps in any
 order. The outcome of a probe is an oracle from the address to a result or an exception.
 */
module SubnetSweep {
  import opened SshDetector
  import opened P = ThreadPoolProtocol
  import opened ThreadPoolGuarantees

  datatype Outcome = Answered(result: SshProbeResult) | Failed

  // What the sweep has to return

  function Kept(outcome: Outcome): seq<SshProbeResult> {
    if outcome.Answered? && outcome.result.IsSsh() then [outcome.result] else []
  }

  function KeptAll(outcomes: seq<Outcome>): seq<SshProbeResult> {
    if outcomes == [] then [] else KeptAll(outcomes[..|outcomes| - 1]) + Kept(outcomes[|outcomes| - 1])
  }

  lemma KeptOneMore(outcomes: seq<Outcome>, outcome: Outcome)
    ensures KeptAll(outcomes + [outcome]) == KeptAll(outcomes) + Kept(outcome)
  {
    assert (outcomes + [outcome])[..|outcomes|] == outcomes;
  }

  /** Probing the addresses one after the other and skipping the failures. */
  function OneByOne(probe: string -> Outcome, addresses: seq<string>): seq<SshProbeResult> {
    if addresses == [] then []
    else OneByOne(probe, addresses[..|addresses| - 1]) + Kept(probe(addresses[|addresses| - 1]))
  }

  /** The results are those of the outcomes at the given positions, which are in order and are the
      positions of all the SSH servers. */
  ghost predicate PicksDetected(found: seq<SshProbeResult>, outcomes: seq<Outcome>, positions: seq<nat>) {
    && |positions| == |found|
    && (forall i, j :: 0 <= i < j < |positions| ==> positions[i] < positions[j])
    && (forall j :: 0 <= j < |positions| ==>
          && positions[j] < |outcomes| && outcomes[positions[j]] == Answered(found[j])
          && found[j].status == SshDetected)
    && (forall i :: 0 <= i < |outcomes| && outcomes[i].Answered? && outcomes[i].result.status == SshDetected ==>
          i in positions)
  }

  lemma PickedOneMore(found: seq<SshProbeResult>, outcomes: seq<Outcome>, positions: seq<nat>, r: SshProbeResult)
    requires PicksDetected(found, outcomes, positions) && r.status == SshDetected
    ensures PicksDetected(found + [r], outcomes + [Answered(r)], positions + [|outcomes|])
  {
    assert forall i :: i in positions ==> i in positions + [|outcomes|];
    assert (positions + [|outcomes|])[|positions|] == |outcomes|;
  }

  lemma SkippedOneMore(found: seq<SshProbeResult>, outcomes: seq<Outcome>, positions: seq<nat>, o: Outcome)
    requires PicksDetected(found, outcomes, positions) && (o.Answered? ==> o.result.status != SshDetected)
    ensures PicksDetected(found, outcomes + [o], positions)
  {
  }

  lemma {:induction false} KeptAllPicks(outcomes: seq<Outcome>) returns (positions: seq<nat>)
    ensures PicksDetected(KeptAll(outcomes), outcomes, positions)
  {
    hide PicksDetected;
    if outcomes == [] {
      positions := [];
      NothingToPick();
    } else {
      var n := |outcomes| - 1;
      var front, o := outcomes[..n], outcomes[n];
      positions := KeptAllPicks(front);
      assert outcomes == front + [o];
      if Kept(o) == [] {
        SkippedOneMore(KeptAll(front), front, positions, o);
        assert KeptAll(front) + [] == KeptAll(front);
      } else {
        PickedOneMore(KeptAll(front), front, positions, o.result);
        positions := positions + [n];
      }
    }
  }

  lemma NothingToPick()
    ensures PicksDetected([], [], [])
  {
  }

  /** The loop over the futures, once their values are there: it keeps the SSH servers, in order. */
  method CollectFound(outcomes: seq<Outcome>) returns (found: seq<SshProbeResult>)
    ensures found == KeptAll(outcomes)
    ensures exists positions :: PicksDetected(found, outcomes, positions)
  {
    found := [];
    for i := 0 to |outcomes|
      invariant found == KeptAll(outcomes[..i])
    {
      match outcomes[i] {
        case Answered(result) =>
          if result.IsSsh() {
            found := found + [result];
          }
        case Failed =>
      }
      KeptOneMore(outcomes[..i], outcomes[i]);
      assert outcomes[..i + 1] == outcomes[..i] + [outcomes[i]];
    }
    assert outcomes[..|outcomes|] == outcomes;
    ghost var positions := KeptAllPicks(outcomes);
  }

  /** What each address answers. */
  function Probed(probe: string -> Outcome, addresses: seq<string>): seq<Outcome> {
    seq(|addresses|, i requires 0 <= i < |addresses| => probe(addresses[i]))
  }

  /** Collecting the outcomes of all addresses is probing them one by one. */
  lemma {:induction false} CollectingIsOneByOne(
      probe: string -> Outcome, addresses: seq<string>, outcomes: seq<Outcome>)
    requires |outcomes| == |addresses|
    requires forall i :: 0 <= i < |addresses| ==> outcomes[i] == probe(addresses[i])
    ensures KeptAll(outcomes) == OneByOne(probe, addresses)
  {
    if addresses != [] {
      var n := |addresses| - 1;
      CollectingIsOneByOne(probe, addresses[..n], outcomes[..n]);
    }
  }

  // The sweep among its surroundings

  type Task = nat

  datatype Phase = Submitting | Collecting(next: nat) | Done | Threw

  /** `jobs` holds the address captured by each task of the sweep, `results` what its future holds. */
  datatype Sweep = Sweep(
    pool: Pool<Task>,
    jobs: map<Task, string>,
    results: map<Task, Outcome>,
    futures: seq<Task>,
    phase: Phase,
    found: seq<SshProbeResult>)

  datatype SweepStep =
    | SubmitNext(task: Task)  // one turn of the submitting loop; throws when the pool is stopping
    | StartCollecting
    | CollectNext             // `get` on the next future, or the return after the last
    | OfPool(step: Step<Task>)  // a step of the pool or a call by somebody else

  function Start(pool: Pool<Task>): Sweep {
    Sweep(pool, map[], map[], [], Submitting, [])
  }

  ghost predicate CanStep(addresses: seq<string>, s: Sweep, step: SweepStep) {
    match step
    case SubmitNext(task) =>
      s.phase.Submitting? && |s.futures| < |addresses| && Enabled(s.pool, Submit(task))
    case StartCollecting => s.phase.Submitting? && |s.futures| >= |addresses|
    case CollectNext =>
      s.phase.Collecting? && (s.phase.next < |s.futures| ==> s.futures[s.phase.next] in s.results)
    case OfPool(step) => Enabled(s.pool, step)
  }

  function Stepped(probe: string -> Outcome, addresses: seq<string>, s: Sweep, step: SweepStep): Sweep
    requires CanStep(addresses, s, step)
  {
    match step
    case SubmitNext(task) =>
      if s.pool.stopping then s.(phase := Threw)
      else s.(pool := Next(s.pool, Submit(task)),
              jobs := s.jobs[task := addresses[|s.futures|]],
              futures := s.futures + [task])
    case StartCollecting => s.(phase := Collecting(0))
    case CollectNext =>
      var k := s.phase.next;
      if k < |s.futures| then
        s.(found := s.found + Kept(s.results[s.futures[k]]), phase := Collecting(k + 1))
      else s.(phase := Done)
    case OfPool(step) =>
      s.(pool := Next(s.pool, step),
         results :=
           if step.Finish? && s.pool.workers[step.worker].task in s.jobs then
             var task := s.pool.workers[step.worker].task;
             s.results[task := probe(s.jobs[task])]
           else s.results)
  }

  ghost predicate ValidSweep(probe: string -> Outcome, addresses: seq<string>, s: Sweep, steps: seq<SweepStep>)
    decreases |steps|
  {
    steps == [] ||
    (CanStep(addresses, s, steps[0])
     && ValidSweep(probe, addresses, Stepped(probe, addresses, s, steps[0]), steps[1..]))
  }

  ghost function RunSweep(probe: string -> Outcome, addresses: seq<string>, s: Sweep, steps: seq<SweepStep>): Sweep
    requires ValidSweep(probe, addresses, s, steps)
    decreases |steps|
  {
    if steps == [] then s else RunSweep(probe, addresses, Stepped(probe, addresses, s, steps[0]), steps[1..])
  }

  /** The values that the first `n` futures hold. */
  ghost function FutureValues(s: Sweep, n: nat): seq<Outcome>
    requires FuturesReady(s, n)
  {
    seq(n, i requires 0 <= i < n => s.results[s.futures[i]])
  }

  ghost predicate FuturesReady(s: Sweep, n: nat) {
    n <= |s.futures| && forall i :: 0 <= i < n ==> s.futures[i] in s.results
  }

  // What every step keeps

  ghost predicate FuturesMatch(probe: string -> Outcome, addresses: seq<string>, s: Sweep) {
    && |s.futures| <= |addresses|
    && (forall k :: 0 <= k < |s.futures| ==> s.futures[k] in s.jobs && s.jobs[s.futures[k]] == addresses[k])
    && (forall t :: t in s.jobs ==> t in s.pool.accepted)
    && (forall t :: t in s.jobs ==> (t in s.results <==> t in s.pool.finished))
    && (forall t :: t in s.results ==> t in s.jobs && s.results[t] == probe(s.jobs[t]))
  }

  ghost predicate FoundSoFar(probe: string -> Outcome, addresses: seq<string>, s: Sweep) {
    match s.phase
    case Submitting => s.found == []
    case Collecting(k) =>
      |s.futures| == |addresses| && FuturesReady(s, k) && s.found == KeptAll(FutureValues(s, k))
    case Done =>
      |s.futures| == |addresses| && FuturesReady(s, |addresses|)
      && s.found == KeptAll(FutureValues(s, |addresses|))
    case Threw => s.pool.stopping
  }

  ghost predicate SweepInvariant(probe: string -> Outcome, addresses: seq<string>, s: Sweep) {
    Invariant(s.pool) && FuturesMatch(probe, addresses, s) && FoundSoFar(probe, addresses, s)
  }

  lemma FinishedOnlyByFinish(p: Pool<Task>, step: Step<Task>)
    requires Invariant(p) && Enabled(p, step)
    ensures var q := Next(p, step);
            && (forall t :: t in p.accepted ==> t in q.accepted)
            && (forall t :: t in q.finished <==>
                  t in p.finished || (step.Finish? && t == p.workers[step.worker].task))
            && (p.stopping ==> q.stopping)
  {
    if step.Finish? {
      var q, task := Next(p, step), p.workers[step.worker].task;
      assert q.finished == p.finished + [task];
    }
  }

  lemma StepKeepsSweep(probe: string -> Outcome, addresses: seq<string>, s: Sweep, step: SweepStep)
    requires SweepInvariant(probe, addresses, s) && CanStep(addresses, s, step)
    ensures SweepInvariant(probe, addresses, Stepped(probe, addresses, s, step))
  {
    match step
    case SubmitNext(task) =>
      StepKeepsInvariant(s.pool, Submit(task));
      FinishedOnlyByFinish(s.pool, Submit(task));
      if !s.pool.stopping {
        NewTask(probe, addresses, s, task);
      }
    case StartCollecting =>
    case CollectNext => CollectKeepsSweep(probe, addresses, s);
    case OfPool(pstep) => PoolStepKeepsSweep(probe, addresses, s, pstep);
  }

  /** One turn of the collecting loop, as in `CollectFound`. */
  lemma CollectKeepsSweep(probe: string -> Outcome, addresses: seq<string>, s: Sweep)
    requires SweepInvariant(probe, addresses, s) && CanStep(addresses, s, CollectNext)
    ensures SweepInvariant(probe, addresses, Stepped(probe, addresses, s, CollectNext))
  {
    hide Invariant, Next, KeptAll, Kept;
    var k := s.phase.next;
    if k < |s.futures| {
      var t := Stepped(probe, addresses, s, CollectNext);
      assert FuturesReady(t, k + 1);
      KeptOneMore(FutureValues(s, k), s.results[s.futures[k]]);
      assert FutureValues(t, k + 1) == FutureValues(s, k) + [s.results[s.futures[k]]];
    }
  }

  lemma PoolStepKeepsSweep(probe: string -> Outcome, addresses: seq<string>, s: Sweep, step: Step<Task>)
    requires SweepInvariant(probe, addresses, s) && Enabled(s.pool, step)
    ensures SweepInvariant(probe, addresses, Stepped(probe, addresses, s, OfPool(step)))
  {
    hide Invariant, Next, KeptAll;
    var t := Stepped(probe, addresses, s, OfPool(step));
    StepKeepsInvariant(s.pool, step);
    FinishedOnlyByFinish(s.pool, step);
    if s.phase.Collecting? || s.phase.Done? {
      var n := if s.phase.Collecting? then s.phase.next else |addresses|;
      assert FutureValues(t, n) == FutureValues(s, n);
    }
  }

  lemma NewTask(probe: string -> Outcome, addresses: seq<string>, s: Sweep, task: Task)
    requires SweepInvariant(probe, addresses, s) && CanStep(addresses, s, SubmitNext(task)) && !s.pool.stopping
    ensures FuturesMatch(probe, addresses, Stepped(probe, addresses, s, SubmitNext(task)))
  {
    var p := s.pool;
    assert forall t :: t in p.finished ==> t in p.dequeued && t in p.accepted;
    assert task !in s.jobs && task !in p.finished && task !in s.results;
    assert Next(p, Submit(task)).accepted == p.accepted + [task];
  }

  lemma {:induction false} RunKeepsSweep(
      probe: string -> Outcome, addresses: seq<string>, s: Sweep, steps: seq<SweepStep>)
    requires SweepInvariant(probe, addresses, s) && ValidSweep(probe, addresses, s, steps)
    ensures SweepInvariant(probe, addresses, RunSweep(probe, addresses, s, steps))
    decreases |steps|
  {
    if steps != [] {
      StepKeepsSweep(probe, addresses, s, steps[0]);
      RunKeepsSweep(probe, addresses, Stepped(probe, addresses, s, steps[0]), steps[1..]);
    }
  }

  /** What the collecting loop has read so far is what probing the same addresses one by one gives. */
  lemma CollectedSoFar(probe: string -> Outcome, addresses: seq<string>, s: Sweep, n: nat)
    requires FuturesMatch(probe, addresses, s) && FuturesReady(s, n)
    ensures KeptAll(FutureValues(s, n)) == OneByOne(probe, addresses[..n])
  {
    CollectingIsOneByOne(probe, addresses[..n], FutureValues(s, n));
  }

  /** Started on a pool in any reachable state, under every interleaving, the sweep returns what probing
      the addresses one by one returns; at each moment before, it has the answer for the futures
      collected so far. It throws only when somebody has stopped the pool. */
  lemma SweepRefinesOneByOne(
      probe: string -> Outcome, addresses: seq<string>, pool: Pool<Task>, steps: seq<SweepStep>)
    requires Invariant(pool) && ValidSweep(probe, addresses, Start(pool), steps)
    ensures var s := RunSweep(probe, addresses, Start(pool), steps);
            && (s.phase.Done? ==> s.found == OneByOne(probe, addresses))
            && (s.phase.Collecting? ==>
                  s.phase.next <= |addresses| && s.found == OneByOne(probe, addresses[..s.phase.next]))
            && (s.phase.Threw? ==> s.pool.stopping)
            && (s.phase.Done? ==> exists positions :: PicksDetected(s.found, Probed(probe, addresses), positions))
  {
    RunKeepsSweep(probe, addresses, Start(pool), steps);
    var s := RunSweep(probe, addresses, Start(pool), steps);
    if s.phase.Collecting? {
      CollectedSoFar(probe, addresses, s, s.phase.next);
    } else if s.phase.Done? {
      CollectedSoFar(probe, addresses, s, |addresses|);
      assert addresses[..|addresses|] == addresses;
      CollectingIsOneByOne(probe, addresses, Probed(probe, addresses));
      var positions := KeptAllPicks(Probed(probe, addresses));
    }
  }

  /** The same without the reference: a sweep that has returned found SSH servers only, each the answer of
      its address, in the order of the addresses, and missed none. */
  lemma FoundAreTheDetected(
      probe: string -> Outcome, addresses: seq<string>, pool: Pool<Task>, steps: seq<SweepStep>)
      returns (positions: seq<nat>)
    requires Invariant(pool) && ValidSweep(probe, addresses, Start(pool), steps)
    requires RunSweep(probe, addresses, Start(pool), steps).phase.Done?
    ensures var found := RunSweep(probe, addresses, Start(pool), steps).found;
            && |positions| == |found|
            && (forall i, j :: 0 <= i < j < |positions| ==> positions[i] < positions[j])
            && (forall j :: 0 <= j < |positions| ==>
                  && positions[j] < |addresses| && probe(addresses[positions[j]]) == Answered(found[j])
                  && found[j].status == SshDetected)
    ensures forall i ::
      0 <= i < |addresses| && probe(addresses[i]).Answered? && probe(addresses[i]).result.status == SshDetected
      ==> i in positions
  {
    SweepRefinesOneByOne(probe, addresses, pool, steps);
    hide RunSweep, ValidSweep;
    var found := RunSweep(probe, addresses, Start(pool), steps).found;
    var outcomes := Probed(probe, addresses);
    positions :| PicksDetected(found, outcomes, positions);
    forall j | 0 <= j < |positions|
      ensures positions[j] < |addresses| && probe(addresses[positions[j]]) == Answered(found[j])
    {
      assert outcomes[positions[j]] == Answered(found[j]);
    }
    forall i | 0 <= i < |addresses| && probe(addresses[i]).Answered?
               && probe(addresses[i]).result.status == SshDetected
      ensures i in positions
    {
      assert outcomes[i] == probe(addresses[i]);
    }
  }

  // Progress

  /** The steps of the sweep and of the pool itself, as opposed to calls by others. */
  ghost predicate IsOwnStep(step: SweepStep) {
    step.OfPool? ==> IsPoolStep(step.step)
  }

  ghost predicate IsSpurious(step: SweepStep) {
    step.OfPool? && step.step.Wake?
  }

  function FreshTask(accepted: seq<Task>): (t: Task)
    ensures forall i :: 0 <= i < |accepted| ==> accepted[i] < t
  {
    if accepted == [] then 0
    else
      var t := FreshTask(accepted[..|accepted| - 1]);
      var u := accepted[|accepted| - 1];
      if u < t then t else u + 1
  }

  /** Neither loop ever blocks for good: until the sweep has returned or thrown, some step of its own or
      of the pool other than a spurious wake-up can be taken. */
  lemma SweepNeverStuck(probe: string -> Outcome, addresses: seq<string>, s: Sweep) returns (step: SweepStep)
    requires SweepInvariant(probe, addresses, s) && !s.phase.Done? && !s.phase.Threw?
    ensures CanStep(addresses, s, step) && IsOwnStep(step) && !IsSpurious(step)
  {
    match s.phase
    case Submitting =>
      step := if |s.futures| < |addresses| then SubmitNext(FreshTask(s.pool.accepted)) else StartCollecting;
    case Collecting(k) =>
      if k < |s.futures| && s.futures[k] !in s.results {
        var task := s.futures[k];
        assert task in s.jobs && task !in s.pool.finished;
        var pstep := UnfinishedWorkMoves(s.pool, task);
        step := OfPool(pstep);
      } else {
        step := CollectNext;
      }
  }

  function SweepRank(addresses: seq<string>, s: Sweep): nat {
    match s.phase
    case Submitting =>
      if |s.futures| <= |addresses| then 5 * (|addresses| - |s.futures|) + |addresses| + 2 else 0
    case Collecting(k) => if k <= |addresses| then |addresses| - k + 1 else 0
    case _ => 0
  }

  function SweepMeasure(addresses: seq<string>, s: Sweep): nat {
    Measure(s.pool) + SweepRank(addresses, s)
  }

  /** What a step may add to the work left: a submission or the stop by somebody else, or a spurious
      wake-up. The sweep's own submissions are paid for by its rank. */
  function CreditOf(workerCount: nat, step: SweepStep): nat {
    if step.OfPool? then Credit(workerCount, step.step) else 0
  }

  function CreditsOf(workerCount: nat, steps: seq<SweepStep>): nat {
    if steps == [] then 0 else CreditOf(workerCount, steps[0]) + CreditsOf(workerCount, steps[1..])
  }

  ghost function OwnSteps(steps: seq<SweepStep>): nat {
    if steps == [] then 0 else (if IsOwnStep(steps[0]) then 1 else 0) + OwnSteps(steps[1..])
  }

  lemma StepWithinCreditOf(probe: string -> Outcome, addresses: seq<string>, s: Sweep, step: SweepStep)
    requires SweepInvariant(probe, addresses, s) && CanStep(addresses, s, step)
    ensures var t := Stepped(probe, addresses, s, step);
            && |t.pool.workers| == |s.pool.workers|
            && SweepMeasure(addresses, t) + (if IsOwnStep(step) then 1 else 0)
               <= SweepMeasure(addresses, s) + CreditOf(|s.pool.workers|, step)
  {
    hide Total, Invariant;
    if step.OfPool? {
      StepWithinCredit(s.pool, step.step);
    }
  }

  /** Every run of the sweep, whoever else uses or stops the pool meanwhile: the sweep and the pool take
      no more steps than the work left and the credits of the others' calls and of the spurious wake-ups
      in the run allow. */
  lemma {:induction false} SweepRunsAreBounded(
      probe: string -> Outcome, addresses: seq<string>, s: Sweep, steps: seq<SweepStep>)
    requires SweepInvariant(probe, addresses, s) && ValidSweep(probe, addresses, s, steps)
    ensures OwnSteps(steps) + SweepMeasure(addresses, RunSweep(probe, addresses, s, steps))
         <= SweepMeasure(addresses, s) + CreditsOf(|s.pool.workers|, steps)
    decreases |steps|
  {
    hide SweepInvariant, SweepMeasure, Stepped, CanStep, CreditOf;
    if steps != [] {
      StepWithinCreditOf(probe, addresses, s, steps[0]);
      StepKeepsSweep(probe, addresses, s, steps[0]);
      SweepRunsAreBounded(probe, addresses, Stepped(probe, addresses, s, steps[0]), steps[1..]);
    }
  }

  /** Every run of the sweep, whoever else uses or stops the pool meanwhile, that cannot be continued by a
      step of its own or of the pool, except a spurious wake-up, has given the answer of probing one by
      one, or has thrown because the pool was stopped. */
  lemma SweepCompletes(
      probe: string -> Outcome, addresses: seq<string>, pool: Pool<Task>, steps: seq<SweepStep>)
    requires Invariant(pool) && ValidSweep(probe, addresses, Start(pool), steps)
    ensures var s := RunSweep(probe, addresses, Start(pool), steps);
            (forall step :: CanStep(addresses, s, step) && IsOwnStep(step) ==> IsSpurious(step)) ==>
              || (s.phase.Done? && s.found == OneByOne(probe, addresses))
              || (s.phase.Threw? && s.pool.stopping)
  {
    var s := RunSweep(probe, addresses, Start(pool), steps);
    RunKeepsSweep(probe, addresses, Start(pool), steps);
    SweepRefinesOneByOne(probe, addresses, pool, steps);
    if !s.phase.Done? && !s.phase.Threw? {
      var step := SweepNeverStuck(probe, addresses, s);
    }
  }

  /** Such a run exists from every state of the sweep, without calls by others. */
  lemma {:induction false} SweepReachesEnd(probe: string -> Outcome, addresses: seq<string>, s: Sweep)
      returns (steps: seq<SweepStep>)
    requires SweepInvariant(probe, addresses, s)
    ensures ValidSweep(probe, addresses, s, steps) && forall i :: 0 <= i < |steps| ==> IsOwnStep(steps[i])
    ensures var t := RunSweep(probe, addresses, s, steps); t.phase.Done? || t.phase.Threw?
    decreases SweepMeasure(addresses, s)
  {
    hide SweepMeasure, Stepped, CanStep;
    if s.phase.Done? || s.phase.Threw? {
      steps := [];
    } else {
      var step := SweepNeverStuck(probe, addresses, s);
      StepKeepsSweep(probe, addresses, s, step);
      StepWithinCreditOf(probe, addresses, s, step);
      var rest := SweepReachesEnd(probe, addresses, Stepped(probe, addresses, s, step));
      steps := [step] + rest;
      assert steps[1..] == rest;
    }
  }

  // Waiting for a future among the tasks of others

  /** How often a worker takes a task in the run, one of the sweep's or another. */
  ghost function SweepTakes(
      probe: string -> Outcome, addresses: seq<string>, s: Sweep, steps: seq<SweepStep>): nat
    requires ValidSweep(probe, addresses, s, steps)
    decreases |steps|
  {
    if steps == [] then 0
    else
      (if steps[0].OfPool? && steps[0].step.Lock? && s.pool.tasks != [] then 1 else 0)
      + SweepTakes(probe, addresses, Stepped(probe, addresses, s, steps[0]), steps[1..])
  }

  lemma {:induction false} SweepTakesAreCounted(
      probe: string -> Outcome, addresses: seq<string>, s: Sweep, steps: seq<SweepStep>)
    requires ValidSweep(probe, addresses, s, steps)
    ensures var t := RunSweep(probe, addresses, s, steps);
            && |t.pool.dequeued| == |s.pool.dequeued| + SweepTakes(probe, addresses, s, steps)
            && s.pool.accepted <= t.pool.accepted
    decreases |steps|
  {
    if steps != [] {
      SweepTakesAreCounted(probe, addresses, Stepped(probe, addresses, s, steps[0]), steps[1..]);
    }
  }

  /** No future waits for later submissions, however many there are: once the workers have taken as many
      tasks as are queued now, each task that the sweep has submitted so far is taken. */
  lemma FuturesAreNotOvertaken(
      probe: string -> Outcome, addresses: seq<string>, s: Sweep, steps: seq<SweepStep>)
    requires SweepInvariant(probe, addresses, s) && ValidSweep(probe, addresses, s, steps)
    requires SweepTakes(probe, addresses, s, steps) >= |s.pool.tasks|
    ensures forall k :: 0 <= k < |s.futures| ==>
      s.futures[k] in RunSweep(probe, addresses, s, steps).pool.dequeued
  {
    var t := RunSweep(probe, addresses, s, steps);
    RunKeepsSweep(probe, addresses, s, steps);
    SweepTakesAreCounted(probe, addresses, s, steps);
    forall k | 0 <= k < |s.futures| ensures s.futures[k] in t.pool.dequeued {
      assert s.futures[k] in s.jobs && s.futures[k] in s.pool.accepted;
      var i :| 0 <= i < |s.pool.accepted| && s.pool.accepted[i] == s.futures[k];
      assert t.pool.accepted[i] == s.futures[k] && t.pool.dequeued[i] == s.futures[k];
    }
  }
}
