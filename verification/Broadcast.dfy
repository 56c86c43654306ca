/** The broadcast fan-out: a loop that starts one worker per recipient behind a semaphore and waits for
  * all of them (internal/fsd_server/packet/client_manager.go).
  *
  * A protocol state is one point of an interleaving; the main loop, each worker and the environment,
  * which may disconnect and reconnect clients at any time, move one step at a time.
  */
module Broadcast {

  /** Where the main loop stands. `Acquiring` is between `wg.Add(1)` and `sem <- struct{}{}`,
    * `Spawning` between the latter and the `go` statement. */
  datatype Phase = Checking | Acquiring | Spawning | Returned

  /** Where the worker of a client stands: not started, about to hand over the message, about to release
    * the semaphore, about to call `wg.Done`, finished. */
  datatype Worker = Idle | Sending | Releasing | Signalling | Finished

  /** One call: `sender` and `passes` say which snapshot entries are the sender and pass the filter. */
  datatype Call = Call(sender: seq<bool>, passes: seq<bool>, maxWorkers: nat)

  datatype State = State(
    phase: Phase, next: nat, disconnected: seq<bool>,
    chosen: seq<bool>,             // the loop's decision for each client it has passed
    workers: seq<Worker>, delivered: seq<nat>,
    sem: nat, wg: nat)

  ghost predicate Init(call: Call, s: State) {
    && |call.sender| == |call.passes| == |s.disconnected| == |s.workers| == |s.delivered|
    && s.phase == Checking && s.next == 0 && s.chosen == []
    && (forall k :: 0 <= k < |s.workers| ==> s.workers[k] == Idle && s.delivered[k] == 0)
    && s.sem == 0 && s.wg == 0
  }

  ghost predicate Shape(call: Call, s: State) {
    && |call.sender| == |call.passes| == |s.disconnected| == |s.workers| == |s.delivered|
    && s.next <= |s.workers|
    && (s.phase == Acquiring || s.phase == Spawning ==> s.next < |s.workers|)
  }

  predicate Eligible(call: Call, s: State, k: nat)
    requires k < |call.sender| == |call.passes| == |s.disconnected|
  {
    !call.sender[k] && !s.disconnected[k] && call.passes[k]
  }

  datatype Step =
    | Check                        // the loop looks at the next client
    | Acquire
    | Spawn
    | Return                       // `wg.Wait` lets the call return
    | Send(k: nat)
    | Release(k: nat)
    | Signal(k: nat)
    | Environment(k: nat, disconnected: bool)

  predicate InStage(s: State, k: nat, stage: Worker) {
    k < |s.workers| && s.workers[k] == stage
  }

  ghost predicate Enabled(call: Call, s: State, step: Step) {
    && Shape(call, s)
    && match step
       case Check => s.phase == Checking && s.next < |s.workers|
       case Acquire => s.phase == Acquiring && s.sem < call.maxWorkers
       case Spawn => s.phase == Spawning
       case Return => s.phase == Checking && s.next == |s.workers| && s.wg == 0
       case Send(k) => InStage(s, k, Sending)
       case Release(k) => InStage(s, k, Releasing) && s.sem > 0
       case Signal(k) => InStage(s, k, Signalling) && s.wg > 0
       case Environment(k, _) => k < |s.disconnected|
  }

  ghost function After(call: Call, s: State, step: Step): State
    requires Enabled(call, s, step)
  {
    match step
    case Check =>
      if Eligible(call, s, s.next) then s.(phase := Acquiring, chosen := s.chosen + [true], wg := s.wg + 1)
      else s.(next := s.next + 1, chosen := s.chosen + [false])
    case Acquire => s.(phase := Spawning, sem := s.sem + 1)
    case Spawn => s.(phase := Checking, next := s.next + 1, workers := s.workers[s.next := Sending])
    case Return => s.(phase := Returned)
    case Send(k) => s.(workers := s.workers[k := Releasing], delivered := s.delivered[k := s.delivered[k] + 1])
    case Release(k) => s.(workers := s.workers[k := Signalling], sem := s.sem - 1)
    case Signal(k) => s.(workers := s.workers[k := Finished], wg := s.wg - 1)
    case Environment(k, disconnected) => s.(disconnected := s.disconnected[k := disconnected])
  }

  // ---------------------------------------------------------------- counting workers

  /** Workers that hold the semaphore. */
  predicate Holds(worker: Worker) {
    worker == Sending || worker == Releasing
  }

  /** Workers the WaitGroup waits for. */
  predicate Runs(worker: Worker) {
    Holds(worker) || worker == Signalling
  }

  function Weight(worker: Worker): nat {
    match worker
    case Idle => 0
    case Sending => 3
    case Releasing => 2
    case Signalling => 1
    case Finished => 0
  }

  function Holders(workers: seq<Worker>): nat {
    if workers == [] then 0
    else Holders(workers[..|workers| - 1]) + (if Holds(workers[|workers| - 1]) then 1 else 0)
  }

  function Running(workers: seq<Worker>): nat {
    if workers == [] then 0
    else Running(workers[..|workers| - 1]) + (if Runs(workers[|workers| - 1]) then 1 else 0)
  }

  function Pending(workers: seq<Worker>): nat {
    if workers == [] then 0
    else Pending(workers[..|workers| - 1]) + Weight(workers[|workers| - 1])
  }

  /** Changing one worker changes the counts by what that worker contributes. */
  lemma {:induction false} CountsAfterChange(workers: seq<Worker>, k: nat, worker: Worker)
    requires k < |workers|
    ensures Holders(workers[k := worker]) + (if Holds(workers[k]) then 1 else 0)
         == Holders(workers) + (if Holds(worker) then 1 else 0)
    ensures Running(workers[k := worker]) + (if Runs(workers[k]) then 1 else 0)
         == Running(workers) + (if Runs(worker) then 1 else 0)
    ensures Pending(workers[k := worker]) + Weight(workers[k]) == Pending(workers) + Weight(worker)
    decreases |workers|
  {
    var front, changed := workers[..|workers| - 1], workers[k := worker];
    if k == |workers| - 1 {
      assert changed[..|workers| - 1] == front;
    } else {
      CountsAfterChange(front, k, worker);
      assert changed[..|workers| - 1] == front[k := worker];
    }
  }

  lemma {:induction false} CountsOfIdle(workers: seq<Worker>)
    requires forall k :: 0 <= k < |workers| ==> workers[k] == Idle || workers[k] == Finished
    ensures Holders(workers) == 0 && Running(workers) == 0
  {
    if workers != [] {
      CountsOfIdle(workers[..|workers| - 1]);
    }
  }

  lemma {:induction false} RunningWitness(workers: seq<Worker>) returns (k: nat)
    requires Running(workers) > 0
    ensures k < |workers| && Runs(workers[k])
  {
    if Runs(workers[|workers| - 1]) {
      k := |workers| - 1;
    } else {
      k := RunningWitness(workers[..|workers| - 1]);
    }
  }

  lemma {:induction false} NoneRunning(workers: seq<Worker>)
    requires Running(workers) == 0
    ensures forall k :: 0 <= k < |workers| ==> !Runs(workers[k])
  {
    if workers != [] {
      NoneRunning(workers[..|workers| - 1]);
    }
  }

  lemma {:induction false} HoldersAreRunning(workers: seq<Worker>)
    ensures Holders(workers) <= Running(workers)
  {
    if workers != [] {
      HoldersAreRunning(workers[..|workers| - 1]);
    }
  }

  // ---------------------------------------------------------------- the invariant

  /** Decisions and workers agree: exactly the chosen clients behind the loop have a worker, and the message
    * has been handed over exactly once by a worker past its send. */
  ghost predicate WorkersOk(s: State) {
    && |s.delivered| == |s.workers|
    && |s.chosen| == s.next + (if s.phase == Acquiring || s.phase == Spawning then 1 else 0)
    && |s.chosen| <= |s.workers|
    && (s.phase == Acquiring || s.phase == Spawning ==> s.chosen[s.next])
    && (forall k :: 0 <= k < |s.workers| ==> (s.workers[k] != Idle <==> k < s.next && s.chosen[k]))
    && (forall k :: 0 <= k < |s.workers| ==>
          s.delivered[k] == if s.workers[k] == Idle || s.workers[k] == Sending then 0 else 1)
  }

  ghost predicate CountsOk(call: Call, s: State) {
    && s.sem == Holders(s.workers) + (if s.phase == Spawning then 1 else 0)
    && s.wg == Running(s.workers) + (if s.phase == Acquiring || s.phase == Spawning then 1 else 0)
    && s.sem <= call.maxWorkers
    && (call.maxWorkers == 0 ==>
          s.phase != Spawning && forall k :: 0 <= k < |s.workers| ==> s.workers[k] == Idle)
  }

  ghost predicate Ok(call: Call, s: State) {
    Shape(call, s) && WorkersOk(s) && CountsOk(call, s) && DecisionsOk(call, s) && EndOk(s)
  }

  /** Only clients that are not the sender and pass the filter are chosen. */
  ghost predicate DecisionsOk(call: Call, s: State) {
    |s.chosen| <= |call.sender| == |call.passes|
    && forall k :: 0 <= k < |s.chosen| && s.chosen[k] ==> !call.sender[k] && call.passes[k]
  }

  ghost predicate EndOk(s: State) {
    s.phase == Returned ==> s.next == |s.workers| && s.wg == 0
  }

  lemma InitOk(call: Call, s: State)
    requires Init(call, s)
    ensures Ok(call, s)
  {
    CountsOfIdle(s.workers);
  }

  lemma StepKeepsCounts(call: Call, s: State, step: Step)
    requires Ok(call, s) && Enabled(call, s, step)
    ensures CountsOk(call, After(call, s, step))
  {
    hide Holders, Running, Pending;
    match step {
      case Spawn => CountsAfterChange(s.workers, s.next, Sending);
      case Send(k) => CountsAfterChange(s.workers, k, Releasing);
      case Release(k) => CountsAfterChange(s.workers, k, Signalling);
      case Signal(k) => CountsAfterChange(s.workers, k, Finished);
      case _ =>
    }
  }

  lemma NobodyRuns(call: Call, s: State)
    requires CountsOk(call, s) && s.wg == 0
    ensures forall k :: 0 <= k < |s.workers| ==> !Runs(s.workers[k])
  {
    NoneRunning(s.workers);
  }

  lemma StepKeepsWorkers(call: Call, s: State, step: Step)
    requires Shape(call, s) && WorkersOk(s) && Enabled(call, s, step)
    ensures Shape(call, After(call, s, step)) && WorkersOk(After(call, s, step))
  {
  }

  lemma StepKeepsDecisions(call: Call, s: State, step: Step)
    requires Enabled(call, s, step) && WorkersOk(s) && DecisionsOk(call, s)
    ensures DecisionsOk(call, After(call, s, step))
  {
    OnlyCheckDecides(call, s, step);
  }

  lemma StepKeepsEnd(call: Call, s: State, step: Step)
    requires CountsOk(call, s) && EndOk(s) && Enabled(call, s, step)
    ensures EndOk(After(call, s, step))
  {
    if s.phase == Returned {
      NobodyRuns(call, s);
    }
  }

  lemma StepKeepsOk(call: Call, s: State, step: Step)
    requires Ok(call, s) && Enabled(call, s, step)
    ensures Ok(call, After(call, s, step))
  {
    hide After, Shape, WorkersOk, CountsOk, DecisionsOk, EndOk;
    StepKeepsCounts(call, s, step);
    StepKeepsWorkers(call, s, step);
    StepKeepsDecisions(call, s, step);
    StepKeepsEnd(call, s, step);
  }

  /** Only the loop decides, one client at a time, by what it sees at that moment. */
  lemma OnlyCheckDecides(call: Call, s: State, step: Step)
    requires Enabled(call, s, step)
    ensures After(call, s, step).chosen
         == if step == Check then s.chosen + [Eligible(call, s, s.next)] else s.chosen
  {
  }

  // ---------------------------------------------------------------- progress

  /** Protocol steps still to be made at most. */
  function Measure(s: State): int {
    Pending(s.workers) + if s.phase == Returned then 0
    else 1 + 6 * (|s.workers| - s.next) - (if s.phase == Acquiring then 1 else if s.phase == Spawning then 2 else 0)
  }

  lemma {:induction false} PendingOfIdle(workers: seq<Worker>)
    requires forall k :: 0 <= k < |workers| ==> workers[k] == Idle
    ensures Pending(workers) == 0
  {
    if workers != [] {
      PendingOfIdle(workers[..|workers| - 1]);
    }
  }

  lemma StepDecreasesMeasure(call: Call, s: State, step: Step)
    requires Ok(call, s) && Enabled(call, s, step)
    ensures Measure(After(call, s, step)) >= 0
    ensures if step.Environment? then Measure(After(call, s, step)) == Measure(s)
            else Measure(After(call, s, step)) < Measure(s)
  {
    hide CountsOk, Holders, Running, Pending;
    match step {
      case Spawn => CountsAfterChange(s.workers, s.next, Sending);
      case Send(k) => CountsAfterChange(s.workers, k, Releasing);
      case Release(k) => CountsAfterChange(s.workers, k, Signalling);
      case Signal(k) => CountsAfterChange(s.workers, k, Finished);
      case _ =>
    }
  }

  ghost predicate Stuck(call: Call, s: State) {
    forall step: Step :: Enabled(call, s, step) ==> step.Environment?
  }

  lemma WorkerMoves(call: Call, s: State) returns (step: Step)
    requires Ok(call, s) && Running(s.workers) > 0
    ensures Enabled(call, s, step) && !step.Environment?
  {
    var k := RunningWitness(s.workers);
    match s.workers[k] {
      case Sending => step := Send(k);
      case Releasing =>
        CountsAfterChange(s.workers, k, Idle);
        step := Release(k);
      case Signalling => step := Signal(k);
    }
  }

  /** A state in order is stuck exactly when the call has returned or waits at a semaphore without room;
    * `CallStuckExactly` says which runs get there. */
  lemma StuckExactly(call: Call, s: State)
    requires Ok(call, s)
    ensures Stuck(call, s) <==> s.phase == Returned || (s.phase == Acquiring && call.maxWorkers == 0)
  {
    HoldersAreRunning(s.workers);
    if Running(s.workers) > 0 {
      var step := WorkerMoves(call, s);
      assert !Stuck(call, s);
    } else {
      NoneRunning(s.workers);
      match s.phase {
        case Checking => assert if s.next < |s.workers| then Enabled(call, s, Check) else Enabled(call, s, Return);
        case Acquiring => assert call.maxWorkers > 0 ==> Enabled(call, s, Acquire);
        case Spawning => assert Enabled(call, s, Spawn);
        case Returned =>
      }
    }
  }

  // ---------------------------------------------------------------- runs

  ghost predicate IsRun(call: Call, s0: State, steps: seq<Step>)
    decreases |steps|, 0
  {
    steps == []
    || (IsRun(call, s0, steps[..|steps| - 1])
        && Enabled(call, Reached(call, s0, steps[..|steps| - 1]), steps[|steps| - 1]))
  }

  ghost function Reached(call: Call, s0: State, steps: seq<Step>): State
    requires IsRun(call, s0, steps)
    decreases |steps|, 1
  {
    if steps == [] then s0
    else After(call, Reached(call, s0, steps[..|steps| - 1]), steps[|steps| - 1])
  }

  function ProtocolSteps(steps: seq<Step>): nat {
    if steps == [] then 0
    else ProtocolSteps(steps[..|steps| - 1]) + (if steps[|steps| - 1].Environment? then 0 else 1)
  }

  lemma StepKeepsSize(call: Call, s: State, step: Step)
    requires Ok(call, s) && Enabled(call, s, step)
    ensures |After(call, s, step).workers| == |s.workers|
  {
  }

  lemma MeasureNonNegative(call: Call, s: State)
    requires Ok(call, s)
    ensures Measure(s) >= 0
  {
  }

  lemma {:induction false} RunKeepsOk(call: Call, s0: State, steps: seq<Step>)
    requires Ok(call, s0) && IsRun(call, s0, steps)
    ensures Ok(call, Reached(call, s0, steps))
    ensures |Reached(call, s0, steps).workers| == |s0.workers|
    ensures ProtocolSteps(steps) + Measure(Reached(call, s0, steps)) <= Measure(s0)
    ensures Measure(Reached(call, s0, steps)) >= 0
    decreases |steps|
  {
    if steps == [] {
      MeasureNonNegative(call, s0);
    } else {
      var front, last := steps[..|steps| - 1], steps[|steps| - 1];
      RunKeepsOk(call, s0, front);
      var s := Reached(call, s0, front);
      StepKeepsOk(call, s, last);
      StepKeepsSize(call, s, last);
      StepDecreasesMeasure(call, s, last);
      hide Ok, Measure, Enabled, After;
    }
  }

  /** In every interleaving: at most `MaxBroadcastWorkers` workers hold the semaphore, nobody is handed the
    * message twice, the sender and clients outside the filter never get it, and the protocol takes at most
    * six steps per snapshot client and one to return. */
  lemma BroadcastSafety(call: Call, s0: State, steps: seq<Step>, k: nat)
    requires Init(call, s0) && IsRun(call, s0, steps) && k < |s0.workers|
    ensures var s := Reached(call, s0, steps);
      && Holders(s.workers) <= call.maxWorkers
      && |s.delivered| == |s0.workers| && s.delivered[k] <= 1
      && (call.sender[k] || !call.passes[k] ==> s.delivered[k] == 0)
      && ProtocolSteps(steps) <= 6 * |s0.workers| + 1
  {
    InitOk(call, s0);
    PendingOfIdle(s0.workers);
    RunKeepsOk(call, s0, steps);
  }

  /** The call returns only after every worker has finished, and then exactly the chosen clients have been
    * handed the message, once each. */
  lemma ReturnedIsComplete(call: Call, s0: State, steps: seq<Step>, k: nat)
    requires Init(call, s0) && IsRun(call, s0, steps) && k < |s0.workers|
    requires Reached(call, s0, steps).phase == Returned
    ensures var s := Reached(call, s0, steps);
      && |s.chosen| == |s.workers| == |s.delivered| == |s0.workers|
      && s.workers[k] == (if s.chosen[k] then Finished else Idle)
      && s.delivered[k] == (if s.chosen[k] then 1 else 0)
  {
    InitOk(call, s0);
    RunKeepsOk(call, s0, steps);
    NoneRunning(Reached(call, s0, steps).workers);
  }

  // ---------------------------------------------------------------- who gets the message

  lemma {:induction false} PrefixIsRun(call: Call, s0: State, steps: seq<Step>, n: nat)
    requires IsRun(call, s0, steps) && n <= |steps|
    ensures IsRun(call, s0, steps[..n])
    decreases |steps|
  {
    if n == |steps| {
      assert steps[..n] == steps;
    } else {
      var front := steps[..|steps| - 1];
      PrefixIsRun(call, s0, front, n);
      assert front[..n] == steps[..n];
    }
  }

  /** In step `i` of the run the loop looks at client `k`. */
  ghost predicate LooksAt(call: Call, s0: State, steps: seq<Step>, i: nat, k: nat) {
    && i < |steps| && steps[i] == Check && IsRun(call, s0, steps[..i])
    && Enabled(call, Reached(call, s0, steps[..i]), Check)
    && Reached(call, s0, steps[..i]).next == k
  }

  /** In step `i` of the run the loop looks at client `k` and finds it eligible. */
  ghost predicate FindsEligible(call: Call, s0: State, steps: seq<Step>, i: nat, k: nat) {
    LooksAt(call, s0, steps, i, k) && Eligible(call, Reached(call, s0, steps[..i]), k)
  }

  /** The last step of a run adds a decision if it is a look, and only then. */
  lemma LastDecision(call: Call, s0: State, steps: seq<Step>)
    requires Init(call, s0) && IsRun(call, s0, steps) && steps != []
    ensures var front, last := steps[..|steps| - 1], steps[|steps| - 1];
      && IsRun(call, s0, front) && Enabled(call, Reached(call, s0, front), last)
      && (last == Check ==> |Reached(call, s0, front).chosen| == Reached(call, s0, front).next)
      && Reached(call, s0, steps).chosen
         == Reached(call, s0, front).chosen
            + if last == Check then [Eligible(call, Reached(call, s0, front), Reached(call, s0, front).next)] else []
  {
    var front := steps[..|steps| - 1];
    InitOk(call, s0);
    RunKeepsOk(call, s0, front);
    OnlyCheckDecides(call, Reached(call, s0, front), steps[|steps| - 1]);
    hide After, Eligible, CountsOk, DecisionsOk, EndOk, Measure, ProtocolSteps, Init;
  }

  /** In every interleaving a client is chosen exactly if it is eligible in the step that looks at it, and the
    * decision is final. */
  lemma {:induction false} DecidedAtCheck(call: Call, s0: State, steps: seq<Step>, i: nat, k: nat)
    requires Init(call, s0) && IsRun(call, s0, steps) && LooksAt(call, s0, steps, i, k)
    ensures k < |Reached(call, s0, steps).chosen|
    ensures Reached(call, s0, steps).chosen[k] <==> FindsEligible(call, s0, steps, i, k)
    decreases |steps|
  {
    var front := steps[..|steps| - 1];
    LastDecision(call, s0, steps);
    hide After, Enabled, Eligible, Init, IsRun, Reached;
    if i < |front| {
      assert front[..i] == steps[..i];
      DecidedAtCheck(call, s0, front, i, k);
    }
  }

  lemma NothingChosen(call: Call, s0: State)
    requires Init(call, s0)
    ensures Reached(call, s0, []).chosen == []
  {
  }

  /** Every client behind the loop has been looked at. */
  lemma {:induction false} WasLookedAt(call: Call, s0: State, steps: seq<Step>, k: nat) returns (i: nat)
    requires Init(call, s0) && IsRun(call, s0, steps) && k < |Reached(call, s0, steps).chosen|
    ensures LooksAt(call, s0, steps, i, k)
    decreases |steps|
  {
    NothingChosen(call, s0);
    var front := steps[..|steps| - 1];
    LastDecision(call, s0, steps);
    hide After, Enabled, Eligible, Init, IsRun, Reached;
    if k < |Reached(call, s0, front).chosen| {
      i := WasLookedAt(call, s0, front, k);
      assert front[..i] == steps[..i];
    } else {
      i := |front|;
    }
  }

  /** Whatever clients connect and disconnect meanwhile: when the call has returned, each client of the snapshot
    * has been looked at, and it has the message, once, exactly if it was then connected, is not the sender and
    * passes the filter. */
  lemma DeliveredAsSeen(call: Call, s0: State, steps: seq<Step>, k: nat) returns (i: nat)
    requires Init(call, s0) && IsRun(call, s0, steps) && k < |s0.workers|
    requires Reached(call, s0, steps).phase == Returned
    ensures LooksAt(call, s0, steps, i, k) && |Reached(call, s0, steps).delivered| == |s0.workers|
    ensures |Reached(call, s0, steps[..i]).disconnected| == |s0.workers|
    ensures Reached(call, s0, steps).delivered[k]
         == if !call.sender[k] && !Reached(call, s0, steps[..i]).disconnected[k] && call.passes[k] then 1 else 0
  {
    ReturnedIsComplete(call, s0, steps, k);
    i := WasLookedAt(call, s0, steps, k);
    DecidedAtCheck(call, s0, steps, i, k);
  }

  /** The connection of client `k` does not change during the run. */
  ghost predicate Steady(steps: seq<Step>, k: nat) {
    forall i :: 0 <= i < |steps| && steps[i].Environment? ==> steps[i].k != k
  }

  lemma StepKeepsConnection(call: Call, s: State, step: Step, k: nat)
    requires Enabled(call, s, step) && k < |s.disconnected| && (step.Environment? ==> step.k != k)
    ensures |After(call, s, step).disconnected| == |s.disconnected|
    ensures After(call, s, step).disconnected[k] == s.disconnected[k]
  {
  }

  lemma {:induction false} SteadyStays(call: Call, s0: State, steps: seq<Step>, k: nat)
    requires IsRun(call, s0, steps) && k < |s0.disconnected| && Steady(steps, k)
    ensures |Reached(call, s0, steps).disconnected| == |s0.disconnected|
    ensures Reached(call, s0, steps).disconnected[k] == s0.disconnected[k]
    decreases |steps|
  {
    hide After, Enabled;
    if steps != [] {
      var front := steps[..|steps| - 1];
      SteadyStays(call, s0, front, k);
      StepKeepsConnection(call, Reached(call, s0, front), steps[|steps| - 1], k);
    }
  }

  /** A client whose own connection does not change gets the message exactly if it is eligible at the start,
    * whatever the others do. */
  lemma SteadyClientReached(call: Call, s0: State, steps: seq<Step>, k: nat)
    requires Init(call, s0) && IsRun(call, s0, steps) && k < |s0.workers| && Steady(steps, k)
    requires Reached(call, s0, steps).phase == Returned
    ensures |Reached(call, s0, steps).delivered| == |s0.workers|
    ensures Reached(call, s0, steps).delivered[k]
         == if !call.sender[k] && !s0.disconnected[k] && call.passes[k] then 1 else 0
  {
    var i := DeliveredAsSeen(call, s0, steps, k);
    SteadyStays(call, s0, steps[..i], k);
  }

  /** No connection changes at all. */
  ghost predicate Quiet(steps: seq<Step>) {
    forall i :: 0 <= i < |steps| ==> !steps[i].Environment?
  }

  /** When no client changes its connection during the call, the call hands the message exactly to the
    * snapshot's clients that are not the sender, are connected and pass the filter. */
  lemma QuietBroadcastReachesEligible(call: Call, s0: State, steps: seq<Step>, k: nat)
    requires Init(call, s0) && IsRun(call, s0, steps) && Quiet(steps) && k < |s0.workers|
    requires Reached(call, s0, steps).phase == Returned
    ensures |Reached(call, s0, steps).delivered| == |s0.workers|
    ensures Reached(call, s0, steps).delivered[k]
         == if !call.sender[k] && !s0.disconnected[k] && call.passes[k] then 1 else 0
  {
    SteadyClientReached(call, s0, steps, k);
  }

  // ---------------------------------------------------------------- when the call returns

  /** Without room in the semaphore the loop blocks at the first client it chooses. */
  lemma NoRoomBlocks(call: Call, s: State, k: nat)
    requires Ok(call, s) && call.maxWorkers == 0 && k < |s.chosen| && s.chosen[k]
    ensures s.phase == Acquiring && s.next == k
  {
  }

  /** In every interleaving the call cannot go on before it has returned if and only if `MaxBroadcastWorkers` is 0
    * and the loop has looked at an eligible client. With room for one worker it never gets stuck. */
  lemma CallStuckExactly(call: Call, s0: State, steps: seq<Step>)
    requires Init(call, s0) && IsRun(call, s0, steps)
    ensures var s := Reached(call, s0, steps);
      Stuck(call, s) && s.phase != Returned
      <==> call.maxWorkers == 0 && exists i: nat, k: nat :: FindsEligible(call, s0, steps, i, k)
  {
    var s := Reached(call, s0, steps);
    InitOk(call, s0);
    RunKeepsOk(call, s0, steps);
    StuckExactly(call, s);
    if call.maxWorkers == 0 {
      if s.phase == Acquiring {
        assert s.chosen[s.next];
        var i := WasLookedAt(call, s0, steps, s.next);
        DecidedAtCheck(call, s0, steps, i, s.next);
        assert FindsEligible(call, s0, steps, i, s.next);
      } else if i: nat, k: nat :| FindsEligible(call, s0, steps, i, k) {
        DecidedAtCheck(call, s0, steps, i, k);
        NoRoomBlocks(call, s, k);
        assert false;
      }
    }
  }

  /** With `MaxBroadcastWorkers` 0 the call does not return while a client that is eligible at the start keeps
    * its connection. */
  lemma NoRoomNeverReturns(call: Call, s0: State, steps: seq<Step>, k: nat)
    requires Init(call, s0) && IsRun(call, s0, steps) && call.maxWorkers == 0
    requires k < |s0.workers| && Steady(steps, k) && Eligible(call, s0, k)
    ensures Reached(call, s0, steps).phase != Returned
  {
    if Reached(call, s0, steps).phase == Returned {
      SteadyClientReached(call, s0, steps, k);
      ReturnedIsComplete(call, s0, steps, k);
      InitOk(call, s0);
      RunKeepsOk(call, s0, steps);
      NoRoomBlocks(call, Reached(call, s0, steps), k);
      assert false;
    }
  }

  /** A call during which no connection changes and that has come to rest has returned exactly if there is room
    * for a worker or nobody to send to. */
  lemma QuietCallReturnsExactly(call: Call, s0: State, steps: seq<Step>)
    requires Init(call, s0) && IsRun(call, s0, steps) && Quiet(steps) && Stuck(call, Reached(call, s0, steps))
    ensures Reached(call, s0, steps).phase == Returned
       <==> call.maxWorkers >= 1 || forall k :: 0 <= k < |call.sender| ==> !Eligible(call, s0, k)
  {
    CallStuckExactly(call, s0, steps);
    if Reached(call, s0, steps).phase == Returned {
      if call.maxWorkers == 0 {
        forall k | 0 <= k < |call.sender| ensures !Eligible(call, s0, k) {
          if Eligible(call, s0, k) {
            NoRoomNeverReturns(call, s0, steps, k);
            assert false;
          }
        }
      }
    } else {
      var i: nat, k: nat :| FindsEligible(call, s0, steps, i, k);
      SteadyStays(call, s0, steps[..i], k);
      assert Eligible(call, s0, k);
    }
  }

  /** A broadcast to a single client with `MaxBroadcastWorkers` 0 is stuck after its first step. */
  lemma NoWorkersBlock()
    ensures var call := Call([false], [true], 0);
      var s0 := State(Checking, 0, [false], [], [Idle], [0], 0, 0);
      && Init(call, s0) && IsRun(call, s0, [Check])
      && Reached(call, s0, [Check]).phase != Returned && Stuck(call, Reached(call, s0, [Check]))
  {
    var call := Call([false], [true], 0);
    var s0 := State(Checking, 0, [false], [], [Idle], [0], 0, 0);
    assert [Check][..0] == [];
    assert IsRun(call, s0, [Check][..0]) && Enabled(call, s0, Check);
    assert LooksAt(call, s0, [Check], 0, 0);
    assert FindsEligible(call, s0, [Check], 0, 0);
    CallStuckExactly(call, s0, [Check]);
  }
}
