/** The double-checked cache (internal/utils/cached_value.go) with a positive cache time.
  *
  * Any number of callers move one step at a time: they take and release the read lock and the write lock,
  * make the two checks and run the getter. The clock moves between steps and never goes back.
  */
module CachedValue {
  import opened Wrappers

  /** Where a caller stands. `ReadHit` and `WriteHit` have passed a check and still hold their lock. */
  datatype Caller =
    | Outside
    | Reading
    | ReadHit(check: int)
    | WantWrite
    | Writing
    | WriteHit(check: int)
    | Refreshing

  /** A value as returned, with the check that released it. */
  datatype Return = Return(value: int, generated: int, check: int)

  /** A finished refresh; the getter may return nil. */
  datatype Refresh = Refresh(started: int, finished: int, value: Option<int>)

  datatype State = State(
    clock: int, data: Option<int>, generateTime: int,
    callers: seq<Caller>, readers: set<nat>, writer: Option<nat>,
    refreshStart: int,               // when the running refresh started
    refreshes: seq<Refresh>, answers: seq<Return>)

  datatype Step =
    | Tick(clock: int)
    | RLock(k: nat) | ReadCheck(k: nat) | ReadReturn(k: nat)
    | Lock(k: nat) | WriteCheck(k: nat) | WriteReturn(k: nat)
    | Finish(k: nat, value: Option<int>)

  ghost predicate Init(s: State) {
    && s.data == None && s.readers == {} && s.writer == None && s.refreshes == [] && s.answers == []
    && forall k :: 0 <= k < |s.callers| ==> s.callers[k] == Outside
  }

  /** The test of both checks. */
  predicate Current(s: State, cacheTime: int) {
    s.data.Some? && s.clock - s.generateTime <= cacheTime
  }

  predicate At(s: State, k: nat, caller: Caller) {
    k < |s.callers| && s.callers[k] == caller
  }

  predicate Enabled(s: State, step: Step) {
    match step
    case Tick(clock) => clock >= s.clock
    case RLock(k) => At(s, k, Outside) && s.writer == None
    case ReadCheck(k) => At(s, k, Reading)
    case ReadReturn(k) => k < |s.callers| && s.callers[k].ReadHit? && s.data.Some?
    case Lock(k) => At(s, k, WantWrite) && s.writer == None && s.readers == {}
    case WriteCheck(k) => At(s, k, Writing)
    case WriteReturn(k) => k < |s.callers| && s.callers[k].WriteHit? && s.data.Some?
    case Finish(k, _) => At(s, k, Refreshing)
  }

  function After(s: State, step: Step, cacheTime: int): State
    requires Enabled(s, step)
  {
    match step
    case Tick(clock) => s.(clock := clock)
    case RLock(k) => s.(callers := s.callers[k := Reading], readers := s.readers + {k})
    case ReadCheck(k) =>
      if Current(s, cacheTime) then s.(callers := s.callers[k := ReadHit(s.clock)])
      else s.(callers := s.callers[k := WantWrite], readers := s.readers - {k})
    case ReadReturn(k) =>
      s.(callers := s.callers[k := Outside], readers := s.readers - {k},
         answers := s.answers + [Return(s.data.value, s.generateTime, s.callers[k].check)])
    case Lock(k) => s.(callers := s.callers[k := Writing], writer := Some(k))
    case WriteCheck(k) =>
      if Current(s, cacheTime) then s.(callers := s.callers[k := WriteHit(s.clock)])
      else s.(callers := s.callers[k := Refreshing], refreshStart := s.clock)
    case WriteReturn(k) =>
      s.(callers := s.callers[k := Outside], writer := None,
         answers := s.answers + [Return(s.data.value, s.generateTime, s.callers[k].check)])
    case Finish(k, value) =>
      s.(callers := s.callers[k := Outside], writer := None, data := value, generateTime := s.clock,
         refreshes := s.refreshes + [Refresh(s.refreshStart, s.clock, value)],
         answers := if value.Some? then s.answers + [Return(value.value, s.clock, s.clock)] else s.answers)
  }

  // ---------------------------------------------------------------- the invariant

  predicate HoldsRead(caller: Caller) {
    caller.Reading? || caller.ReadHit?
  }

  predicate HoldsWrite(caller: Caller) {
    caller.Writing? || caller.WriteHit? || caller.Refreshing?
  }

  /** The locks are held by exactly the callers that think so, never both at once. */
  ghost predicate LocksOk(s: State) {
    && (forall k: nat :: k in s.readers <==> k < |s.callers| && HoldsRead(s.callers[k]))
    && (forall k: nat :: s.writer == Some(k) <==> k < |s.callers| && HoldsWrite(s.callers[k]))
    && (s.writer.Some? ==> s.readers == {})
  }

  /** A caller past its check may still return the value it saw. */
  ghost predicate HitsOk(s: State, cacheTime: int) {
    forall k :: 0 <= k < |s.callers| && (s.callers[k].ReadHit? || s.callers[k].WriteHit?) ==>
      s.data.Some? && s.callers[k].check - s.generateTime <= cacheTime && s.callers[k].check <= s.clock
  }

  /** The stored value is that of the latest refresh, and a running refresh started when it was out of date. */
  ghost predicate DataOk(s: State, cacheTime: int) {
    && (if s.refreshes == [] then s.data == None
        else var last := s.refreshes[|s.refreshes| - 1]; s.data == last.value && s.generateTime == last.finished)
    && (s.data.Some? ==> s.generateTime <= s.clock)
    && (forall k :: 0 <= k < |s.callers| && s.callers[k].Refreshing? ==>
          s.refreshStart <= s.clock && (s.data.Some? ==> s.refreshStart - s.generateTime > cacheTime))
  }

  /** A non-nil value is refreshed only when it is older than the cache time. */
  ghost predicate RefreshesOk(s: State, cacheTime: int) {
    && (forall i :: 0 <= i < |s.refreshes| ==> s.refreshes[i].started <= s.refreshes[i].finished <= s.clock)
    && (forall i :: 0 < i < |s.refreshes| && s.refreshes[i - 1].value.Some? ==>
          s.refreshes[i].started - s.refreshes[i - 1].finished > cacheTime)
  }

  ghost predicate Generated(s: State, r: Return) {
    exists i :: 0 <= i < |s.refreshes|
                && s.refreshes[i].value == Some(r.value) && s.refreshes[i].finished == r.generated
  }

  /** Every returned value comes from a refresh that finished no longer than the cache time before the check. */
  ghost predicate ReturnsOk(s: State, cacheTime: int) {
    forall i :: 0 <= i < |s.answers| ==>
      Generated(s, s.answers[i]) && s.answers[i].check - s.answers[i].generated <= cacheTime
  }

  ghost predicate Ok(s: State, cacheTime: int) {
    LocksOk(s) && HitsOk(s, cacheTime) && DataOk(s, cacheTime) && RefreshesOk(s, cacheTime) && ReturnsOk(s, cacheTime)
  }

  lemma StepKeepsLocks(s: State, step: Step, cacheTime: int)
    requires LocksOk(s) && Enabled(s, step)
    ensures LocksOk(After(s, step, cacheTime))
  {
  }

  lemma StepKeepsHits(s: State, step: Step, cacheTime: int)
    requires LocksOk(s) && HitsOk(s, cacheTime) && Enabled(s, step)
    ensures HitsOk(After(s, step, cacheTime), cacheTime)
  {
    if step.Finish? {
      assert s.writer == Some(step.k);
      assert forall k: nat :: k < |s.callers| && HoldsWrite(s.callers[k]) ==> s.writer == Some(k);
      assert forall k: nat :: k < |s.callers| && HoldsRead(s.callers[k]) ==> k in s.readers;
    }
  }

  lemma StepKeepsData(s: State, step: Step, cacheTime: int)
    requires LocksOk(s) && DataOk(s, cacheTime) && Enabled(s, step)
    ensures DataOk(After(s, step, cacheTime), cacheTime)
  {
    if step.Finish? || step.WriteCheck? {
      assert s.writer == Some(step.k);
      assert forall k: nat :: k < |s.callers| && HoldsWrite(s.callers[k]) ==> s.writer == Some(k);
    }
  }

  lemma StepKeepsRefreshes(s: State, step: Step, cacheTime: int)
    requires DataOk(s, cacheTime) && RefreshesOk(s, cacheTime) && Enabled(s, step)
    ensures RefreshesOk(After(s, step, cacheTime), cacheTime)
  {
  }

  lemma StepKeepsReturns(s: State, step: Step, cacheTime: int)
    requires HitsOk(s, cacheTime) && DataOk(s, cacheTime) && ReturnsOk(s, cacheTime)
    requires Enabled(s, step) && cacheTime > 0
    ensures ReturnsOk(After(s, step, cacheTime), cacheTime)
  {
    var s' := After(s, step, cacheTime);
    forall r | Generated(s, r) ensures Generated(s', r) {
      var i :| 0 <= i < |s.refreshes|
               && s.refreshes[i].value == Some(r.value) && s.refreshes[i].finished == r.generated;
      assert s'.refreshes[i] == s.refreshes[i];
    }
    if |s'.answers| > |s.answers| {
      assert Generated(s', s'.answers[|s.answers|]) by {
        assert s'.refreshes[|s'.refreshes| - 1].value == Some(s'.answers[|s.answers|].value);
      }
    }
  }

  // ---------------------------------------------------------------- runs

  predicate IsRun(s: State, steps: seq<Step>, cacheTime: int)
    decreases |steps|
  {
    steps == [] || (Enabled(s, steps[0]) && IsRun(After(s, steps[0], cacheTime), steps[1..], cacheTime))
  }

  function Final(s: State, steps: seq<Step>, cacheTime: int): State
    requires IsRun(s, steps, cacheTime)
    decreases |steps|
  {
    if steps == [] then s else Final(After(s, steps[0], cacheTime), steps[1..], cacheTime)
  }

  lemma {:induction false} RunKeepsOk(s: State, steps: seq<Step>, cacheTime: int)
    requires Ok(s, cacheTime) && IsRun(s, steps, cacheTime) && cacheTime > 0
    ensures Ok(Final(s, steps, cacheTime), cacheTime)
    decreases |steps|
  {
    if steps != [] {
      StepKeepsLocks(s, steps[0], cacheTime);
      StepKeepsHits(s, steps[0], cacheTime);
      StepKeepsData(s, steps[0], cacheTime);
      StepKeepsRefreshes(s, steps[0], cacheTime);
      StepKeepsReturns(s, steps[0], cacheTime);
      hide LocksOk, HitsOk, DataOk, RefreshesOk, ReturnsOk, After, Enabled;
      RunKeepsOk(After(s, steps[0], cacheTime), steps[1..], cacheTime);
    }
  }

  /** In every interleaving: two callers are never refreshing at once. */
  lemma RefreshesNeverOverlap(s0: State, steps: seq<Step>, cacheTime: int, j: nat, k: nat)
    requires Init(s0) && IsRun(s0, steps, cacheTime) && cacheTime > 0
    requires var s := Final(s0, steps, cacheTime); At(s, j, Refreshing) && At(s, k, Refreshing)
    ensures j == k
  {
    RunKeepsOk(s0, steps, cacheTime);
    var s := Final(s0, steps, cacheTime);
    assert s.writer == Some(j) && s.writer == Some(k);
  }

  /** In every interleaving: a refresh that follows a non-nil value starts only when that value is older than
    * the cache time, finished or still running. */
  lemma RefreshOnlyWhenStale(s0: State, steps: seq<Step>, cacheTime: int)
    requires Init(s0) && IsRun(s0, steps, cacheTime) && cacheTime > 0
    ensures var s := Final(s0, steps, cacheTime);
      && (forall i :: 0 < i < |s.refreshes| && s.refreshes[i - 1].value.Some? ==>
            s.refreshes[i].started - s.refreshes[i - 1].finished > cacheTime)
      && (forall k :: 0 <= k < |s.callers| && s.callers[k] == Refreshing && s.refreshes != [] && s.data.Some? ==>
            s.refreshStart - s.refreshes[|s.refreshes| - 1].finished > cacheTime)
  {
    RunKeepsOk(s0, steps, cacheTime);
  }

  /** In every interleaving: every returned value was generated by a refresh that finished no longer than the
    * cache time before the check that released it. */
  lemma ReturnsAreFresh(s0: State, steps: seq<Step>, cacheTime: int, i: nat)
    requires Init(s0) && IsRun(s0, steps, cacheTime) && cacheTime > 0
    requires i < |Final(s0, steps, cacheTime).answers|
    ensures var s := Final(s0, steps, cacheTime); var r := s.answers[i];
      && r.check - r.generated <= cacheTime
      && exists k :: 0 <= k < |s.refreshes|
                     && s.refreshes[k].value == Some(r.value) && s.refreshes[k].finished == r.generated
  {
    RunKeepsOk(s0, steps, cacheTime);
    var s := Final(s0, steps, cacheTime);
    assert Generated(s, s.answers[i]);
  }

  /** In every interleaving: as long as some caller is inside, some caller can move. */
  lemma NeverStuck(s0: State, steps: seq<Step>, cacheTime: int, k: nat) returns (step: Step)
    requires Init(s0) && IsRun(s0, steps, cacheTime) && cacheTime > 0
    requires k < |Final(s0, steps, cacheTime).callers| && Final(s0, steps, cacheTime).callers[k] != Outside
    ensures Enabled(Final(s0, steps, cacheTime), step) && !step.Tick?
  {
    RunKeepsOk(s0, steps, cacheTime);
    var s := Final(s0, steps, cacheTime);
    var mover := k;
    if s.writer.Some? {
      mover := s.writer.value;
    } else if s.readers != {} {
      mover :| mover in s.readers;
    }
    match s.callers[mover] {
      case Reading => step := ReadCheck(mover);
      case ReadHit(_) => step := ReadReturn(mover);
      case WantWrite => step := Lock(mover);
      case Writing => step := WriteCheck(mover);
      case WriteHit(_) => step := WriteReturn(mover);
      case Refreshing => step := Finish(mover, None);
      case Outside => assert false;
    }
  }

  // ---------------------------------------------------------------- the object, one call at a time

  /** The steps of a call that meets no other caller. The clock shows `second` at the second check and
    * `finished` when the getter is done. */
  function CallSteps(s: State, k: nat, second: int, finished: int, generated: Option<int>, cacheTime: int): seq<Step> {
    if Current(s, cacheTime) then [RLock(k)] + ([ReadCheck(k)] + [ReadReturn(k)])
    else [RLock(k)] + ([ReadCheck(k)]
         + ([Tick(second)] + ([Lock(k)] + ([WriteCheck(k)] + ([Tick(finished)] + [Finish(k, generated)])))))
  }

  lemma RunFrom(s: State, step: Step, rest: seq<Step>, cacheTime: int)
    requires Enabled(s, step) && IsRun(After(s, step, cacheTime), rest, cacheTime)
    ensures IsRun(s, [step] + rest, cacheTime)
    ensures Final(s, [step] + rest, cacheTime) == Final(After(s, step, cacheTime), rest, cacheTime)
  {
    assert ([step] + rest)[1..] == rest;
  }

  lemma HitAlone(s: State, k: nat, cacheTime: int)
    requires At(s, k, Outside) && s.readers == {} && s.writer == None && Current(s, cacheTime)
    ensures var steps := [RLock(k)] + ([ReadCheck(k)] + [ReadReturn(k)]);
      && IsRun(s, steps, cacheTime)
      && Final(s, steps, cacheTime) == s.(answers := s.answers + [Return(s.data.value, s.generateTime, s.clock)])
  {
    var s1 := After(s, RLock(k), cacheTime);
    var s2 := After(s1, ReadCheck(k), cacheTime);
    var s3 := After(s2, ReadReturn(k), cacheTime);
    assert s3.callers == s.callers && s3.readers == s.readers;
    LastStep(s2, ReadReturn(k), cacheTime);
    hide IsRun, Final;
    RunFrom(s1, ReadCheck(k), [ReadReturn(k)], cacheTime);
    RunFrom(s, RLock(k), [ReadCheck(k)] + [ReadReturn(k)], cacheTime);
  }

  /** From the write lock on. */
  lemma RefreshAlone(s: State, k: nat, finished: int, generated: Option<int>, cacheTime: int)
    requires At(s, k, WantWrite) && s.readers == {} && s.writer == None
    requires !Current(s, cacheTime) && s.clock <= finished
    ensures var steps := [Lock(k)] + ([WriteCheck(k)] + ([Tick(finished)] + [Finish(k, generated)]));
      && IsRun(s, steps, cacheTime)
      && Final(s, steps, cacheTime)
         == s.(callers := s.callers[k := Outside], clock := finished, data := generated, generateTime := finished,
               refreshStart := s.clock, refreshes := s.refreshes + [Refresh(s.clock, finished, generated)],
               answers := if generated.Some? then s.answers + [Return(generated.value, finished, finished)]
                          else s.answers)
  {
    var s1 := After(s, Lock(k), cacheTime);
    var s2 := After(s1, WriteCheck(k), cacheTime);
    var s3 := After(s2, Tick(finished), cacheTime);
    var s4 := After(s3, Finish(k, generated), cacheTime);
    assert s4.callers == s.callers[k := Outside];
    LastStep(s3, Finish(k, generated), cacheTime);
    hide IsRun, Final;
    var rest := [Finish(k, generated)];
    RunFrom(s2, Tick(finished), rest, cacheTime);
    RunFrom(s1, WriteCheck(k), [Tick(finished)] + rest, cacheTime);
    RunFrom(s, Lock(k), [WriteCheck(k)] + ([Tick(finished)] + rest), cacheTime);
  }

  /** A call that meets no other caller is a run of the protocol: it returns a current value unchanged and
    * replaces any other by what the getter makes. */
  lemma CallAlone(s: State, k: nat, second: int, finished: int, generated: Option<int>, cacheTime: int)
    requires At(s, k, Outside) && s.readers == {} && s.writer == None && s.clock <= second <= finished
    ensures var steps := CallSteps(s, k, second, finished, generated, cacheTime);
      && IsRun(s, steps, cacheTime)
      && var s' := Final(s, steps, cacheTime);
         s' == if Current(s, cacheTime) then s.(answers := s.answers + [Return(s.data.value, s.generateTime, s.clock)])
               else s.(clock := finished, data := generated, generateTime := finished, refreshStart := second,
                       refreshes := s.refreshes + [Refresh(second, finished, generated)],
                       answers := if generated.Some? then s.answers + [Return(generated.value, finished, finished)]
                                  else s.answers)
  {
    hide IsRun, Final;
    if Current(s, cacheTime) {
      HitAlone(s, k, cacheTime);
    } else {
      var s1 := After(s, RLock(k), cacheTime);
      var s2 := After(s1, ReadCheck(k), cacheTime);
      var s3 := After(s2, Tick(second), cacheTime);
      assert s1.readers - {k} == {};
      assert s3.callers[k := Outside] == s.callers;
      RefreshAlone(s3, k, finished, generated, cacheTime);
      var rest := [Lock(k)] + ([WriteCheck(k)] + ([Tick(finished)] + [Finish(k, generated)]));
      RunFrom(s2, Tick(second), rest, cacheTime);
      RunFrom(s1, ReadCheck(k), [Tick(second)] + rest, cacheTime);
      RunFrom(s, RLock(k), [ReadCheck(k)] + ([Tick(second)] + rest), cacheTime);
    }
  }

  lemma LastStep(s: State, step: Step, cacheTime: int)
    requires Enabled(s, step)
    ensures IsRun(s, [step], cacheTime) && Final(s, [step], cacheTime) == After(s, step, cacheTime)
  {
    assert [step][1..] == [];
  }

  class CachedValue {
    const cachedTime: int
    var cachedData: Option<int>
    var generateTime: int

    /** The protocol state in which the object has one caller, outside. */
    ghost function Idle(clock: int): State
      reads this
    {
      State(clock, cachedData, generateTime, [Outside], {}, None, 0, [], [])
    }

    /** Without a positive cache time the value is made here, once. */
    constructor (cachedTime: int, now: int, generated: Option<int>)
      ensures this.cachedTime == cachedTime && generateTime == now
      ensures cachedData == if cachedTime <= 0 then generated else None
    {
      this.cachedTime, generateTime := cachedTime, now;
      cachedData := if cachedTime <= 0 then generated else None;
    }

    /** `first` and `second` are the clock readings of the two checks, `generated` is what the getter would return. */
    method GetValue(first: int, second: int, finished: int, generated: Option<int>) returns (value: Option<int>)
      requires first <= second <= finished
      modifies this
      ensures cachedTime <= 0 ==> value == cachedData == old(cachedData) && generateTime == old(generateTime)
      ensures cachedTime > 0 && old(cachedData).Some? && first - old(generateTime) <= cachedTime ==>
        value == cachedData == old(cachedData) && generateTime == old(generateTime)
      ensures cachedTime > 0 && !(old(cachedData).Some? && first - old(generateTime) <= cachedTime) ==>
        value == cachedData == generated && generateTime == finished
      ensures cachedTime > 0 ==>
        var s := old(Idle(first));
        var steps := CallSteps(s, 0, second, finished, generated, cachedTime);
        && IsRun(s, steps, cachedTime)
        && var s' := Final(s, steps, cachedTime);
           && cachedData == s'.data && generateTime == s'.generateTime
           && value == if s'.answers == [] then None else Some(s'.answers[0].value)
    {
      if cachedTime <= 0 {
        return cachedData;
      }
      CallAlone(Idle(first), 0, second, finished, generated, cachedTime);
      hide IsRun, Final;
      if cachedData.Some? && first - generateTime <= cachedTime {
        return cachedData;
      }
      if cachedData.Some? && second - generateTime <= cachedTime {
        return cachedData;
      }
      cachedData := generated;
      generateTime := finished;
      return cachedData;
    }
  }
}
