/** The sliding-window request limiter (internal/http_server/middleware/limiter.go).
  *
  * The limiter keeps, per key, a pruned log of accepted request times and a background
  * cleanup that forgets idle keys. It is compared with a specification that keeps every
  * accepted request for ever. Clock readings are parameters, in nanoseconds.
  */
module RateLimiter {

  type Records = map<string, seq<int>>

  /** Drops the leading times that lie before `start`. */
  function Trim(records: seq<int>, start: int): seq<int> {
    if records != [] && records[0] < start then Trim(records[1..], start) else records
  }

  function RecordsOf(store: Records, key: string): seq<int> {
    if key in store then store[key] else []
  }

  predicate Allowed(store: Records, window: int, max: nat, key: string, now: int) {
    |Trim(RecordsOf(store, key), now - window)| < max
  }

  function AfterRequest(store: Records, window: int, max: nat, key: string, now: int): Records {
    var kept := Trim(RecordsOf(store, key), now - window);
    store[key := if |kept| < max then kept + [now] else kept]
  }

  predicate Stale(records: seq<int>, window: int, now: int) {
    |records| > 0 && records[|records| - 1] < now - 2 * window
  }

  function AfterSweep(store: Records, window: int, now: int): Records {
    map key | key in store && !Stale(store[key], window, now) :: store[key]
  }

  class SlidingWindowLimiter {
    const windowSize: int
    const maxRequests: nat
    var requestRecords: Records

    constructor (windowSize: int, maxRequests: nat)
      ensures this.windowSize == windowSize && this.maxRequests == maxRequests
      ensures requestRecords == map[]
    {
      this.windowSize, this.maxRequests := windowSize, maxRequests;
      requestRecords := map[];
    }

    method Allow(key: string, now: int) returns (ok: bool)
      modifies this
      ensures ok == old(Allowed(requestRecords, windowSize, maxRequests, key, now))
      ensures requestRecords == old(AfterRequest(requestRecords, windowSize, maxRequests, key, now))
    {
      if key !in requestRecords {
        requestRecords := requestRecords[key := []];
      }
      var windowStart := now - windowSize;
      var records := requestRecords[key];
      while |records| > 0 && records[0] < windowStart
        invariant Trim(records, windowStart) == old(Trim(RecordsOf(requestRecords, key), now - windowSize))
      {
        records := records[1..];
      }
      if |records| >= maxRequests {
        requestRecords := requestRecords[key := records];
        return false;
      }
      records := records + [now];
      requestRecords := requestRecords[key := records];
      return true;
    }

    /** Visits the keys in any order. */
    method Cleanup(now: int)
      modifies this
      ensures requestRecords == old(AfterSweep(requestRecords, windowSize, now))
    {
      var threshold := now - 2 * windowSize;
      var pending := requestRecords.Keys;
      while pending != {}
        invariant pending <= old(requestRecords.Keys)
        invariant requestRecords ==
          map key | key in old(requestRecords)
                 && (key in pending || !Stale(old(requestRecords)[key], windowSize, now)) :: old(requestRecords)[key]
        decreases pending
      {
        var key :| key in pending;
        var records := requestRecords[key];
        if |records| > 0 && records[|records| - 1] < threshold {
          requestRecords := requestRecords - {key};
        }
        pending := pending - {key};
      }
    }
  }

  // ---------------------------------------------------------------- runs

  /** One call of the limiter by a request or by the cleanup ticker. */
  datatype Event = Request(key: string, now: int) | Sweep(now: int)

  /** An accepted request. */
  datatype Grant = Grant(key: string, time: int)

  /** The clock never goes back during `events`, which end no later than `last`. */
  ghost predicate ClockUpTo(events: seq<Event>, last: int) {
    events == []
    || (events[|events| - 1].now <= last && ClockUpTo(events[..|events| - 1], events[|events| - 1].now))
  }

  function Step(store: Records, window: int, max: nat, event: Event): Records {
    match event
    case Request(key, now) => AfterRequest(store, window, max, key, now)
    case Sweep(now) => AfterSweep(store, window, now)
  }

  function Run(window: int, max: nat, events: seq<Event>): Records {
    if events == [] then map[]
    else Step(Run(window, max, events[..|events| - 1]), window, max, events[|events| - 1])
  }

  /** What the limiter answers to event `i` of a run that starts empty; a sweep has no answer. */
  predicate Answer(window: int, max: nat, events: seq<Event>, i: nat)
    requires i < |events| && events[i].Request?
  {
    Allowed(Run(window, max, events[..i]), window, max, events[i].key, events[i].now)
  }

  /** There are times, and all of them lie before `start`. */
  ghost predicate Idle(records: seq<int>, start: int) {
    records != [] && forall i :: 0 <= i < |records| ==> records[i] < start
  }

  /** What a sweep leaves behind in a reachable state: exactly the keys without a stored time and those with one in
    * the last two windows, with the same records. */
  lemma SweepForgetsIdleKeys(window: int, max: nat, events: seq<Event>, now: int, key: string)
    requires ClockUpTo(events, now)
    ensures var store := Run(window, max, events); var swept := Step(store, window, max, Sweep(now));
      && (key in swept <==> key in store && !Idle(store[key], now - 2 * window))
      && (key in swept ==> swept[key] == store[key])
  {
    StoredLogsBounded(window, max, events, now, key);
    var store := Run(window, max, events);
    if key in store && store[key] != [] {
      assert forall i :: 0 <= i < |store[key]| ==> store[key][i] <= store[key][|store[key]| - 1];
    }
  }

  // ---------------------------------------------------------------- the keep-everything specification

  /** Accepted requests of `key` with a time in the closed interval [from, to]. */
  function Within(log: seq<Grant>, key: string, from: int, to: int): nat {
    if log == [] then 0
    else
      var last := log[|log| - 1];
      Within(log[..|log| - 1], key, from, to) + (if last.key == key && from <= last.time <= to then 1 else 0)
  }

  function AcceptedAfter(log: seq<Grant>, window: int, max: nat, event: Event): seq<Grant> {
    match event
    case Request(key, now) => if Within(log, key, now - window, now) < max then log + [Grant(key, now)] else log
    case Sweep(_) => log
  }

  /** Every request ever accepted; sweeps do nothing. */
  function Accepted(window: int, max: nat, events: seq<Event>): seq<Grant> {
    if events == [] then []
    else AcceptedAfter(Accepted(window, max, events[..|events| - 1]), window, max, events[|events| - 1])
  }

  // ---------------------------------------------------------------- refinement

  function Times(log: seq<Grant>, key: string): seq<int> {
    if log == [] then []
    else Times(log[..|log| - 1], key) + (if log[|log| - 1].key == key then [log[|log| - 1].time] else [])
  }

  ghost predicate Sorted(s: seq<int>) {
    forall i, j :: 0 <= i < j < |s| ==> s[i] <= s[j]
  }

  ghost predicate Chronological(log: seq<Grant>, last: int) {
    log == []
    || (log[|log| - 1].time <= last && Chronological(log[..|log| - 1], log[|log| - 1].time))
  }

  /** Nothing in `s` is later than `last`, and nothing is later than what follows it. */
  ghost predicate SortedUpTo(s: seq<int>, last: int) {
    Sorted(s) && forall i :: 0 <= i < |s| ==> s[i] <= last
  }

  lemma {:induction false} TrimTwice(s: seq<int>, early: int, late: int)
    requires early <= late
    ensures Trim(Trim(s, early), late) == Trim(s, late)
  {
    if s != [] && s[0] < early {
      TrimTwice(s[1..], early, late);
    }
  }

  lemma {:induction false} TrimAppend(s: seq<int>, x: int, start: int)
    ensures Trim(s + [x], start) == if Trim(s, start) == [] then Trim([x], start) else Trim(s, start) + [x]
  {
    if s == [] {
      assert s + [x] == [x];
    } else if s[0] < start {
      assert (s + [x])[1..] == s[1..] + [x];
      TrimAppend(s[1..], x, start);
    }
  }

  lemma {:induction false} TrimKeepsSorted(s: seq<int>, start: int, last: int)
    requires SortedUpTo(s, last)
    ensures SortedUpTo(Trim(s, start), last) && |Trim(s, start)| <= |s|
  {
    if s != [] && s[0] < start {
      TrimKeepsSorted(s[1..], start, last);
    }
  }

  lemma {:induction false} TrimAll(s: seq<int>, start: int)
    requires forall i :: 0 <= i < |s| ==> s[i] < start
    ensures Trim(s, start) == []
  {
    if s != [] {
      TrimAll(s[1..], start);
    }
  }

  lemma {:induction false} WithinNone(log: seq<Grant>, last: int, key: string, from: int, to: int)
    requires Chronological(log, last) && last < from
    ensures Within(log, key, from, to) == 0
  {
    if log != [] {
      WithinNone(log[..|log| - 1], log[|log| - 1].time, key, from, to);
    }
  }

  lemma ChronologicalWeaken(log: seq<Grant>, last: int, later: int)
    requires Chronological(log, last) && last <= later
    ensures Chronological(log, later)
  {
  }

  /** On a chronological log that ends by `to`, counting a window is the length of a suffix. */
  lemma {:induction false} TrimCountsWindow(log: seq<Grant>, key: string, from: int, to: int)
    requires Chronological(log, to)
    ensures |Trim(Times(log, key), from)| == Within(log, key, from, to)
  {
    if log != [] {
      var front, last := log[..|log| - 1], log[|log| - 1];
      ChronologicalWeaken(front, last.time, to);
      TrimCountsWindow(front, key, from, to);
      if last.key == key {
        TrimAppend(Times(front, key), last.time, from);
        if last.time < from {
          WithinNone(front, last.time, key, from, to);
        }
      } else {
        assert Times(log, key) == Times(front, key);
      }
    }
  }

  lemma ChronologicalAppend(log: seq<Grant>, grant: Grant)
    requires Chronological(log, grant.time)
    ensures Chronological(log + [grant], grant.time)
  {
    assert (log + [grant])[..|log|] == log;
  }

  lemma {:induction false} AcceptedChronological(window: int, max: nat, events: seq<Event>, last: int)
    requires ClockUpTo(events, last)
    ensures Chronological(Accepted(window, max, events), last)
  {
    if events != [] {
      var front, now := events[..|events| - 1], events[|events| - 1].now;
      AcceptedChronological(window, max, front, now);
      var log := Accepted(window, max, front);
      ChronologicalWeaken(log, now, last);
      if Accepted(window, max, events) != log {
        ChronologicalAppend(log, Grant(events[|events| - 1].key, now));
      }
    }
  }

  /** Shape of the stored logs in every reachable state. */
  lemma {:induction false} StoredLogsBounded(window: int, max: nat, events: seq<Event>, last: int, key: string)
    requires ClockUpTo(events, last)
    ensures SortedUpTo(RecordsOf(Run(window, max, events), key), last)
    ensures |RecordsOf(Run(window, max, events), key)| <= max
    ensures max >= 1 && key in Run(window, max, events) ==> Run(window, max, events)[key] != []
  {
    if events != [] {
      var front, event := events[..|events| - 1], events[|events| - 1];
      StoredLogsBounded(window, max, front, event.now, key);
      StepKeepsBounded(Run(window, max, front), window, max, event, key);
    }
  }

  lemma StepKeepsBounded(store: Records, window: int, max: nat, event: Event, key: string)
    requires SortedUpTo(RecordsOf(store, key), event.now)
    requires |RecordsOf(store, key)| <= max
    requires max >= 1 && key in store ==> store[key] != []
    ensures var store' := Step(store, window, max, event);
      && SortedUpTo(RecordsOf(store', key), event.now)
      && |RecordsOf(store', key)| <= max
      && (max >= 1 && key in store' ==> store'[key] != [])
  {
    TrimKeepsSorted(RecordsOf(store, key), event.now - window, event.now);
  }

  lemma TrimPush(records: seq<int>, full: seq<int>, now: int, from: int, start: int)
    requires from <= start && Trim(records, start) == Trim(full, start)
    ensures Trim(Trim(records, from), start) == Trim(full, start)
    ensures Trim(Trim(records, from) + [now], start) == Trim(full + [now], start)
  {
    TrimTwice(records, from, start);
    TrimAppend(Trim(records, from), now, start);
    TrimAppend(full, now, start);
  }

  lemma TimesAppend(log: seq<Grant>, key: string, time: int)
    ensures Times(log + [Grant(key, time)], key) == Times(log, key) + [time]
  {
    assert (log + [Grant(key, time)])[..|log|] == log;
  }

  lemma RequestStepAgrees(store: Records, log: seq<Grant>, window: int, max: nat, key: string, now: int, start: int)
    requires start >= now - window && Chronological(log, now)
    requires Trim(RecordsOf(store, key), start) == Trim(Times(log, key), start)
    requires Trim(RecordsOf(store, key), now - window) == Trim(Times(log, key), now - window)
    ensures Trim(RecordsOf(AfterRequest(store, window, max, key, now), key), start)
         == Trim(Times(if Within(log, key, now - window, now) < max then log + [Grant(key, now)] else log, key), start)
  {
    hide Trim, Times, Within, Chronological;
    TrimCountsWindow(log, key, now - window, now);
    TrimPush(RecordsOf(store, key), Times(log, key), now, now - window, start);
    TimesAppend(log, key, now);
  }

  lemma SweepStepAgrees(store: Records, window: int, key: string, now: int, start: int)
    requires window >= 0 && start >= now - window && SortedUpTo(RecordsOf(store, key), now)
    ensures Trim(RecordsOf(AfterSweep(store, window, now), key), start) == Trim(RecordsOf(store, key), start)
  {
    var records := RecordsOf(store, key);
    if key in store && Stale(records, window, now) {
      assert forall i :: 0 <= i < |records| ==> records[i] <= records[|records| - 1];
      TrimAll(records, start);
    }
  }

  lemma OtherStepAgrees(store: Records, log: seq<Grant>, window: int, max: nat, other: string, now: int, key: string)
    requires other != key
    ensures RecordsOf(AfterRequest(store, window, max, other, now), key) == RecordsOf(store, key)
    ensures Times(AcceptedAfter(log, window, max, Request(other, now)), key) == Times(log, key)
  {
    assert (log + [Grant(other, now)])[..|log|] == log;
  }

  lemma StepAgrees(store: Records, log: seq<Grant>, window: int, max: nat, event: Event, key: string, start: int)
    requires window >= 0 && start >= event.now - window
    requires SortedUpTo(RecordsOf(store, key), event.now) && Chronological(log, event.now)
    requires Trim(RecordsOf(store, key), start) == Trim(Times(log, key), start)
    requires Trim(RecordsOf(store, key), event.now - window) == Trim(Times(log, key), event.now - window)
    ensures Trim(RecordsOf(Step(store, window, max, event), key), start)
         == Trim(Times(AcceptedAfter(log, window, max, event), key), start)
  {
    hide Trim, Times, Within, Sorted, Chronological;
    match event {
      case Sweep(now) => SweepStepAgrees(store, window, key, now, start);
      case Request(k, now) =>
        if k == key {
          RequestStepAgrees(store, log, window, max, key, now, start);
        } else {
          OtherStepAgrees(store, log, window, max, k, now, key);
        }
    }
  }

  lemma NothingStored(window: int, max: nat, key: string)
    ensures RecordsOf(Run(window, max, []), key) == [] && Times(Accepted(window, max, []), key) == []
  {
  }

  /** What is left after trimming the stored log at any later window start is what is left
    * after trimming the log that keeps everything. */
  lemma {:induction false} StoredLogAgrees(window: int, max: nat, events: seq<Event>, last: int,
                                           key: string, start: int)
    requires window >= 0 && ClockUpTo(events, last)
    requires start >= last - window
    ensures Trim(RecordsOf(Run(window, max, events), key), start)
         == Trim(Times(Accepted(window, max, events), key), start)
  {
    hide Trim, Step, AcceptedAfter, RecordsOf, Sorted, Chronological;
    if events == [] {
      NothingStored(window, max, key);
    } else {
      var front, event := events[..|events| - 1], events[|events| - 1];
      StoredLogAgrees(window, max, front, event.now, key, start);
      StoredLogAgrees(window, max, front, event.now, key, event.now - window);
      StoredLogsBounded(window, max, front, event.now, key);
      AcceptedChronological(window, max, front, event.now);
      StepAgrees(Run(window, max, front), Accepted(window, max, front), window, max, event, key, start);
    }
  }

  /** On a non-decreasing clock the limiter accepts a request exactly when fewer than `max`
    * requests of that key were accepted in the closed window that ends now, whatever cleanups
    * ran in between. */
  lemma AnswerMeetsSpecification(window: int, max: nat, events: seq<Event>, i: nat)
    requires window >= 0
    requires i < |events| && events[i].Request? && ClockUpTo(events[..i], events[i].now)
    ensures Answer(window, max, events, i) <==>
            Within(Accepted(window, max, events[..i]), events[i].key, events[i].now - window, events[i].now) < max
  {
    hide Trim, Times, Accepted, Run, RecordsOf, ClockUpTo, Within, Chronological;
    var Request(key, now) := events[i];
    StoredLogAgrees(window, max, events[..i], now, key, now - window);
    AcceptedChronological(window, max, events[..i], now);
    TrimCountsWindow(Accepted(window, max, events[..i]), key, now - window, now);
  }

  function WithoutSweeps(events: seq<Event>): seq<Event> {
    if events == [] then
      []
    else
      WithoutSweeps(events[..|events| - 1])
      + (if events[|events| - 1].Sweep? then [] else [events[|events| - 1]])
  }

  lemma ClockWeaken(events: seq<Event>, last: int, later: int)
    requires ClockUpTo(events, last) && last <= later
    ensures ClockUpTo(events, later)
  {
  }

  lemma {:induction false} WithoutSweepsAccepts(window: int, max: nat, events: seq<Event>, last: int)
    requires ClockUpTo(events, last)
    ensures Accepted(window, max, WithoutSweeps(events)) == Accepted(window, max, events)
    ensures ClockUpTo(WithoutSweeps(events), last)
  {
    if events != [] {
      var front, event := events[..|events| - 1], events[|events| - 1];
      WithoutSweepsAccepts(window, max, front, event.now);
      var rest := WithoutSweeps(front);
      if event.Request? {
        assert (rest + [event])[..|rest|] == rest;
      } else {
        assert WithoutSweeps(events) == rest;
        ClockWeaken(rest, event.now, last);
      }
    }
  }

  /** Erasing every cleanup from a run changes no answer: a request arriving after `events`
    * is accepted if and only if it is accepted after the requests of `events` alone. */
  lemma CleanupIsUnobservable(window: int, max: nat, events: seq<Event>, key: string, now: int)
    requires window >= 0 && ClockUpTo(events, now)
    ensures Allowed(Run(window, max, events), window, max, key, now)
       <==> Allowed(Run(window, max, WithoutSweeps(events)), window, max, key, now)
  {
    hide Trim, Times, Accepted, Run, RecordsOf, WithoutSweeps, ClockUpTo;
    WithoutSweepsAccepts(window, max, events, now);
    StoredLogAgrees(window, max, events, now, key, now - window);
    StoredLogAgrees(window, max, WithoutSweeps(events), now, key, now - window);
  }

  // ---------------------------------------------------------------- what a client can never exceed

  lemma {:induction false} WithinMonotone(log: seq<Grant>, last: int, key: string,
                                          from: int, to: int, from': int, to': int)
    requires from' <= from && Chronological(log, last) && last <= to'
    ensures Within(log, key, from, to) <= Within(log, key, from', to')
  {
    if log != [] {
      WithinMonotone(log[..|log| - 1], log[|log| - 1].time, key, from, to, from', to');
    }
  }

  /** The reference log meets the bound. */
  lemma {:induction false} AcceptedNotOverfull(window: int, max: nat, events: seq<Event>, last: int,
                                               key: string, start: int)
    requires ClockUpTo(events, last)
    ensures Within(Accepted(window, max, events), key, start, start + window) <= max
  {
    if events != [] {
      var front, event := events[..|events| - 1], events[|events| - 1];
      AcceptedNotOverfull(window, max, front, event.now, key, start);
      var log, log' := Accepted(window, max, front), Accepted(window, max, events);
      if log' != log {
        assert log'[..|log'| - 1] == log;
        if event.key == key && start <= event.now <= start + window {
          AcceptedChronological(window, max, front, event.now);
          WithinMonotone(log, event.now, key, start, start + window, event.now - window, event.now);
        }
      }
    }
  }

  /** The requests that the limiter itself has accepted in a run. */
  function Granted(window: int, max: nat, events: seq<Event>): seq<Grant> {
    if events == [] then []
    else
      var n := |events| - 1;
      Granted(window, max, events[..n])
      + if events[n].Request? && Answer(window, max, events, n) then [Grant(events[n].key, events[n].now)] else []
  }

  /** What the limiter accepts is the reference log. */
  lemma {:induction false} GrantedIsAccepted(window: int, max: nat, events: seq<Event>, last: int)
    requires window >= 0 && ClockUpTo(events, last)
    ensures Granted(window, max, events) == Accepted(window, max, events)
  {
    hide Answer, Within;
    if events != [] {
      var n := |events| - 1;
      GrantedIsAccepted(window, max, events[..n], events[n].now);
      if events[n].Request? {
        AnswerMeetsSpecification(window, max, events, n);
      }
    }
  }

  lemma {:induction false} WithinNothing(log: seq<Grant>, key: string, from: int, to: int)
    requires to < from
    ensures Within(log, key, from, to) == 0
  {
    if log != [] {
      WithinNothing(log[..|log| - 1], key, from, to);
    }
  }

  /** Every closed interval as long as the window, wherever it starts, holds at most `max` requests per key that
    * the limiter has accepted. */
  lemma NoWindowOverfull(window: int, max: nat, events: seq<Event>, last: int, key: string, start: int)
    requires ClockUpTo(events, last)
    ensures Within(Granted(window, max, events), key, start, start + window) <= max
  {
    if window >= 0 {
      GrantedIsAccepted(window, max, events, last);
      AcceptedNotOverfull(window, max, events, last, key, start);
    } else {
      WithinNothing(Granted(window, max, events), key, start, start + window);
    }
  }
}
