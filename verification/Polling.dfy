/**
 The deadline loops: the long-poll read of the server, the polling read of the core and
 `watch`. What others do meanwhile is given as functions of the iteration: the result of
 each read and its duration, how each wait ends, the tables at each query. Time is in
 milliseconds; a completed sleep takes exactly the time asked for.
 */
module Polling {
  import opened Wrappers
  import opened ConfigTables
  import opened ConfigStoreOps

  const DEFAULT_INTERVAL := 100

  function Interval(pollIntervalMillis: int): (r: int)
    ensures r > 0 && (pollIntervalMillis > 0 ==> r == pollIntervalMillis)
    ensures pollIntervalMillis <= 0 ==> r == 100
  {
    if pollIntervalMillis <= 0 then DEFAULT_INTERVAL else pollIntervalMillis
  }

  /** How waiting for a notification ends. */
  datatype Wake =
    | Notified(elapsed: nat)  // before the timeout
    | TimedOut
    | Failed(elapsed: nat)    // LISTEN broke before the timeout

  /**
   `budget(i)` bounds the notifications still to come before wait `i`: finitely many
   notifications mean that it goes down whenever one arrives.
   */
  ghost predicate FinitelyMany(wake: nat -> Wake, budget: nat -> nat) {
    forall i: nat :: budget(i + 1) <= budget(i) && (wake(i).Notified? ==> budget(i + 1) < budget(i))
  }

  /** What the surroundings do in iteration `i`, as the durations of its steps. */
  datatype Timing = Timing(
    connecting: nat,      // opening the listener, after the deadline is fixed
    reading: nat -> nat,  // read `i`
    lag: nat -> nat)      // between the two clock readings of iteration `i`

  function Max(a: int, b: int): int {
    if a < b then b else a
  }

  function Min(a: int, b: int): int {
    if a < b then a else b
  }

  /**
   read_with_notify_or_poll. The result is that of the last read and every earlier read
   leased nothing; an empty result comes at the deadline and no earlier; apart from the
   time of the last read, the deadline is overrun only if LISTEN broke, by at most an interval.
   */
  method ReadWithNotifyOrPoll<M(==)>(
    maxPollSeconds: int, pollIntervalMillis: int, connected: bool, start: int,
    results: nat -> Result<seq<M>>, wake: nat -> Wake, timing: Timing, ghost budget: nat -> nat)
    returns (r: Result<seq<M>>, count: nat, finished: int, broke: bool)
    requires FinitelyMany(wake, budget)
    ensures maxPollSeconds < 0 ==> r == Err(InvalidArgument) && count == 0
    ensures maxPollSeconds >= 0 ==>
              var deadline := start + maxPollSeconds * 1000;
              && count > 0 && r == results(count - 1)
              && (forall i: nat | i < count - 1 :: results(i) == Ok([]))
              && (r == Ok([]) ==> deadline <= finished)
              && finished <= Max(deadline, start + timing.connecting)
                             + (if broke then Interval(pollIntervalMillis) else 0)
                             + timing.reading(count - 1) + timing.lag(count - 1)
    ensures !connected ==> !broke
  {
    count, finished, broke := 0, start, false;
    if maxPollSeconds < 0 {
      return Err(InvalidArgument), count, finished, broke;
    }
    var interval := Interval(pollIntervalMillis);
    var deadline := start + maxPollSeconds * 1000;
    var listening := connected;
    finished := finished + timing.connecting;
    while true
      invariant forall i: nat | i < count :: results(i) == Ok([])
      invariant finished <= Max(deadline, start + timing.connecting) + (if broke then interval else 0)
      invariant listening ==> connected && !broke
      invariant !connected ==> !broke
      decreases Max(deadline - finished, 0), budget(count)
    {
      r := results(count);
      finished := finished + timing.reading(count);
      count := count + 1;
      if r.Err? || r.value != [] || finished >= deadline {
        return r, count, finished, broke;
      }
      finished := finished + timing.lag(count - 1);
      var wait := Min(Max(deadline - finished, 0), interval);
      if wait == 0 {
        return Ok([]), count, finished, broke;
      }
      if listening {
        match wake(count - 1)
        case Notified(elapsed) =>
          finished := finished + Min(elapsed, wait);
        case TimedOut =>
          finished := finished + wait;
        case Failed(elapsed) =>
          listening, broke := false, true;
          finished := finished + Min(elapsed, wait) + wait;
      } else {
        finished := finished + wait;
      }
    }
  }

  /** MqStore::read_with_poll: it always sleeps a whole interval, and may overrun by one. */
  method ReadWithPoll<M(==)>(
    maxPollSeconds: int, pollIntervalMillis: int, start: int, results: nat -> Result<seq<M>>, reading: nat -> nat)
    returns (r: Result<seq<M>>, count: nat, finished: int)
    ensures maxPollSeconds < 0 ==> r == Err(InvalidArgument) && count == 0
    ensures maxPollSeconds >= 0 ==>
              var deadline := start + maxPollSeconds * 1000;
              && count > 0 && r == results(count - 1)
              && (forall i: nat | i < count - 1 :: results(i) == Ok([]))
              && (r == Ok([]) ==> deadline <= finished)
              && (count == 1 || finished < deadline + Interval(pollIntervalMillis) + reading(count - 1))
              && (count == 1 ==> finished == start + reading(0))
  {
    count, finished := 0, start;
    if maxPollSeconds < 0 {
      return Err(InvalidArgument), count, finished;
    }
    var interval := Interval(pollIntervalMillis);
    var deadline := start + maxPollSeconds * 1000;
    while true
      invariant forall i: nat | i < count :: results(i) == Ok([])
      invariant if count == 0 then finished == start else finished < deadline + interval
      decreases Max(deadline - finished, 0), if count == 0 then 1 else 0
    {
      r := results(count);
      finished := finished + reading(count);
      count := count + 1;
      if r.Err? || r.value != [] || finished >= deadline {
        return r, count, finished;
      }
      finished := finished + interval;
    }
  }

  // ----- Watch -----

  datatype WatchResult = Changed(revision: nat) | Unchanged(latest: nat)

  /** Ceiling division. */
  function Ceiling(a: nat, b: int): nat
    requires b > 0
  {
    (a + b - 1) / b
  }

  /** The time that `n` intervals take. */
  function Slept(n: nat, interval: int): int {
    n * interval
  }

  lemma SleepOnceMore(n: nat, interval: int)
    ensures Slept(n + 1, interval) == Slept(n, interval) + interval && Slept(0, interval) == 0
  {
  }

  lemma BelowCeiling(i: nat, a: nat, b: int)
    requires b > 0 && Slept(i, b) < a
    ensures i + 1 <= Ceiling(a, b)
  {
    var c := Ceiling(a, b);
    assert a <= c * b;
    assert c <= i ==> c * b <= i * b;
  }

  /** Poll `i` runs its two queries on `before(i)` and `after(i)` and takes `polling(i)`. */
  datatype Polls = Polls(before: nat -> Db, after: nat -> Db, polling: nat -> nat)

  function Current(polls: Polls, scope: Scope, i: nat): nat {
    RowOf(polls.before(i), scope).revision
  }

  /** What a call of watch that made `count` polls promises about its outcome. */
  ghost predicate Watched(polls: Polls, scope: Scope, known: nat, count: nat, w: WatchResult) {
    && count > 0
    && (forall i: nat | i < count - 1 :: Current(polls, scope, i) <= known)
    && match w
       case Changed(revision) => known < revision == Current(polls, scope, count - 1)
       case Unchanged(latest) =>
         Current(polls, scope, count - 1) <= known && latest == RowOf(polls.after(count - 1), scope).revision
  }

  method Watch(
    scope: Scope, known: int, timeoutSeconds: int, maxWatchSeconds: int, pollIntervalMillis: int, start: int,
    polls: Polls)
    returns (r: Result<WatchResult>, count: nat, finished: int)
    requires forall i: nat :: Dense(polls.before(i))
    ensures r.Err? <==> !ValidScope(scope) || known < 0 || timeoutSeconds < 0 || timeoutSeconds > maxWatchSeconds
    ensures r.Err? ==> r.error == InvalidArgument && count == 0
    ensures r.Ok? ==> Watched(polls, scope, known, count, r.value)
    ensures r.Ok? ==> count <= Ceiling(timeoutSeconds * 1000, Interval(pollIntervalMillis)) + 1
    ensures r.Ok? ==>
              var deadline := start + timeoutSeconds * 1000;
              && (r.value.Unchanged? ==> deadline <= finished)
              && (count == 1 ==> finished == start + polls.polling(0))
              && (count > 1 ==> finished < deadline + Interval(pollIntervalMillis) + polls.polling(count - 1))
  {
    hide Dense, ValidScope, Ceiling, Slept;
    count, finished := 0, start;
    if !ValidScope(scope) || known < 0 || timeoutSeconds < 0 || timeoutSeconds > maxWatchSeconds {
      return Err(InvalidArgument), count, finished;
    }
    var interval := Interval(pollIntervalMillis);
    var deadline := start + timeoutSeconds * 1000;
    SleepOnceMore(0, interval);
    while true
      invariant count <= Ceiling(timeoutSeconds * 1000, interval)
      invariant start + Slept(count, interval) <= finished
      invariant if count == 0 then finished == start else finished < deadline + interval
      invariant forall i: nat | i < count :: Current(polls, scope, i) <= known
      decreases Ceiling(timeoutSeconds * 1000, interval) - count
    {
      var newer := LatestNewerThan(polls.before(count), scope, known);
      LatestIsCurrent(polls.before(count), scope, known);
      var latest := RowOf(polls.after(count), scope).revision;
      finished := finished + polls.polling(count);
      count := count + 1;
      if newer.Some? {
        return Ok(Changed(newer.value)), count, finished;
      }
      if finished >= deadline {
        return Ok(Unchanged(latest)), count, finished;
      }
      BelowCeiling(count - 1, timeoutSeconds * 1000, interval);
      SleepOnceMore(count - 1, interval);
      finished := finished + interval;
    }
  }

  /** A call made while a newer release exists returns the newest one on its first poll. */
  lemma NewestAtOnce(polls: Polls, scope: Scope, known: nat, count: nat, w: WatchResult)
    requires Watched(polls, scope, known, count, w)
    requires known < Current(polls, scope, 0)
    ensures count == 1 && w == Changed(Current(polls, scope, 0))
  {
  }

  /** One call of a client's session. */
  datatype Call = Call(polls: Polls, count: nat, outcome: WatchResult)

  /** The revision of the last release received in the first `n` calls of a session. */
  function Known(first: nat, calls: seq<Call>, n: nat): nat
    requires n <= |calls|
  {
    if n == 0 then first
    else if calls[n - 1].outcome.Changed? then calls[n - 1].outcome.revision
    else Known(first, calls, n - 1)
  }

  /** A client that always watches with the revision it received last. */
  ghost predicate Session(scope: Scope, first: nat, calls: seq<Call>) {
    forall n | 0 <= n < |calls| ::
      Watched(calls[n].polls, scope, Known(first, calls, n), calls[n].count, calls[n].outcome)
  }

  lemma SessionCall(scope: Scope, first: nat, calls: seq<Call>, n: nat)
    requires Session(scope, first, calls) && n < |calls|
    ensures calls[n].outcome.Changed? ==> Known(first, calls, n) < calls[n].outcome.revision
  {
  }

  lemma {:induction false} KnownGrows(scope: Scope, first: nat, calls: seq<Call>, i: nat, j: nat)
    requires Session(scope, first, calls) && i <= j <= |calls|
    ensures Known(first, calls, i) <= Known(first, calls, j)
  {
    hide Session;
    if i < j {
      KnownGrows(scope, first, calls, i, j - 1);
      SessionCall(scope, first, calls, j - 1);
    }
  }

  /** The releases a session receives have strictly increasing revisions. */
  lemma SessionIncreases(scope: Scope, first: nat, calls: seq<Call>, i: nat, j: nat)
    requires Session(scope, first, calls) && i < j < |calls|
    ensures calls[i].outcome.Changed? && calls[j].outcome.Changed? ==>
              first < calls[i].outcome.revision < calls[j].outcome.revision
  {
    hide Session;
    KnownGrows(scope, first, calls, 0, i);
    KnownGrows(scope, first, calls, i + 1, j);
    SessionCall(scope, first, calls, i);
    SessionCall(scope, first, calls, j);
  }
}
