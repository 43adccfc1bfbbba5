/**
 * The login rate limiter: a fixed window of five failures per key, whose check
 * and whose record are separate critical sections.
 */
module LoginLimiter {

  /** Clock readings are in nanoseconds. */
  datatype Window = Window(started: int, failures: nat)

  type Attempts = map<string, Window>

  const WINDOW: int := 300_000_000_000
  const MAX_FAILURES: nat := 5

  predicate Expired(window: Window, now: int) {
    now - window.started >= WINDOW
  }

  predicate Admits(attempts: Attempts, key: string, now: int) {
    key in attempts && !Expired(attempts[key], now) ==> attempts[key].failures < MAX_FAILURES
  }

  function AfterCheck(attempts: Attempts, key: string, now: int): Attempts {
    if key in attempts && Expired(attempts[key], now) then attempts - {key} else attempts
  }

  function AfterFailure(attempts: Attempts, key: string, now: int): Attempts {
    if key !in attempts || Expired(attempts[key], now) then attempts[key := Window(now, 1)]
    else attempts[key := attempts[key].(failures := attempts[key].failures + 1)]
  }

  class Limiter {
    var attempts: Attempts

    constructor ()
      ensures attempts == map[]
    {
      attempts := map[];
    }

    method AllowAttempt(key: string, now: int) returns (ok: bool)
      modifies this
      ensures ok <==> Admits(old(attempts), key, now)
      ensures attempts == AfterCheck(old(attempts), key, now)
    {
      if key !in attempts || Expired(attempts[key], now) {
        attempts := attempts - {key};
        return true;
      }
      if attempts[key].failures >= MAX_FAILURES {
        return false;
      }
      return true;
    }

    method RecordFailure(key: string, now: int)
      modifies this
      ensures attempts == AfterFailure(old(attempts), key, now)
    {
      var window := Window(now, 0);
      if key in attempts && !Expired(attempts[key], now) {
        window := attempts[key];
      }
      window := window.(failures := window.failures + 1);
      attempts := attempts[key := window];
    }

    method ClearAttempts(key: string)
      modifies this
      ensures attempts == old(attempts) - {key}
    {
      attempts := attempts - {key};
    }
  }

  // -------------------------------------------------------- runs of attempts

  /**
   * The critical sections of concurrent attempts, in the order they take the
   * lock: the check, and the end of an attempt that passed it, by a failure, by
   * a success that clears the key, or by an error that leaves the window alone.
   */
  datatype Event =
    | Check(key: string, now: int)
    | Fail(key: string, now: int)
    | Succeed(key: string, now: int)
    | Abandon(key: string, now: int)

  /** The limiter's map, and the attempts for one key that have passed the check and not ended. */
  datatype State = State(attempts: Attempts, passed: nat)

  function Next(state: State, key: string, e: Event): State
    requires !e.Check? && e.key == key ==> state.passed > 0
  {
    var own := if e.key == key then 1 else 0;
    match e
    case Check(k, now) =>
      State(AfterCheck(state.attempts, k, now), state.passed + if Admits(state.attempts, k, now) then own else 0)
    case Fail(k, now) => State(AfterFailure(state.attempts, k, now), state.passed - own)
    case Succeed(k, now) => State(state.attempts - {k}, state.passed - own)
    case Abandon(_, _) => State(state.attempts, state.passed - own)
  }

  /** Runs in which at most limit attempts for the key are between check and end at once. */
  predicate Feasible(events: seq<Event>, key: string, limit: nat)
    decreases |events|, 0
  {
    events == [] ||
    (var rest, e := events[..|events| - 1], events[|events| - 1];
     && Feasible(rest, key, limit)
     && (!e.Check? && e.key == key ==> Reached(rest, key, limit).passed > 0)
     && Next(Reached(rest, key, limit), key, e).passed <= limit)
  }

  function Reached(events: seq<Event>, key: string, limit: nat): State
    requires Feasible(events, key, limit)
    decreases |events|, 1
  {
    if events == [] then State(map[], 0)
    else Next(Reached(events[..|events| - 1], key, limit), key, events[|events| - 1])
  }

  function Count(state: State, key: string): nat {
    if key in state.attempts then state.attempts[key].failures else 0
  }

  lemma StepKeepsBudget(state: State, key: string, e: Event, limit: nat)
    requires !e.Check? && e.key == key ==> state.passed > 0
    requires Count(state, key) + state.passed <= 4 + limit && state.passed <= limit
    requires Next(state, key, e).passed <= limit
    ensures Count(Next(state, key, e), key) + Next(state, key, e).passed <= 4 + limit
  {
  }

  /** Whatever the clock reads, the failures counted and the attempts under way never exceed 4 + limit. */
  lemma {:induction false} CounterBounded(events: seq<Event>, key: string, limit: nat)
    requires Feasible(events, key, limit)
    ensures var s := Reached(events, key, limit); Count(s, key) + s.passed <= 4 + limit && s.passed <= limit
  {
    if events != [] {
      var n := |events| - 1;
      CounterBounded(events[..n], key, limit);
      StepKeepsBudget(Reached(events[..n], key, limit), key, events[n], limit);
    }
  }

  // ------------------------------------------------------ failures in an interval

  predicate Rising(events: seq<Event>) {
    forall i, j :: 0 <= i < j < |events| ==> events[i].now <= events[j].now
  }

  predicate NeverCleared(events: seq<Event>, key: string) {
    forall i :: 0 <= i < |events| ==> !(events[i].Succeed? && events[i].key == key)
  }

  /** Failures recorded for the key with a reading from first up to but not including end. */
  function FailuresIn(events: seq<Event>, key: string, first: int, end: int): nat {
    if events == [] then 0
    else
      var e := events[|events| - 1];
      FailuresIn(events[..|events| - 1], key, first, end)
      + if e.Fail? && e.key == key && first <= e.now < end then 1 else 0
  }

  /** What holds of the failures n counted so far in [first, first + WINDOW), when the clock last read now. */
  predicate HalfOpen(state: State, key: string, n: nat, first: int, now: int, limit: nat) {
    if now >= first + WINDOW then n <= 2 * limit + 7
    else if key !in state.attempts then n <= 3 + limit && (now < first ==> n == 0)
    else
      var w := state.attempts[key];
      && w.failures >= 1 && w.started <= now && (now < first ==> n == 0)
      && if w.started < first then n <= w.failures - 1 else n <= 3 + limit + w.failures
  }

  lemma HalfOpenStep(state: State, key: string, e: Event, n: nat, first: int, now: int, limit: nat)
    requires HalfOpen(state, key, n, first, now, limit) && now <= e.now
    requires Count(state, key) + state.passed <= 4 + limit && state.passed <= limit
    requires !e.Check? && e.key == key ==> state.passed > 0
    requires !(e.Succeed? && e.key == key)
    ensures HalfOpen(Next(state, key, e), key,
                     n + if e.Fail? && e.key == key && first <= e.now < first + WINDOW then 1 else 0,
                     first, e.now, limit)
  {
  }

  lemma {:induction false} FailuresCounted(events: seq<Event>, key: string, first: int, limit: nat)
    requires Feasible(events, key, limit) && Rising(events) && NeverCleared(events, key) && events != []
    ensures HalfOpen(Reached(events, key, limit), key, FailuresIn(events, key, first, first + WINDOW),
                     first, events[|events| - 1].now, limit)
  {
    var n := |events| - 1;
    var rest, e := events[..n], events[n];
    CounterBounded(rest, key, limit);
    if rest == [] {
      HalfOpenStep(State(map[], 0), key, e, 0, first, if e.now < first then e.now else first, limit);
    } else {
      FailuresCounted(rest, key, first, limit);
      HalfOpenStep(Reached(rest, key, limit), key, e, FailuresIn(rest, key, first, first + WINDOW), first,
        rest[n - 1].now, limit);
    }
  }

  /**
   * Any five minutes, the last instant excluded, see at most 2 * limit + 7
   * failures; nine when attempts come one by one.
   */
  lemma {:induction false} FailuresPerWindow(events: seq<Event>, key: string, first: int, limit: nat)
    requires Feasible(events, key, limit) && Rising(events) && NeverCleared(events, key)
    ensures FailuresIn(events, key, first, first + WINDOW) <= 2 * limit + 7
  {
    if events != [] {
      FailuresCounted(events, key, first, limit);
      CounterBounded(events, key, limit);
    }
  }

  /** What holds of the failures n counted so far in [first, first + WINDOW], when the clock last read now. */
  predicate Closed(state: State, key: string, n: nat, first: int, now: int, limit: nat) {
    var last := first + WINDOW;
    && (now < first ==> n == 0)
    && if now > last then n <= 2 * limit + 8
       else if key !in state.attempts then n <= (if now < last then 3 else 4) + limit && (now <= first ==> n == 0)
       else
         var w := state.attempts[key];
         && w.failures >= 1 && w.started <= now
         && if w.started <= first - WINDOW then n == 0
            else if w.started < first then n <= w.failures - 1
            else if w.started == first then n <= w.failures
            else if w.started < last then n <= 3 + limit + w.failures
            else n <= 4 + limit + w.failures
  }

  lemma ClosedStep(state: State, key: string, e: Event, n: nat, first: int, now: int, limit: nat)
    requires Closed(state, key, n, first, now, limit) && now <= e.now
    requires Count(state, key) + state.passed <= 4 + limit && state.passed <= limit
    requires !e.Check? && e.key == key ==> state.passed > 0
    requires !(e.Succeed? && e.key == key)
    ensures Closed(Next(state, key, e), key,
                   n + if e.Fail? && e.key == key && first <= e.now < first + WINDOW + 1 then 1 else 0,
                   first, e.now, limit)
  {
  }

  lemma {:induction false} ClosedCounted(events: seq<Event>, key: string, first: int, limit: nat)
    requires Feasible(events, key, limit) && Rising(events) && NeverCleared(events, key) && events != []
    ensures Closed(Reached(events, key, limit), key, FailuresIn(events, key, first, first + WINDOW + 1),
                   first, events[|events| - 1].now, limit)
  {
    var n := |events| - 1;
    var rest, e := events[..n], events[n];
    CounterBounded(rest, key, limit);
    if rest == [] {
      ClosedStep(State(map[], 0), key, e, 0, first, if e.now < first then e.now else first, limit);
    } else {
      ClosedCounted(rest, key, first, limit);
      ClosedStep(Reached(rest, key, limit), key, e, FailuresIn(rest, key, first, first + WINDOW + 1), first,
        rest[n - 1].now, limit);
    }
  }

  /** With both ends counted it is 2 * limit + 8; ten when attempts come one by one. */
  lemma {:induction false} FailuresPerClosedWindow(events: seq<Event>, key: string, first: int, limit: nat)
    requires Feasible(events, key, limit) && Rising(events) && NeverCleared(events, key)
    ensures FailuresIn(events, key, first, first + WINDOW + 1) <= 2 * limit + 8
  {
    if events != [] {
      ClosedCounted(events, key, first, limit);
      CounterBounded(events, key, limit);
    }
  }

  /** The bounds in nanoseconds: five minutes with one end, and with both. */
  lemma FiveMinutes(events: seq<Event>, key: string, first: int, limit: nat)
    requires Feasible(events, key, limit) && Rising(events) && NeverCleared(events, key)
    ensures FailuresIn(events, key, first, first + 5 * 60 * 1_000_000_000) <= 2 * limit + 7
    ensures FailuresIn(events, key, first, first + 5 * 60 * 1_000_000_000 + 1) <= 2 * limit + 8
  {
    FailuresPerWindow(events, key, first, limit);
    FailuresPerClosedWindow(events, key, first, limit);
  }

  // ------------------------------------------------------- the bounds are reached

  /** A run that leaves this window, with so many attempts under way and so many failures in the interval. */
  ghost predicate Leaves(
    events: seq<Event>, key: string, limit: nat, first: int, end: int, window: Window, passed: nat, n: nat, now: int)
  {
    && Feasible(events, key, limit) && Reached(events, key, limit) == State(map[key := window], passed)
    && Rising(events) && NeverCleared(events, key) && (forall i :: 0 <= i < |events| ==> events[i].now <= now)
    && FailuresIn(events, key, first, end) == n
  }

  lemma ThenCheck(
    events: seq<Event>, key: string, limit: nat, first: int, end: int, window: Window, passed: nat, n: nat, now: int)
    requires Leaves(events, key, limit, first, end, window, passed, n, now)
    requires !Expired(window, now) && window.failures < MAX_FAILURES && passed < limit
    ensures Leaves(events + [Check(key, now)], key, limit, first, end, window, passed + 1, n, now)
  {
    assert (events + [Check(key, now)])[..|events|] == events;
  }

  lemma ThenFail(
    events: seq<Event>, key: string, limit: nat, first: int, end: int, window: Window, passed: nat, n: nat, now: int)
    requires Leaves(events, key, limit, first, end, window, passed, n, now)
    requires !Expired(window, now) && passed > 0
    ensures Leaves(events + [Fail(key, now)], key, limit, first, end,
                   window.(failures := window.failures + 1), passed - 1,
                   n + if first <= now < end then 1 else 0, now)
  {
    assert (events + [Fail(key, now)])[..|events|] == events;
  }

  /** So many more attempts check, all before any of them fails, and then all fail. */
  lemma {:induction false} ManyChecks(
    events: seq<Event>, key: string, limit: nat, first: int, end: int, window: Window, passed: nat, n: nat, now: int)
    returns (more: seq<Event>)
    requires Leaves(events, key, limit, first, end, window, passed, n, now)
    requires !Expired(window, now) && window.failures < MAX_FAILURES && passed <= limit
    ensures Leaves(more, key, limit, first, end, window, limit, n, now)
    decreases limit - passed
  {
    if passed == limit {
      more := events;
    } else {
      ThenCheck(events, key, limit, first, end, window, passed, n, now);
      more := ManyChecks(events + [Check(key, now)], key, limit, first, end, window, passed + 1, n, now);
    }
  }

  lemma {:induction false} ManyFails(
    events: seq<Event>, key: string, limit: nat, first: int, end: int, window: Window, passed: nat, n: nat, now: int)
    returns (more: seq<Event>)
    requires Leaves(events, key, limit, first, end, window, passed, n, now)
    requires !Expired(window, now) && first <= now < end
    ensures Leaves(more, key, limit, first, end, window.(failures := window.failures + passed), 0, n + passed, now)
    decreases passed
  {
    if passed == 0 {
      more := events;
    } else {
      ThenFail(events, key, limit, first, end, window, passed, n, now);
      more := ManyFails(events + [Fail(key, now)], key, limit, first, end,
                        window.(failures := window.failures + 1), passed - 1, n + 1, now);
    }
  }

  /** One attempt after another until four failures are counted, then as many at once as there may be. */
  lemma {:induction false} FillWindow(
    events: seq<Event>, key: string, limit: nat, first: int, end: int, window: Window, n: nat, now: int)
    returns (more: seq<Event>)
    requires Leaves(events, key, limit, first, end, window, 0, n, now)
    requires !Expired(window, now) && window.failures <= 4 && first <= now < end && limit > 0
    ensures Leaves(more, key, limit, first, end, window.(failures := 4 + limit), 0,
                   n + 4 + limit - window.failures, now)
    decreases 4 - window.failures
  {
    if window.failures == 4 {
      more := ManyChecks(events, key, limit, first, end, window, 0, n, now);
      more := ManyFails(more, key, limit, first, end, window, limit, n, now);
    } else {
      ThenCheck(events, key, limit, first, end, window, 0, n, now);
      ThenFail(events + [Check(key, now)], key, limit, first, end, window, 1, n, now);
      more := FillWindow(events + [Check(key, now)] + [Fail(key, now)], key, limit, first, end,
                         window.(failures := window.failures + 1), n + 1, now);
    }
  }

  /** A failing attempt that starts a window, when there is none or the one there has expired. */
  lemma StartWindow(events: seq<Event>, key: string, limit: nat, first: int, end: int, now: int)
    requires Feasible(events, key, limit) && Rising(events) && NeverCleared(events, key) && limit > 0
    requires forall i :: 0 <= i < |events| ==> events[i].now <= now
    requires var s := Reached(events, key, limit);
      s.passed == 0 && (s.attempts == map[] || exists w :: s.attempts == map[key := w] && Expired(w, now))
    ensures Leaves(events + [Check(key, now)] + [Fail(key, now)], key, limit, first, end, Window(now, 1), 0,
                   FailuresIn(events, key, first, end) + if first <= now < end then 1 else 0, now)
  {
    var one := events + [Check(key, now)];
    var two := one + [Fail(key, now)];
    assert one[..|events|] == events && two[..|one|] == one;
    var before := Reached(events, key, limit);
    assert AfterCheck(before.attempts, key, now) == map[];
    assert Next(before, key, Check(key, now)) == State(map[], 1);
    assert Feasible(one, key, limit) && Reached(one, key, limit) == State(map[], 1);
    assert Next(State(map[], 1), key, Fail(key, now)) == State(map[key := Window(now, 1)], 0);
    assert Feasible(two, key, limit) && Reached(two, key, limit) == State(map[key := Window(now, 1)], 0);
    assert FailuresIn(one, key, first, end) == FailuresIn(events, key, first, end);
  }

  /** Two windows filled one after the other, the first begun at start and gone on with at later. */
  lemma TwoFullWindows(
    key: string, limit: nat, start: int, later: int, first: int, end: int)
    returns (events: seq<Event>)
    requires limit > 0 && start <= later < start + WINDOW < end && first <= later
    ensures Feasible(events, key, limit) && Rising(events) && NeverCleared(events, key)
    ensures FailuresIn(events, key, first, end) == 2 * limit + 7 + if first <= start then 1 else 0
  {
    StartWindow([], key, limit, first, end, start);
    var n := if first <= start then 1 else 0;
    events := [] + [Check(key, start)] + [Fail(key, start)];
    assert Leaves(events, key, limit, first, end, Window(start, 1), 0, n, later);
    events := FillWindow(events, key, limit, first, end, Window(start, 1), n, later);
    StartWindow(events, key, limit, first, end, start + WINDOW);
    events := FillWindow(events + [Check(key, start + WINDOW)] + [Fail(key, start + WINDOW)], key, limit, first, end,
                         Window(start + WINDOW, 1), n + 4 + limit, start + WINDOW);
  }

  /** Both bounds on the failures in five minutes are met by some run. */
  lemma BoundsAreReached(key: string, limit: nat, first: int) returns (halfOpen: seq<Event>, closed: seq<Event>)
    requires limit > 0
    ensures Feasible(halfOpen, key, limit) && Rising(halfOpen) && NeverCleared(halfOpen, key)
    ensures FailuresIn(halfOpen, key, first, first + WINDOW) == 2 * limit + 7
    ensures Feasible(closed, key, limit) && Rising(closed) && NeverCleared(closed, key)
    ensures FailuresIn(closed, key, first, first + WINDOW + 1) == 2 * limit + 8
  {
    halfOpen := TwoFullWindows(key, limit, first - 1, first, first, first + WINDOW);
    closed := TwoFullWindows(key, limit, first, first, first, first + WINDOW + 1);
  }
}
