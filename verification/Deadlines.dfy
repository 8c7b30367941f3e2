/** Operation deadlines under any clock, and the polling loops bounded by one. */
module Deadlines {
  import opened Wrappers

  const MAX_SAFE_INTEGER: int := 0x1f_ffff_ffff_ffff

  predicate SafeInteger(n: int) {
    -MAX_SAFE_INTEGER <= n <= MAX_SAFE_INTEGER
  }

  datatype Deadline = Deadline(endsAtMs: int, remainingMs: int)

  /** A timeout in milliseconds, an expired deadline, or a clock that is no safe integer. */
  datatype Answer = Remaining(ms: int) | Expired | BadClock

  function Min(a: int, b: int): int {
    if a < b then a else b
  }

  function Max(a: int, b: int): int {
    if a < b then b else a
  }

  function Tick(d: Deadline, now: int): (Deadline, Answer) {
    if !SafeInteger(now) then (d, BadClock)
    else
      var remaining := Min(d.remainingMs, Max(0, d.endsAtMs - now));
      (d.(remainingMs := remaining), if remaining == 0 then Expired else Remaining(remaining))
  }

  /** The deadline after any clock readings, in any order and even backwards. */
  function After(d: Deadline, readings: seq<int>): Deadline {
    if readings == [] then d
    else Tick(After(d, readings[..|readings| - 1]), readings[|readings| - 1]).0
  }

  /** The remaining time is the least that any reading so far left, and never more than the timeout. */
  lemma {:induction false} RemainingIsLeast(d: Deadline, readings: seq<int>)
    requires d.remainingMs >= 0
    ensures var after := After(d, readings);
            && after.endsAtMs == d.endsAtMs && 0 <= after.remainingMs <= d.remainingMs
            && (forall i :: 0 <= i < |readings| && SafeInteger(readings[i]) ==>
                  after.remainingMs <= Max(0, d.endsAtMs - readings[i]))
            && (after.remainingMs == d.remainingMs
                || exists i :: 0 <= i < |readings| && SafeInteger(readings[i])
                               && after.remainingMs == Max(0, d.endsAtMs - readings[i]))
  {
    if readings != [] {
      var n := |readings| - 1;
      var init := readings[..n];
      RemainingIsLeast(d, init);
      var before, after := After(d, init), After(d, readings);
      forall i | 0 <= i < |readings| && SafeInteger(readings[i])
        ensures after.remainingMs <= Max(0, d.endsAtMs - readings[i])
      {
        if i < n {
          assert init[i] == readings[i];
        }
      }
      if after.remainingMs != before.remainingMs {
        assert SafeInteger(readings[n]);
      } else if before.remainingMs != d.remainingMs {
        var i :| 0 <= i < n && SafeInteger(init[i]) && before.remainingMs == Max(0, d.endsAtMs - init[i]);
        assert readings[i] == init[i];
      }
    }
  }

  lemma {:induction false} AfterAppend(d: Deadline, a: seq<int>, b: seq<int>)
    ensures After(d, a + b) == After(After(d, a), b)
    decreases |b|
  {
    if b == [] {
      assert a + b == a;
    } else {
      assert (a + b)[..|a + b| - 1] == a + b[..|b| - 1];
      AfterAppend(d, a, b[..|b| - 1]);
    }
  }

  /** Timeouts never increase, and an expired deadline stays expired, whatever the clock says later. */
  lemma TimeoutsNeverIncrease(d: Deadline, a: seq<int>, b: seq<int>, now: int)
    requires d.remainingMs >= 0
    ensures After(d, a + b).remainingMs <= After(d, a).remainingMs
    ensures After(d, a).remainingMs == 0 ==> !Tick(After(d, a + b), now).1.Remaining?
  {
    AfterAppend(d, a, b);
    RemainingIsLeast(d, a);
    RemainingIsLeast(After(d, a), b);
  }

  /** A fresh deadline is expired exactly when some reading reached its end. */
  lemma ExpiredExactly(startedAtMs: int, timeoutMs: int, readings: seq<int>)
    requires timeoutMs > 0
    ensures After(Deadline(startedAtMs + timeoutMs, timeoutMs), readings).remainingMs == 0 <==>
            exists i :: 0 <= i < |readings| && SafeInteger(readings[i]) && readings[i] >= startedAtMs + timeoutMs
  {
    RemainingIsLeast(Deadline(startedAtMs + timeoutMs, timeoutMs), readings);
  }

  /**
   * What a fresh deadline answers: expired once some reading, this one or an earlier one, reached its end;
   * before that the least time any of them left.
   */
  lemma AnswerIsLeast(startedAtMs: int, timeoutMs: int, readings: seq<int>, now: int)
    requires timeoutMs > 0 && SafeInteger(now)
    ensures var all, end := readings + [now], startedAtMs + timeoutMs;
            match Tick(After(Deadline(end, timeoutMs), readings), now).1
            case Expired => exists i :: 0 <= i < |all| && SafeInteger(all[i]) && all[i] >= end
            case Remaining(ms) =>
              && 0 < ms <= timeoutMs
              && (forall i :: 0 <= i < |all| && SafeInteger(all[i]) ==> ms <= end - all[i])
              && (ms == timeoutMs || exists i :: 0 <= i < |all| && SafeInteger(all[i]) && ms == end - all[i])
            case BadClock => false
  {
    var d, all := Deadline(startedAtMs + timeoutMs, timeoutMs), readings + [now];
    assert all[..|all| - 1] == readings;
    RemainingIsLeast(d, all);
    ExpiredExactly(startedAtMs, timeoutMs, all);
    assert After(d, all) == Tick(After(d, readings), now).0;
  }

  class OperationDeadline {
    const endsAtMs: int
    var remainingMs: int

    ghost function State(): Deadline
      reads this
    {
      Deadline(endsAtMs, remainingMs)
    }

    constructor (startedAtMs: int, timeoutMs: int)
      requires timeoutMs > 0 && SafeInteger(startedAtMs + timeoutMs)
      ensures State() == Deadline(startedAtMs + timeoutMs, timeoutMs)
    {
      endsAtMs := startedAtMs + timeoutMs;
      remainingMs := timeoutMs;
    }

    method RemainingTimeoutMs(now: int) returns (answer: Answer)
      modifies this
      ensures (State(), answer) == Tick(old(State()), now)
    {
      if !SafeInteger(now) {
        return BadClock;
      }
      var computedRemainingMs := Max(0, endsAtMs - now);
      remainingMs := Min(remainingMs, computedRemainingMs);
      if remainingMs == 0 {
        return Expired;
      }
      return Remaining(remainingMs);
    }
  }

  /** Rejects timeouts that are not positive safe integers, bad clocks and ends out of range. */
  method CreateDeadline(timeoutMs: int, now: int) returns (d: OperationDeadline?)
    ensures d != null <==>
            SafeInteger(timeoutMs) && timeoutMs > 0 && SafeInteger(now) && SafeInteger(now + timeoutMs)
    ensures d != null ==> fresh(d) && d.State() == Deadline(now + timeoutMs, timeoutMs)
  {
    if !SafeInteger(timeoutMs) || timeoutMs <= 0 || !SafeInteger(now) || !SafeInteger(now + timeoutMs) {
      return null;
    }
    d := new OperationDeadline(now, timeoutMs);
  }

  /**
   * The world of a polling loop: what each read observes, how long it takes, and by how much
   * each sleep overshoots. The clock does not move back.
   */
  datatype World<T> = World(observe: nat -> T, readMs: nat -> nat, overshootMs: nat -> nat)

  /** The clock when read k starts: after each earlier read the loop sleeps an interval, or what is left. */
  function BeforeRead<T>(k: nat, startedAtMs: int, deadline: int, intervalMs: int, world: World<T>): int
    decreases k, 0
  {
    if k == 0 then startedAtMs
    else
      var after := AfterRead(k - 1, startedAtMs, deadline, intervalMs, world);
      after + Min(intervalMs, deadline - after) + world.overshootMs(k - 1)
  }

  /** The clock when read k has returned. */
  function AfterRead<T>(k: nat, startedAtMs: int, deadline: int, intervalMs: int, world: World<T>): int
    decreases k, 1
  {
    BeforeRead(k, startedAtMs, deadline, intervalMs, world) + world.readMs(k)
  }

  lemma ReadAndSleep<T>(k: nat, startedAtMs: int, deadline: int, intervalMs: int, world: World<T>)
    ensures BeforeRead(0, startedAtMs, deadline, intervalMs, world) == startedAtMs
    ensures var after := AfterRead(k, startedAtMs, deadline, intervalMs, world);
            && after == BeforeRead(k, startedAtMs, deadline, intervalMs, world) + world.readMs(k)
            && BeforeRead(k + 1, startedAtMs, deadline, intervalMs, world)
            == after + Min(intervalMs, deadline - after) + world.overshootMs(k)
  {
  }

  /** Read k returned past the deadline, or the sleep behind it ended there. */
  predicate DeadlineReached<T>(k: nat, startedAtMs: int, deadline: int, intervalMs: int, world: World<T>) {
    || AfterRead(k, startedAtMs, deadline, intervalMs, world) >= deadline
    || BeforeRead(k + 1, startedAtMs, deadline, intervalMs, world) >= deadline
  }

  function CeilDiv(a: nat, b: nat): nat
    requires b > 0
  {
    (a + b - 1) / b
  }

  lemma ReadBound(attempts: nat, intervalMs: nat, timeoutMs: nat)
    requires intervalMs > 0 && attempts * intervalMs < timeoutMs
    ensures attempts + 1 <= CeilDiv(timeoutMs, intervalMs)
  {
    var total := timeoutMs + intervalMs - 1;
    assert (attempts + 1) * intervalMs <= total;
    var quotient := total / intervalMs;
    assert total < (quotient + 1) * intervalMs;
    assert attempts < quotient + 1;
  }

  /**
   * Reads until a value matches or the deadline passes, and gives up no earlier. The value returned is
   * the first that matches; on a timeout no observed value did. At most max(1, ceil(timeout / interval))
   * reads.
   */
  method PollUntil<T>(timeoutMs: nat, pollIntervalMs: nat, match_: T -> bool, world: World<T>, startedAtMs: int)
    returns (r: Result<T>, attempts: nat)
    requires pollIntervalMs > 0
    ensures 1 <= attempts <= Max(1, CeilDiv(timeoutMs, pollIntervalMs))
    ensures forall k :: 0 <= k < attempts - 1 ==>
              && !match_(world.observe(k))
              && !DeadlineReached(k, startedAtMs, startedAtMs + timeoutMs, pollIntervalMs, world)
    ensures r.Ok? <==> match_(world.observe(attempts - 1))
    ensures r.Ok? ==> r.value == world.observe(attempts - 1)
    ensures r.Err? ==> DeadlineReached(attempts - 1, startedAtMs, startedAtMs + timeoutMs, pollIntervalMs, world)
  {
    hide BeforeRead, AfterRead, CeilDiv;
    var clock := startedAtMs;
    var deadline := clock + timeoutMs;
    attempts := 0;
    ReadAndSleep(0, startedAtMs, deadline, pollIntervalMs, world);
    var firstRead := true;
    while firstRead || clock < deadline
      invariant firstRead <==> attempts == 0
      invariant clock >= startedAtMs && deadline == startedAtMs + timeoutMs
      invariant clock == BeforeRead(attempts, startedAtMs, deadline, pollIntervalMs, world)
      invariant clock < deadline ==> clock - startedAtMs >= attempts * pollIntervalMs
      invariant forall k :: 0 <= k < attempts ==> !match_(world.observe(k))
      invariant forall k :: 0 <= k < attempts - 1 ==>
                  !DeadlineReached(k, startedAtMs, deadline, pollIntervalMs, world)
      invariant attempts > 0 ==> AfterRead(attempts - 1, startedAtMs, deadline, pollIntervalMs, world) < deadline
      invariant attempts <= Max(1, CeilDiv(timeoutMs, pollIntervalMs))
      decreases firstRead, deadline - clock
    {
      if clock < deadline {
        ReadBound(attempts, pollIntervalMs, timeoutMs);
      }
      assert attempts > 0 ==> !DeadlineReached(attempts - 1, startedAtMs, deadline, pollIntervalMs, world);
      ReadAndSleep(attempts, startedAtMs, deadline, pollIntervalMs, world);
      firstRead := false;
      var observed := world.observe(attempts);
      clock := clock + world.readMs(attempts);
      attempts := attempts + 1;
      if match_(observed) {
        return Ok(observed), attempts;
      }
      var remainingMs := deadline - clock;
      if remainingMs <= 0 {
        return Err, attempts;
      }
      assert attempts * pollIntervalMs == (attempts - 1) * pollIntervalMs + pollIntervalMs;
      clock := clock + Min(pollIntervalMs, remainingMs) + world.overshootMs(attempts - 1);
    }
    return Err, attempts;
  }

  const EVENT_QUERY_PROJECTION_POLL_INTERVAL_MS: nat := 100

  /** Which halves of a contract's history a response holds, and whether they pass the checks. */
  datatype History = History(created: bool, archived: bool, valid: bool)

  datatype HistoryOutcome = Complete(read: nat) | Invalid | TimedOut(missing: seq<string>) | ClockFailed

  /** The halves a response does not hold, the created one first. */
  function Missing(h: History): (missing: seq<string>)
    ensures !h.created && !h.archived ==> missing == ["created", "archived"]
    ensures !h.created && h.archived ==> missing == ["created"]
    ensures h.created && !h.archived ==> missing == ["archived"]
    ensures h.created && h.archived ==> missing == []
  {
    (if h.created then [] else ["created"]) + (if h.archived then [] else ["archived"])
  }

  predicate Incomplete(h: History) {
    h.valid && !(h.created && h.archived)
  }

  /** Clock readings of the wait around read k, in milliseconds. */
  function ReadStarts(k: nat, startedAtMs: int, endsAtMs: int, world: World<History>): int {
    BeforeRead(k, startedAtMs, endsAtMs, EVENT_QUERY_PROJECTION_POLL_INTERVAL_MS, world)
  }

  function ReadReturns(k: nat, startedAtMs: int, endsAtMs: int, world: World<History>): int {
    AfterRead(k, startedAtMs, endsAtMs, EVENT_QUERY_PROJECTION_POLL_INTERVAL_MS, world)
  }

  /** While the clock has not moved back, a deadline answers with the time that is left. */
  lemma TickForward(d: Deadline, now: int)
    requires d.remainingMs >= Max(0, d.endsAtMs - now)
    ensures var (after, answer) := Tick(d, now);
            && after.endsAtMs == d.endsAtMs && after.remainingMs >= Max(0, d.endsAtMs - now)
            && answer == if !SafeInteger(now) then BadClock
                         else if now >= d.endsAtMs then Expired
                         else Remaining(d.endsAtMs - now)
  {
  }

  /** A reading that leaves the operation time. */
  predicate InTime(now: int, endsAtMs: int) {
    SafeInteger(now) && now < endsAtMs
  }

  /** Read k gave no reason to stop. */
  predicate KeepsWaiting(k: nat, startedAtMs: int, endsAtMs: int, world: World<History>) {
    Incomplete(world.observe(k)) && InTime(ReadReturns(k, startedAtMs, endsAtMs, world), endsAtMs)
  }

  /**
   * Waits for both halves of a history under an operation deadline. The result is the first response
   * that holds both; the wait goes on as long as the clock is before the end of the deadline, and a
   * timeout names what the last response still missed; at most ceil(left / interval) reads.
   */
  method WaitForCompleteOriginalHistory(d: OperationDeadline, startedAtMs: int, world: World<History>)
    returns (outcome: HistoryOutcome, attempts: nat)
    requires d.remainingMs >= Max(0, d.endsAtMs - startedAtMs)
    modifies d
    ensures attempts <= CeilDiv(Max(0, d.endsAtMs - startedAtMs), EVENT_QUERY_PROJECTION_POLL_INTERVAL_MS)
    ensures forall k :: 0 <= k < attempts ==> InTime(ReadStarts(k, startedAtMs, d.endsAtMs, world), d.endsAtMs)
    ensures forall k :: 0 <= k < attempts - 1 ==> KeepsWaiting(k, startedAtMs, d.endsAtMs, world)
    ensures outcome.Complete? ==>
              attempts == outcome.read + 1 && world.observe(outcome.read) == History(true, true, true)
    ensures outcome.Invalid? ==> attempts > 0 && !world.observe(attempts - 1).valid
    ensures outcome.TimedOut? ==>
              || ReadStarts(attempts, startedAtMs, d.endsAtMs, world) >= d.endsAtMs
              || (attempts > 0 && ReadReturns(attempts - 1, startedAtMs, d.endsAtMs, world) >= d.endsAtMs)
    ensures outcome.TimedOut? ==>
              if attempts == 0 then outcome.missing == ["created", "archived"]
              else Incomplete(world.observe(attempts - 1)) && outcome.missing == Missing(world.observe(attempts - 1))
    ensures outcome.ClockFailed? ==>
              || !SafeInteger(ReadStarts(attempts, startedAtMs, d.endsAtMs, world))
              || (attempts > 0 && !SafeInteger(ReadReturns(attempts - 1, startedAtMs, d.endsAtMs, world)))
  {
    hide BeforeRead, AfterRead, CeilDiv, Tick;
    ReadAndSleep(0, startedAtMs, d.endsAtMs, EVENT_QUERY_PROJECTION_POLL_INTERVAL_MS, world);
    var clock := startedAtMs;
    var missing := ["created", "archived"];
    attempts := 0;
    while true
      invariant d.remainingMs >= Max(0, d.endsAtMs - clock)
      invariant clock >= startedAtMs && clock == ReadStarts(attempts, startedAtMs, d.endsAtMs, world)
      invariant clock < d.endsAtMs ==> clock - startedAtMs >= attempts * EVENT_QUERY_PROJECTION_POLL_INTERVAL_MS
      invariant attempts <= CeilDiv(Max(0, d.endsAtMs - startedAtMs), EVENT_QUERY_PROJECTION_POLL_INTERVAL_MS)
      invariant forall k :: 0 <= k < attempts ==> InTime(ReadStarts(k, startedAtMs, d.endsAtMs, world), d.endsAtMs)
      invariant forall k :: 0 <= k < attempts ==> KeepsWaiting(k, startedAtMs, d.endsAtMs, world)
      invariant missing == if attempts == 0 then ["created", "archived"] else Missing(world.observe(attempts - 1))
      decreases Max(0, d.endsAtMs - clock)
    {
      assert attempts > 0 ==> KeepsWaiting(attempts - 1, startedAtMs, d.endsAtMs, world);
      TickForward(d.State(), clock);
      var options := d.RemainingTimeoutMs(clock);
      if options.Expired? {
        return TimedOut(missing), attempts;
      } else if options.BadClock? {
        return ClockFailed, attempts;
      }
      ReadBound(attempts, EVENT_QUERY_PROJECTION_POLL_INTERVAL_MS, d.endsAtMs - startedAtMs);
      ReadAndSleep(attempts, startedAtMs, d.endsAtMs, EVENT_QUERY_PROJECTION_POLL_INTERVAL_MS, world);
      var response := world.observe(attempts);
      clock := clock + world.readMs(attempts);
      attempts := attempts + 1;
      if !response.valid {
        return Invalid, attempts;
      }
      if response.created && response.archived {
        return Complete(attempts - 1), attempts;
      }
      missing := Missing(response);
      TickForward(d.State(), clock);
      var remaining := d.RemainingTimeoutMs(clock);
      if remaining.Expired? {
        return TimedOut(missing), attempts;
      } else if remaining.BadClock? {
        return ClockFailed, attempts;
      }
      clock := clock + Min(EVENT_QUERY_PROJECTION_POLL_INTERVAL_MS, remaining.ms) + world.overshootMs(attempts - 1);
    }
  }
}
