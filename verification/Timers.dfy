/**
 * Timeouts with exact time: a timer is born from a duration or another timer, its expiry is
 * sticky, and loops over it run a bounded number of times. The clock is an object that only
 * sleeping and the code between calls advance.
 */
module Timers {
  import opened Wrappers

  class Clock {
    var now: real

    constructor (now: real)
      ensures this.now == now
    {
      this.now := now;
    }

    /** Time passes: an exact sleep, or other work. */
    method Advance(d: real)
      requires d >= 0.0
      modifies this
      ensures now == old(now) + d
    {
      now := now + d;
    }
  }

  function Min(a: real, b: real): (m: real)
    ensures m <= a && m <= b && (m == a || m == b)
  {
    if a <= b then a else b
  }

  /** Who asked, a caller of `Expired` or the timer itself, and for which instant. */
  datatype Asked = Asked(byCaller: bool, at: real)

  class Timeout {
    const clock: Clock
    const start: real
    const expiry: Option<real>
    var isExpired: bool
    var expiredCalled: bool
    var loopSleepCalled: bool

    /** The results of all expiry checks so far. */
    ghost var checks: seq<bool>

    /** Who asked for each check. */
    ghost var asked: seq<Asked>

    /** The timer was given no time at all. */
    ghost predicate BornExpired()
    {
      expiry.Some? && expiry.value <= start
    }

    ghost predicate Valid()
      reads this
    {
      && (isExpired <==> BornExpired() || true in checks)
      && (expiredCalled <==> checks != [])
      && History(checks, asked)
    }

    /** A check answered "expired" exactly if it or some check before it was late. */
    ghost predicate History(checks: seq<bool>, asked: seq<Asked>)
    {
      && |asked| == |checks|
      && forall i :: 0 <= i < |checks| ==> (checks[i] <==> exists j :: 0 <= j <= i && Late(asked[j]))
    }

    /** A check for an instant at or after the expiry, or of a timer that was born expired. */
    ghost predicate Late(a: Asked)
    {
      BornExpired() || (expiry.Some? && a.at >= expiry.value)
    }

    constructor After(clock: Clock, timeout: Option<real>)
      ensures Valid() && this.clock == clock && checks == [] && asked == [] && !loopSleepCalled
      ensures start == clock.now
      ensures expiry == match timeout case None => None case Some(t) => Some(clock.now + t)
    {
      this.clock := clock;
      this.start := clock.now;
      loopSleepCalled, expiredCalled := false, false;
      checks, asked := [], [];
      expiry := match timeout case None => None case Some(t) => Some(clock.now + t);
      isExpired := timeout.Some? && timeout.value <= 0.0;
    }

    /** A timer for what another has left: the same expiry, or expired from the start. */
    constructor Nested(clock: Clock, parent: Timeout)
      requires parent.Valid()
      modifies parent`isExpired, parent`expiredCalled, parent`checks, parent`asked
      ensures Valid() && parent.Valid() && this.clock == clock && checks == [] && !loopSleepCalled
      ensures start == clock.now && (parent.expiry.None? <==> expiry.None?)
      ensures parent.checks == old(parent.checks) + if parent.expiry.None? then [] else [BornExpired()]
      ensures parent.asked == old(parent.asked) + if parent.expiry.None? then [] else [Asked(false, start)]
      ensures !BornExpired() ==> expiry == parent.expiry
      ensures parent.expiry.Some? ==>
                (BornExpired() <==> parent.BornExpired() || true in old(parent.checks) || clock.now >= parent.expiry.value)
    {
      this.clock := clock;
      this.start := clock.now;
      var timeout := parent.RemainingTime(clock.now);
      loopSleepCalled, expiredCalled := false, false;
      checks, asked := [], [];
      expiry := match timeout case None => None case Some(t) => Some(clock.now + t);
      isExpired := timeout.Some? && timeout.value <= 0.0;
    }

    /** The check all others go through: it answers for one instant, and a positive answer is final. */
    method ExpiredAt(now: real, ghost byCaller: bool) returns (r: bool)
      requires Valid()
      modifies this`isExpired, this`expiredCalled, this`checks, this`asked
      ensures Valid() && checks == old(checks) + [r] && asked == old(asked) + [Asked(byCaller, now)]
      ensures r <==> BornExpired() || true in old(checks) || (expiry.Some? && now >= expiry.value)
    {
      expiredCalled := true;
      if isExpired {
        r := true;
      } else if expiry.None? || now < expiry.value {
        r := false;
      } else {
        isExpired := true;
        r := true;
      }
      HistorySnoc(checks, asked, r, Asked(byCaller, now));
      checks, asked := checks + [r], asked + [Asked(byCaller, now)];
    }

    /** One more check is told "expired" if it is late or some check before it was told so. */
    lemma HistorySnoc(checks: seq<bool>, asked: seq<Asked>, r: bool, a: Asked)
      requires History(checks, asked) && (r <==> Late(a) || true in checks)
      ensures History(checks + [r], asked + [a])
      ensures true in checks + [r] <==> r || true in checks
    {
      var checks', asked', n := checks + [r], asked + [a], |checks|;
      forall i | 0 <= i <= n ensures checks'[i] <==> exists j :: 0 <= j <= i && Late(asked'[j]) {
        assert forall j :: 0 <= j < n ==> asked'[j] == asked[j];
        if i < n {
          assert checks'[i] == checks[i];
        } else {
          assert asked'[n] == a;
          if true in checks {
            var k :| 0 <= k < n && checks[k];
            var j :| 0 <= j <= k && Late(asked[j]);
            assert Late(asked'[j]);
          }
          if j :| 0 <= j < n && Late(asked[j]) { assert checks[j]; }
        }
      }
    }

    method Expired() returns (r: bool)
      requires Valid()
      modifies this`isExpired, this`expiredCalled, this`checks, this`asked
      ensures Valid() && checks == old(checks) + [r] && asked == old(asked) + [Asked(true, clock.now)]
      ensures r <==> BornExpired() || true in old(checks) || (expiry.Some? && clock.now >= expiry.value)
    {
      r := ExpiredAt(clock.now, true);
    }

    predicate WasExpired()
      reads this
    {
      expiredCalled && isExpired
    }

    /** The property reports exactly whether some check so far answered "expired". */
    lemma WasExpiredIsHistory()
      requires Valid()
      ensures WasExpired() <==> true in checks
    {
      if WasExpired() && BornExpired() {
        assert Late(asked[0]) && checks[0];
      }
    }

    /** The documented property: some call of `Expired` answered "expired". */
    ghost predicate CallerWasTold()
      reads this
      requires |asked| == |checks|
    {
      exists i :: 0 <= i < |asked| && asked[i].byCaller && checks[i]
    }

    /** Some check was late, and no call of `Expired` came with it or after it. */
    ghost predicate OnlyTimerKnows()
      reads this
    {
      && (exists i :: 0 <= i < |asked| && Late(asked[i]))
      && (forall i, j :: 0 <= i <= j < |asked| && Late(asked[i]) ==> !asked[j].byCaller)
    }

    /** The documented reading holds exactly unless a check of the timer's own was late and the caller has not asked since. */
    lemma DocumentedWasExpired()
      requires Valid()
      ensures (WasExpired() <==> CallerWasTold()) <==> !OnlyTimerKnows()
      ensures CallerWasTold() ==> WasExpired()
    {
      WasExpiredIsHistory();
      if i :| 0 <= i < |asked| && Late(asked[i]) {
        assert checks[i];
      }
      if i :| 0 <= i < |checks| && checks[i] {
        var j :| 0 <= j <= i && Late(asked[j]);
      }
      forall i, j | 0 <= i <= j < |asked| && Late(asked[i]) ensures checks[j] {
      }
    }

    /**
     * With a clock that does not run backwards: exactly unless some check of the timer's own, in
     * sleeping, in asking for the time left or in making a nested timer, was late, and no call of `Expired` was.
     */
    lemma DocumentedOnMonotoneClock()
      requires Valid() && forall i, j :: 0 <= i < j < |asked| ==> asked[i].at <= asked[j].at
      ensures (WasExpired() <==> CallerWasTold())
              <==> !((exists i :: 0 <= i < |asked| && !asked[i].byCaller && Late(asked[i]))
                     && forall i :: 0 <= i < |asked| && asked[i].byCaller ==> !Late(asked[i]))
    {
      DocumentedWasExpired();
      forall i, j | 0 <= i <= j < |asked| && Late(asked[i]) ensures Late(asked[j]) {
      }
    }

    /** The time left; asking is a check too, unless the timer never expires. */
    method RemainingTime(now: real) returns (r: Option<real>)
      requires Valid()
      modifies this`isExpired, this`expiredCalled, this`checks, this`asked
      ensures Valid()
      ensures expiry.None? ==> r.None? && checks == old(checks) && asked == old(asked)
      ensures expiry.Some? ==>
                && checks == old(checks) + [r == Some(0.0)] && asked == old(asked) + [Asked(false, now)]
                && (r == Some(0.0) || (r == Some(expiry.value - now) && r.value > 0.0))
                && (r == Some(0.0) <==> BornExpired() || true in old(checks) || now >= expiry.value)
    {
      if expiry.None? {
        return None;
      }
      var expired := ExpiredAt(now, false);
      r := Some(if expired then 0.0 else expiry.value - now);
    }

    /** Sleep for a while, but not past the expiry, and not at all once expired. */
    method Sleep(sleepTime: real) returns (r: bool)
      requires Valid() && sleepTime >= 0.0
      modifies this`isExpired, this`expiredCalled, this`checks, this`asked, clock
      ensures Valid() && checks == old(checks) + [!r] && asked == old(asked) + [Asked(false, old(clock.now))]
      ensures r <==> !BornExpired() && true !in old(checks) && (expiry.Some? ==> old(clock.now) < expiry.value)
      ensures clock.now == if !r then old(clock.now)
                           else if expiry.None? then old(clock.now) + sleepTime
                           else Min(old(clock.now) + sleepTime, expiry.value)
    {
      var expired := ExpiredAt(clock.now, false);
      if expired {
        return false;
      }
      clock.Advance(if expiry.None? then sleepTime else Min(sleepTime, expiry.value - clock.now));
      r := true;
    }

    /** The condition of a loop: the first call does not sleep, and by default lets the loop run once. */
    method LoopSleep(sleepTime: real, atLeastOnce: bool) returns (r: bool)
      requires Valid() && sleepTime >= 0.0
      modifies this`isExpired, this`expiredCalled, this`checks, this`asked, this`loopSleepCalled, clock
      ensures Valid() && loopSleepCalled && old(checks) <= checks
      ensures asked == old(asked) + if old(loopSleepCalled) || !atLeastOnce then [Asked(false, old(clock.now))] else []
      ensures !old(loopSleepCalled) ==> clock.now == old(clock.now)
      ensures !old(loopSleepCalled) ==>
                (r <==> atLeastOnce || !(BornExpired() || true in old(checks) || (expiry.Some? && clock.now >= expiry.value)))
      ensures old(loopSleepCalled) ==>
                && (r <==> !BornExpired() && true !in old(checks) && (expiry.Some? ==> old(clock.now) < expiry.value))
                && clock.now == if !r then old(clock.now)
                                else if expiry.None? then old(clock.now) + sleepTime
                                else Min(old(clock.now) + sleepTime, expiry.value)
      ensures !r ==> true in checks
      ensures r && !(old(loopSleepCalled) == false && atLeastOnce) ==> true !in checks
      ensures !old(loopSleepCalled) && atLeastOnce ==> checks == old(checks)
    {
      if !loopSleepCalled {
        loopSleepCalled := true;
        if !atLeastOnce {
          var expired := ExpiredAt(clock.now, false);
          assert expired ==> checks[|checks|-1];
          return !expired;
        }
        return true;
      }
      r := Sleep(sleepTime);
      assert !r ==> checks[|checks|-1];
    }
  }

  /** A timer without time that slept once: `WasExpired` holds, and `Expired` was never called. */
  method ExpiredByItself(clock: Clock) returns (timer: Timeout)
    ensures timer.Valid() && timer.WasExpired() && !timer.CallerWasTold()
    ensures forall i :: 0 <= i < |timer.asked| ==> !timer.asked[i].byCaller
    ensures fresh(timer) && clock.now == old(clock.now)
    modifies clock
  {
    timer := new Timeout.After(clock, Some(0.0));
    var slept := timer.Sleep(1.0);
    timer.WasExpiredIsHistory();
    assert timer.checks[0];
  }

  // ----- Loops over a timer -----

  /** The number of sleeps so far, all but perhaps the last of full length, bounds the time passed. */
  lemma OneMoreSleep(n: nat, s: real)
    ensures (n + 1) as real * s == n as real * s + s
  {
  }

  datatype Call<R, E> = Returned(value: R) | Raised(error: E)

  datatype Answer<E> = Swallow | Reraise | RaiseOther(error: E)

  /** What one round of waiting leads to: an end, or another round with the exception to remember. */
  datatype Round<R, E> = Done(result: Result<R, E>) | Again(last: Option<E>)

  function RoundOf<R, E>(call: Call<R, E>, handleResult: R -> Call<(bool, R), E>, handleException: E -> Answer<E>): Round<R, E> {
    match call
    case Returned(v) =>
      (match handleResult(v)
       case Returned((done, result)) => if done then Done(Ok(result)) else Again(None)
       case Raised(e) => Done(Err(e)))
    case Raised(e) =>
      match handleException(e)
      case Swallow => Again(Some(e))
      case Reraise => Done(Err(e))
      case RaiseOther(other) => Done(Err(other))
  }

  /** The call does not end the wait: it returned a value that is not final, or raised what the handler swallows. */
  ghost predicate GoesOn<R, E>(call: Call<R, E>, handleResult: R -> Call<(bool, R), E>, handleException: E -> Answer<E>) {
    || (call.Returned? && handleResult(call.value).Returned? && !handleResult(call.value).value.0)
    || (call.Raised? && handleException(call.error).Swallow?)
  }

  /** What a call that ends the wait gives: the final value, the exception of a handler, or its own if raised again. */
  ghost predicate EndsWith<R, E>(call: Call<R, E>, handleResult: R -> Call<(bool, R), E>, handleException: E -> Answer<E>, r: Result<R, E>) {
    || (call.Returned? && handleResult(call.value).Returned? && handleResult(call.value).value.0
        && r == Ok(handleResult(call.value).value.1))
    || (call.Returned? && handleResult(call.value).Raised? && r == Err(handleResult(call.value).error))
    || (call.Raised? && handleException(call.error).Reraise? && r == Err(call.error))
    || (call.Raised? && handleException(call.error).RaiseOther? && r == Err(handleException(call.error).error))
  }

  /** The exception of a call, if it raised. */
  function ExceptionOf<R, E>(call: Call<R, E>): (e: Option<E>)
    ensures e.None? <==> call.Returned?
    ensures e.Some? ==> call == Raised(e.value)
  {
    match call case Returned(_) => None case Raised(e) => Some(e)
  }

  lemma RoundMeaning<R, E>(call: Call<R, E>, handleResult: R -> Call<(bool, R), E>, handleException: E -> Answer<E>)
    ensures var round := RoundOf(call, handleResult, handleException);
            && (round.Again? <==> GoesOn(call, handleResult, handleException))
            && (round.Again? ==> round.last == ExceptionOf(call))
            && (forall r :: EndsWith(call, handleResult, handleException, r) <==> round == Done(r))
  {
  }

  /** Enough sleeps of length s reach any time. */
  lemma Archimedes(d: real, s: real) returns (n: nat)
    requires s > 0.0
    ensures d <= n as real * s
  {
    if d <= 0.0 {
      return 0;
    }
    assert d / s > 0.0;
    n := (d / s).Floor + 1;
    assert (d / s) * s == d && n as real >= d / s;
  }

  lemma FewerThan(k: int, n: nat, s: real)
    requires s > 0.0 && k as real * s < n as real * s
    ensures k < n
  {
  }

  /** After count bodies of a loop that began at time t0: as much time has passed as count - 1 full sleeps, or the timer is over. */
  ghost predicate Paced(t0: real, now: real, expiry: Option<real>, count: nat, s: real) {
    expiry.Some? && count > 0 ==>
      && (now < expiry.value ==> now - t0 >= (count - 1) as real * s)
      && (count >= 2 ==> (count - 2) as real * s < expiry.value - t0)
  }

  lemma PaceKept(t0: real, before: real, after: real, expiry: Option<real>, count: nat, s: real)
    requires s > 0.0 && Paced(t0, before, expiry, count, s) && t0 <= before <= after
    requires expiry.Some? && count > 0 ==> before < expiry.value && (after >= before + s || after >= expiry.value)
    ensures Paced(t0, after, expiry, count + 1, s)
  {
    if expiry.Some? && count > 0 {
      OneMoreSleep(count - 1, s);
    }
  }

  /** One turn of the loop, after count bodies: the condition, and then the time the next body takes. */
  method Turn(timer: Timeout, sleepTime: real, work: real, ghost count: nat, ghost pace: real) returns (go: bool)
    requires timer.Valid() && sleepTime >= 0.0 && work >= 0.0 && pace > 0.0 && sleepTime + work >= pace && true !in timer.checks && timer.loopSleepCalled == (count > 0)
    requires timer.start <= timer.clock.now && Paced(timer.start, timer.clock.now, timer.expiry, count, pace)
    modifies timer`isExpired, timer`expiredCalled, timer`checks, timer`asked, timer`loopSleepCalled, timer.clock
    ensures timer.Valid() && timer.loopSleepCalled && timer.start <= timer.clock.now
    ensures go ==> true !in timer.checks && Paced(timer.start, timer.clock.now, timer.expiry, count + 1, pace)
    ensures !go ==> count > 0 && timer.expiry.Some? && timer.clock.now >= timer.expiry.value
                    && Paced(timer.start, timer.clock.now, timer.expiry, count, pace)
  {
    ghost var before := timer.clock.now;
    go := timer.LoopSleep(sleepTime, true);
    if go {
      timer.clock.Advance(work);
      PaceKept(timer.start, before, timer.clock.now, timer.expiry, count, pace);
    }
  }

  /** More rounds than any wait can take. */
  ghost predicate IsLimit<R, E>(timeout: Option<real>, s: real, rounds: nat -> Round<R, E>, limit: nat) {
    match timeout
    case None => exists n: nat :: n < limit && rounds(n).Done?
    case Some(t) => limit >= 2 && t <= (limit - 2) as real * s
  }

  lemma LimitExists<R, E>(timeout: Option<real>, s: real, rounds: nat -> Round<R, E>) returns (limit: nat)
    requires s > 0.0 && (timeout.None? ==> exists n :: rounds(n).Done?)
    ensures IsLimit(timeout, s, rounds, limit)
  {
    match timeout
    case None =>
      var n: nat :| rounds(n).Done?;
      limit := n + 1;
    case Some(t) =>
      var n := Archimedes(t, s);
      limit := n + 2;
  }

  lemma LimitHolds<R, E>(timeout: Option<real>, s: real, rounds: nat -> Round<R, E>, limit: nat, count: nat)
    requires s > 0.0 && IsLimit(timeout, s, rounds, limit)
    requires forall k :: 0 <= k < count ==> rounds(k).Again?
    requires timeout.Some? && count >= 2 ==> (count - 2) as real * s < timeout.value
    ensures count < limit
  {
    if timeout.Some? && count >= 2 {
      FewerThan(count - 2, limit - 2, s);
    }
  }

  lemma PacedHolds<R, E>(t0: real, now: real, expiry: Option<real>, timeout: Option<real>, s: real,
                         rounds: nat -> Round<R, E>, limit: nat, count: nat)
    requires s > 0.0 && IsLimit(timeout, s, rounds, limit) && count > 0 && Paced(t0, now, expiry, count, s)
    requires timeout == match expiry case None => None case Some(e) => Some(e - t0)
    requires forall k :: 0 <= k < count ==> rounds(k).Again?
    ensures count < limit
  {
    LimitHolds(timeout, s, rounds, limit, count);
  }

  /**
   * The least time from one round to the next: the poll time, if that is positive, or what the
   * rounds themselves take at least.
   */
  ghost predicate IsPace(pace: real, pollSleepTime: real, work: nat -> real) {
    pace > 0.0 && 0.0 <= pollSleepTime <= pace && forall n :: work(n) >= 0.0 && pollSleepTime + work(n) >= pace
  }

  /** The time a new timer has: none, or as long as until its expiry. */
  ghost function Span(timer: Timeout): Option<real> {
    match timer.expiry case None => None case Some(e) => Some(e - timer.start)
  }

  /**
   * The loop of a wait, over a new timer: rounds until one ends it or the time is over. The n-th
   * round leads to rounds(n) and takes work(n). Without an expiry some round has to end the wait.
   */
  method Poll<R, E>(timer: Timeout, pollSleepTime: real, ghost pace: real,
                    rounds: nat -> Round<R, E>, work: nat -> real, handleTimeout: Option<E> -> Result<R, E>)
    returns (r: Result<R, E>, count: nat)
    requires timer.Valid() && timer.checks == [] && !timer.loopSleepCalled && timer.start == timer.clock.now
    requires IsPace(pace, pollSleepTime, work)
    requires timer.expiry.None? ==> exists n :: rounds(n).Done?
    modifies timer, timer.clock
    ensures count >= 1
    ensures forall k :: 0 <= k < count - 1 ==> rounds(k).Again?
    ensures match rounds(count - 1)
            case Done(result) => r == result
            case Again(last) => r == handleTimeout(last) && timer.expiry.Some? && timer.clock.now >= timer.expiry.value
    ensures timer.expiry.Some? && count >= 2 ==> (count - 2) as real * pace < timer.expiry.value - timer.start
  {
    ghost var timeout := Span(timer);
    count := 0;
    var lastException := None;
    ghost var limit := LimitExists(timeout, pace, rounds);
    while true
      invariant timer.Valid() && timer.start <= timer.clock.now
      invariant timer.loopSleepCalled == (count > 0) && true !in timer.checks
      invariant forall k :: 0 <= k < count ==> rounds(k).Again?
      invariant count > 0 ==> rounds(count - 1) == Again(lastException)
      invariant count < limit
      invariant Paced(timer.start, timer.clock.now, timer.expiry, count, pace)
      decreases limit - count
    {
      var go := Turn(timer, pollSleepTime, work(count), count, pace);
      if !go {
        r := handleTimeout(lastException);
        return;
      }
      count := count + 1;
      match rounds(count - 1)
      case Done(result) =>
        r := result;
        return;
      case Again(last) =>
        lastException := last;
        PacedHolds(timer.start, timer.clock.now, timer.expiry, timeout, pace, rounds, limit, count);
    }
  }

  /** The rounds of the callbacks: the n-th call behaves as calls(n). */
  method PollCalls<R, E>(timer: Timeout, pollSleepTime: real, ghost pace: real, calls: nat -> Call<R, E>, work: nat -> real,
                         handleResult: R -> Call<(bool, R), E>, handleException: E -> Answer<E>, handleTimeout: Option<E> -> Result<R, E>)
    returns (r: Result<R, E>, count: nat)
    requires timer.Valid() && timer.checks == [] && !timer.loopSleepCalled && timer.start == timer.clock.now
    requires IsPace(pace, pollSleepTime, work)
    requires timer.expiry.None? ==> exists n :: !GoesOn(calls(n), handleResult, handleException)
    modifies timer, timer.clock
    ensures count >= 1
    ensures forall k :: 0 <= k < count - 1 ==> GoesOn(calls(k), handleResult, handleException)
    ensures if GoesOn(calls(count - 1), handleResult, handleException)
            then r == handleTimeout(ExceptionOf(calls(count - 1))) && timer.expiry.Some? && timer.clock.now >= timer.expiry.value
            else EndsWith(calls(count - 1), handleResult, handleException, r)
    ensures timer.expiry.Some? && count >= 2 ==> (count - 2) as real * pace < timer.expiry.value - timer.start
  {
    var rounds := (n: nat) => RoundOf(calls(n), handleResult, handleException);
    forall n: nat ensures rounds(n).Again? <==> GoesOn(calls(n), handleResult, handleException) {
      RoundMeaning(calls(n), handleResult, handleException);
    }
    if timer.expiry.None? {
      ghost var n: nat :| !GoesOn(calls(n), handleResult, handleException);
      assert rounds(n).Done?;
    }
    r, count := Poll(timer, pollSleepTime, pace, rounds, work, handleTimeout);
    forall k | 0 <= k < count - 1 ensures GoesOn(calls(k), handleResult, handleException) {
      assert rounds(k).Again?;
    }
    RoundMeaning(calls(count - 1), handleResult, handleException);
  }

  /** Wait for at most a given time, or without a limit. */
  method WaitFor<R, E>(clock: Clock, timeout: Option<real>, pollSleepTime: real, ghost pace: real,
                       calls: nat -> Call<R, E>, work: nat -> real,
                       handleResult: R -> Call<(bool, R), E>, handleException: E -> Answer<E>,
                       handleTimeout: Option<E> -> Result<R, E>)
    returns (r: Result<R, E>, count: nat)
    requires IsPace(pace, pollSleepTime, work)
    requires timeout.None? ==> exists n :: !GoesOn(calls(n), handleResult, handleException)
    modifies clock
    ensures count >= 1
    ensures forall k :: 0 <= k < count - 1 ==> GoesOn(calls(k), handleResult, handleException)
    ensures if GoesOn(calls(count - 1), handleResult, handleException)
            then r == handleTimeout(ExceptionOf(calls(count - 1))) && timeout.Some? && clock.now >= old(clock.now) + timeout.value
            else EndsWith(calls(count - 1), handleResult, handleException, r)
    ensures timeout.Some? && count >= 2 ==> (count - 2) as real * pace < timeout.value
  {
    var timer := new Timeout.After(clock, timeout);
    r, count := PollCalls(timer, pollSleepTime, pace, calls, work, handleResult, handleException, handleTimeout);
  }

  /** Wait as long as another timer has time left; making the timer of the wait is a check of the other. */
  method WaitForWithin<R, E>(parent: Timeout, pollSleepTime: real, ghost pace: real,
                             calls: nat -> Call<R, E>, work: nat -> real,
                             handleResult: R -> Call<(bool, R), E>, handleException: E -> Answer<E>,
                             handleTimeout: Option<E> -> Result<R, E>)
    returns (r: Result<R, E>, count: nat)
    requires parent.Valid()
    requires IsPace(pace, pollSleepTime, work)
    requires parent.expiry.None? ==> exists n :: !GoesOn(calls(n), handleResult, handleException)
    modifies parent`isExpired, parent`expiredCalled, parent`checks, parent`asked, parent.clock
    ensures parent.Valid() && count >= 1
    ensures parent.expiry.None? ==> parent.checks == old(parent.checks)
    ensures parent.expiry.Some? ==> exists over :: parent.checks == old(parent.checks) + [over]
                                      && (over <==> parent.BornExpired() || true in old(parent.checks) || old(parent.clock.now) >= parent.expiry.value)
    ensures forall k :: 0 <= k < count - 1 ==> GoesOn(calls(k), handleResult, handleException)
    ensures if GoesOn(calls(count - 1), handleResult, handleException)
            then r == handleTimeout(ExceptionOf(calls(count - 1))) && parent.expiry.Some? && (true in parent.checks || parent.clock.now >= parent.expiry.value)
            else EndsWith(calls(count - 1), handleResult, handleException, r)
    ensures parent.expiry.Some? && count >= 2 ==>
              true !in parent.checks && (count - 2) as real * pace < parent.expiry.value - old(parent.clock.now)
  {
    var timer := new Timeout.Nested(parent.clock, parent);
    ghost var over := timer.BornExpired();
    assert parent.expiry.Some? ==> parent.checks[|parent.checks|-1] == over;
    r, count := PollCalls(timer, pollSleepTime, pace, calls, work, handleResult, handleException, handleTimeout);
    if parent.expiry.Some? && count >= 2 {
      assert (count - 2) as real * pace >= 0.0;
    }
  }

  /** The handlers a wait has by default: any value ends it, any exception is swallowed, and at the end the last one is raised. */
  function FinalAtOnce<R, E>(value: R): Call<(bool, R), E> {
    Returned((true, value))
  }

  function SwallowAll<E>(error: E): Answer<E> {
    Swallow
  }

  function RaiseLast<R, E>(last: Option<E>, timeoutError: E): Result<R, E> {
    match last case Some(e) => Err(e) case None => Err(timeoutError)
  }

  /**
   * With the default handlers the wait ends with the value of the first call that returns, or, once
   * the time is over, with the exception of the last call; the error for a timeout is never raised.
   */
  method WaitForDefault<R, E>(clock: Clock, timeout: Option<real>, pollSleepTime: real, ghost pace: real,
                              calls: nat -> Call<R, E>, work: nat -> real, timeoutError: E)
    returns (r: Result<R, E>, count: nat)
    requires IsPace(pace, pollSleepTime, work)
    requires timeout.None? ==> exists n :: calls(n).Returned?
    modifies clock
    ensures count >= 1 && forall k :: 0 <= k < count - 1 ==> calls(k).Raised?
    ensures match calls(count - 1)
            case Returned(v) => r == Ok(v)
            case Raised(e) => r == Err(e) && timeout.Some? && clock.now >= old(clock.now) + timeout.value
    ensures timeout.Some? && count >= 2 ==> (count - 2) as real * pace < timeout.value
  {
    forall n ensures GoesOn(calls(n), FinalAtOnce, SwallowAll) <==> calls(n).Raised? {}
    r, count := WaitFor(clock, timeout, pollSleepTime, pace, calls, work, FinalAtOnce, SwallowAll, last => RaiseLast(last, timeoutError));
  }
}
