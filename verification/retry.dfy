/**
 The retry decorator (`FatSecret_Library.retry` / `deco_retry` / `f_retry`).

 The wrapped call is abstracted as `f`, where `f(i)` is the outcome of the
 i-th call (0-based), and the `except exception_type` test as `caught`.
 Sleeping is recorded as data: a run reports the final outcome, how many
 calls were made and the delays slept, in order.
 */
module Retry {

  /** What one call of the wrapped function does: return a value or raise. */
  datatype Outcome<T, E> = Ok(value: T) | Fail(error: E)

  /**
   How the decorated call ends: with the last call's outcome, or with the
   `ValueError` that `sleep` raises for a negative delay inside the handler.
   */
  datatype Ending<T, E> = Finished(outcome: Outcome<T, E>) | SleepRejected(delay: real)

  /** A finished run: how it ended, calls made, delays slept. */
  datatype Run<T, E> = Run(result: Ending<T, E>, calls: nat, sleeps: seq<real>)

  function Pow(b: real, n: nat): real {
    if n == 0 then 1.0 else b * Pow(b, n - 1)
  }

  /** The j-th delay (0-based) when the first is `d` and each is `b` times the previous. */
  function Delay(d: real, b: real, j: nat): real {
    d * Pow(b, j)
  }

  /** Starting one step later is starting from the delay multiplied once. */
  lemma DelayShift(d: real, b: real, j: nat)
    ensures Delay(d * b, b, j) == Delay(d, b, j + 1)
  {
    assert (d * b) * Pow(b, j) == d * (b * Pow(b, j));
  }

  lemma {:induction false} PowNonNegative(b: real, n: nat)
    requires b >= 0.0
    ensures Pow(b, n) >= 0.0
    decreases n
  {
    if n > 0 {
      PowNonNegative(b, n - 1);
      assert b * Pow(b, n - 1) >= 0.0;
    }
  }

  /** With a non-negative first delay and factor no delay is negative, so `sleep` never rejects one. */
  lemma DelaysNonNegative(d: real, b: real, j: nat)
    requires d >= 0.0 && b >= 0.0
    ensures Delay(d, b, j) >= 0.0
  {
    PowNonNegative(b, j);
    assert d * Pow(b, j) >= 0.0;
  }

  /** `max(n, 1)`: the loop body runs while the budget exceeds 1, then one last call. */
  function Budget(n: int): nat {
    if n < 1 then 1 else n
  }

  /** Call `j` raised an exception the handler catches. */
  predicate CaughtFailure<T, E>(f: nat -> Outcome<T, E>, caught: E -> bool, j: nat) {
    f(j).Fail? && caught(f(j).error)
  }

  /**
   The `while mtries > 1` loop entered with budget `tries`, current delay
   `delay`, and `i` calls already made. `calls` in the result counts from the
   start of the whole run.
   */
  function Attempts<T, E>(f: nat -> Outcome<T, E>, caught: E -> bool, tries: int, delay: real,
                          backoff: real, i: nat): (r: Run<T, E>)
    ensures i < r.calls <= i + Budget(tries)
    decreases tries
  {
    if tries <= 1 then Run(Finished(f(i)), i + 1, [])
    else match f(i)
      case Ok(v) => Run(Finished(Ok(v)), i + 1, [])
      case Fail(e) =>
        if !caught(e) then Run(Finished(Fail(e)), i + 1, [])
        else if delay < 0.0 then Run(SleepRejected(delay), i + 1, [])
        else
          var rest := Attempts(f, caught, tries - 1, delay * backoff, backoff, i + 1);
          Run(rest.result, rest.calls, [delay] + rest.sleeps)
  }

  /**
   What a run of the loop from any state looks like: between 1 and
   `max(tries, 1)` calls, all but the last a caught failure, one non-negative
   sleep per retried call growing by `backoff`, and an ending that is the last
   call's outcome (early only on a value or an uncaught exception) or a
   rejected negative delay after a caught failure.
   */
  lemma {:induction false} AttemptsSpec<T, E>(f: nat -> Outcome<T, E>, caught: E -> bool, tries: int,
                                              delay: real, backoff: real, i: nat)
    ensures var r := Attempts(f, caught, tries, delay, backoff, i);
      && i < r.calls <= i + Budget(tries)
      && (forall j :: i <= j < r.calls - 1 ==> CaughtFailure(f, caught, j))
      && |r.sleeps| == r.calls - i - 1
      && (forall j :: 0 <= j < |r.sleeps| ==> r.sleeps[j] == Delay(delay, backoff, j) >= 0.0)
      && (r.result.Finished? ==> r.result.outcome == f(r.calls - 1))
      && (r.result.Finished? && r.calls < i + Budget(tries) ==>
            r.result.outcome.Ok? || !caught(r.result.outcome.error))
      && (r.result.SleepRejected? ==>
            && r.calls < i + Budget(tries)
            && CaughtFailure(f, caught, r.calls - 1)
            && r.result.delay == Delay(delay, backoff, r.calls - i - 1) < 0.0)
    decreases tries
  {
    if tries > 1 && CaughtFailure(f, caught, i) && delay >= 0.0 {
      AttemptsSpec(f, caught, tries - 1, delay * backoff, backoff, i + 1);
      var rest := Attempts(f, caught, tries - 1, delay * backoff, backoff, i + 1);
      var sleeps := [delay] + rest.sleeps;
      assert Attempts(f, caught, tries, delay, backoff, i) == Run(rest.result, rest.calls, sleeps);
      forall j | 0 <= j < |sleeps|
        ensures sleeps[j] == Delay(delay, backoff, j) >= 0.0
      {
        if j > 0 {
          assert sleeps[j] == rest.sleeps[j - 1];
          DelayShift(delay, backoff, j - 1);
        }
      }
      if rest.result.SleepRejected? {
        DelayShift(delay, backoff, rest.calls - i - 2);
      }
    }
  }

  /** `retry(exception_type, max_attempts, initial_delay, backoff_factor)(f)()`. */
  function Retry<T, E>(f: nat -> Outcome<T, E>, caught: E -> bool, maxAttempts: int,
                       initialDelay: real, backoff: real): (r: Run<T, E>)
    ensures 1 <= r.calls <= Budget(maxAttempts)
    ensures forall j :: 0 <= j < r.calls - 1 ==> CaughtFailure(f, caught, j)
    ensures |r.sleeps| == r.calls - 1
    ensures forall j :: 0 <= j < |r.sleeps| ==> r.sleeps[j] == Delay(initialDelay, backoff, j) >= 0.0
    ensures r.result.Finished? ==> r.result.outcome == f(r.calls - 1)
    ensures r.result.Finished? && r.calls < Budget(maxAttempts) ==>
              r.result.outcome.Ok? || !caught(r.result.outcome.error)
    ensures r.result.SleepRejected? ==>
              && r.calls < Budget(maxAttempts)
              && CaughtFailure(f, caught, r.calls - 1)
              && r.result.delay == Delay(initialDelay, backoff, r.calls - 1) < 0.0
  {
    AttemptsSpec(f, caught, maxAttempts, initialDelay, backoff, 0);
    Attempts(f, caught, maxAttempts, initialDelay, backoff, 0)
  }

  /** One turn of the loop that ends the run: a value, an uncaught exception, or a rejected sleep. */
  lemma AttemptsStops<T, E>(f: nat -> Outcome<T, E>, caught: E -> bool, tries: int, delay: real,
                            backoff: real, i: nat)
    requires tries > 1
    requires !CaughtFailure(f, caught, i) || delay < 0.0
    ensures Attempts(f, caught, tries, delay, backoff, i)
         == Run(if CaughtFailure(f, caught, i) then SleepRejected(delay) else Finished(f(i)), i + 1, [])
  {
  }

  /** One turn of the loop that retries: sleep `delay`, then continue with a smaller budget. */
  lemma AttemptsContinues<T, E>(f: nat -> Outcome<T, E>, caught: E -> bool, tries: int, delay: real,
                                backoff: real, i: nat)
    requires tries > 1
    requires CaughtFailure(f, caught, i) && delay >= 0.0
    ensures var rest := Attempts(f, caught, tries - 1, delay * backoff, backoff, i + 1);
      Attempts(f, caught, tries, delay, backoff, i) == Run(rest.result, rest.calls, [delay] + rest.sleeps)
  {
  }

  /**
   The decorated function as written: a `while` loop over the remaining
   budget, leaving early on a value, an uncaught exception or a rejected
   sleep, and one last unprotected call when the budget is down to one.
   */
  method RetryLoop<T, E>(f: nat -> Outcome<T, E>, caught: E -> bool, maxAttempts: int,
                         initialDelay: real, backoff: real)
    returns (result: Ending<T, E>, calls: nat, sleeps: seq<real>)
    ensures Run(result, calls, sleeps) == Retry(f, caught, maxAttempts, initialDelay, backoff)
  {
    ghost var whole := Retry(f, caught, maxAttempts, initialDelay, backoff);
    var mtries, mdelay := maxAttempts, initialDelay;
    calls, sleeps := 0, [];
    while mtries > 1
      invariant var r := Attempts(f, caught, mtries, mdelay, backoff, calls);
        whole == Run(r.result, r.calls, sleeps + r.sleeps)
      decreases mtries
    {
      var outcome := f(calls);
      if outcome.Ok? || !caught(outcome.error) {
        AttemptsStops(f, caught, mtries, mdelay, backoff, calls);
        result := Finished(outcome);
        calls := calls + 1;
        return;
      }
      if mdelay < 0.0 {
        AttemptsStops(f, caught, mtries, mdelay, backoff, calls);
        result := SleepRejected(mdelay);
        calls := calls + 1;
        return;
      }
      AttemptsContinues(f, caught, mtries, mdelay, backoff, calls);
      ghost var rest := Attempts(f, caught, mtries - 1, mdelay * backoff, backoff, calls + 1);
      assert sleeps + ([mdelay] + rest.sleeps) == (sleeps + [mdelay]) + rest.sleeps;
      calls := calls + 1;
      sleeps := sleeps + [mdelay];
      mtries := mtries - 1;
      mdelay := mdelay * backoff;
    }
    result := Finished(f(calls));
    calls := calls + 1;
  }

  /** A budget of one or less means a single call whose outcome, raised or not, is passed on. */
  lemma SingleAttempt<T, E>(f: nat -> Outcome<T, E>, caught: E -> bool, maxAttempts: int,
                            initialDelay: real, backoff: real)
    requires maxAttempts <= 1
    ensures Retry(f, caught, maxAttempts, initialDelay, backoff) == Run(Finished(f(0)), 1, [])
  {
  }

  /**
   `k` caught failures followed by a value, within the budget, with none of
   the `k` delays negative: the value is returned after exactly `k + 1` calls
   and `k` sleeps.
   */
  lemma SucceedsAfterFailures<T, E>(f: nat -> Outcome<T, E>, caught: E -> bool, maxAttempts: int,
                                    initialDelay: real, backoff: real, k: nat)
    requires k < maxAttempts
    requires forall j :: 0 <= j < k ==> CaughtFailure(f, caught, j)
    requires forall j :: 0 <= j < k ==> Delay(initialDelay, backoff, j) >= 0.0
    requires f(k).Ok?
    ensures var r := Retry(f, caught, maxAttempts, initialDelay, backoff);
      r.result == Finished(f(k)) && r.calls == k + 1 && |r.sleeps| == k
  {
    var r := Retry(f, caught, maxAttempts, initialDelay, backoff);
    var c: nat := r.calls - 1;
    assert !CaughtFailure(f, caught, k);
    assert c < k ==> CaughtFailure(f, caught, c) && Delay(initialDelay, backoff, c) >= 0.0;
  }

  /**
   A call that always raises a caught exception, with no negative delay in
   the budget, is made exactly `max_attempts` times and the last failure
   propagates.
   */
  lemma AlwaysFailing<T, E>(f: nat -> Outcome<T, E>, caught: E -> bool, maxAttempts: int,
                            initialDelay: real, backoff: real)
    requires maxAttempts >= 1
    requires forall j: nat :: CaughtFailure(f, caught, j)
    requires forall j :: 0 <= j < maxAttempts - 1 ==> Delay(initialDelay, backoff, j) >= 0.0
    ensures var r := Retry(f, caught, maxAttempts, initialDelay, backoff);
      r.calls == maxAttempts && r.result == Finished(f(maxAttempts - 1)) && r.result.outcome.Fail?
  {
    var r := Retry(f, caught, maxAttempts, initialDelay, backoff);
    var c: nat := r.calls - 1;
    assert CaughtFailure(f, caught, c);
    assert c < maxAttempts - 1 ==> Delay(initialDelay, backoff, c) >= 0.0;
  }

  /**
   An exception `caught` does not match ends the run at the call that raised
   it, with no sleep after it.
   */
  lemma UncaughtPropagates<T, E>(f: nat -> Outcome<T, E>, caught: E -> bool, maxAttempts: int,
                                 initialDelay: real, backoff: real, k: nat)
    requires k < Budget(maxAttempts)
    requires forall j :: 0 <= j < k ==> CaughtFailure(f, caught, j)
    requires forall j :: 0 <= j < k ==> Delay(initialDelay, backoff, j) >= 0.0
    requires f(k).Fail? && !caught(f(k).error)
    ensures var r := Retry(f, caught, maxAttempts, initialDelay, backoff);
      r.result == Finished(f(k)) && r.calls == k + 1 && |r.sleeps| == k
  {
    var r := Retry(f, caught, maxAttempts, initialDelay, backoff);
    var c: nat := r.calls - 1;
    assert !CaughtFailure(f, caught, k);
    assert c < k ==> CaughtFailure(f, caught, c) && Delay(initialDelay, backoff, c) >= 0.0;
  }

  /**
   A caught failure whose delay is negative ends the run: `sleep` raises
   inside the handler after `k + 1` calls, and the wrapped call is not made again.
   */
  lemma NegativeDelayRaises<T, E>(f: nat -> Outcome<T, E>, caught: E -> bool, maxAttempts: int,
                                  initialDelay: real, backoff: real, k: nat)
    requires k + 1 < maxAttempts
    requires forall j :: 0 <= j <= k ==> CaughtFailure(f, caught, j)
    requires forall j :: 0 <= j < k ==> Delay(initialDelay, backoff, j) >= 0.0
    requires Delay(initialDelay, backoff, k) < 0.0
    ensures var r := Retry(f, caught, maxAttempts, initialDelay, backoff);
      r.result == SleepRejected(Delay(initialDelay, backoff, k)) && r.calls == k + 1 && |r.sleeps| == k
  {
    var r := Retry(f, caught, maxAttempts, initialDelay, backoff);
    var c: nat := r.calls - 1;
    assert c < k ==> CaughtFailure(f, caught, c) && Delay(initialDelay, backoff, c) >= 0.0;
    assert c <= k ==> CaughtFailure(f, caught, c);
  }

  /**
   The decorator's defaults (`max_attempts=10`, `initial_delay=5`,
   `backoff_factor=1.5`): at most ten calls, never a rejected sleep, and the
   delays start 5, 7.5, 11.25.
   */
  lemma DefaultRun<T, E>(f: nat -> Outcome<T, E>, caught: E -> bool)
    ensures var r := Retry(f, caught, 10, 5.0, 1.5);
      && 1 <= r.calls <= 10
      && r.result.Finished?
      && r.result.outcome == f(r.calls - 1)
      && (|r.sleeps| > 0 ==> r.sleeps[0] == 5.0)
      && (|r.sleeps| > 1 ==> r.sleeps[1] == 7.5)
      && (|r.sleeps| > 2 ==> r.sleeps[2] == 11.25)
  {
    var r := Retry(f, caught, 10, 5.0, 1.5);
    if r.result.SleepRejected? {
      DelaysNonNegative(5.0, 1.5, r.calls - 1);
    }
    assert Pow(1.5, 2) == 2.25;
  }

  function Sum(s: seq<real>): real {
    if |s| == 0 then 0.0 else s[0] + Sum(s[1..])
  }

  /** Closed form of the total time slept: `(b - 1) * total == d * (b^n - 1)` for `n` sleeps. */
  lemma {:induction false} GeometricTotal(s: seq<real>, d: real, b: real)
    requires forall j :: 0 <= j < |s| ==> s[j] == Delay(d, b, j)
    ensures (b - 1.0) * Sum(s) == d * (Pow(b, |s|) - 1.0)
    decreases |s|
  {
    if |s| > 0 {
      var t := s[1..];
      forall j | 0 <= j < |t|
        ensures t[j] == Delay(d * b, b, j)
      {
        DelayShift(d, b, j);
      }
      GeometricTotal(t, d * b, b);
      var p := Pow(b, |t|);
      var total := Sum(t);
      assert s[0] == d;
      assert Sum(s) == d + total;
      assert Pow(b, |s|) == b * p;
      calc {
        (b - 1.0) * Sum(s);
        (b - 1.0) * d + (b - 1.0) * total;
        (b - 1.0) * d + (d * b) * (p - 1.0);
        d * (b * p - 1.0);
      }
    }
  }

  lemma {:induction false} PowOne(n: nat)
    ensures Pow(1.0, n) == 1.0
    decreases n
  {
    if n > 0 {
      PowOne(n - 1);
    }
  }

  /** With a factor of 1 every sleep is the first delay, so the total is their count times it. */
  lemma {:induction false} ConstantTotal(s: seq<real>, d: real)
    requires forall j :: 0 <= j < |s| ==> s[j] == Delay(d, 1.0, j)
    ensures Sum(s) == |s| as real * d
    decreases |s|
  {
    if |s| > 0 {
      PowOne(0);
      forall j | 0 <= j < |s| - 1
        ensures s[1..][j] == Delay(d, 1.0, j)
      {
        PowOne(j);
        PowOne(j + 1);
      }
      ConstantTotal(s[1..], d);
    }
  }

  /** Total time a run sleeps before handing back its outcome. */
  lemma TotalDelay<T, E>(f: nat -> Outcome<T, E>, caught: E -> bool, maxAttempts: int,
                         initialDelay: real, backoff: real)
    ensures var r := Retry(f, caught, maxAttempts, initialDelay, backoff);
      (backoff - 1.0) * Sum(r.sleeps) == initialDelay * (Pow(backoff, r.calls - 1) - 1.0)
    ensures var r := Retry(f, caught, maxAttempts, initialDelay, backoff);
      backoff == 1.0 ==> Sum(r.sleeps) == (r.calls - 1) as real * initialDelay
  {
    var r := Retry(f, caught, maxAttempts, initialDelay, backoff);
    GeometricTotal(r.sleeps, initialDelay, backoff);
    if backoff == 1.0 {
      ConstantTotal(r.sleeps, initialDelay);
    }
  }
}
