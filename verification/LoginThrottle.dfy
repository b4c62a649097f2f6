/** The login throttle: failures counted in windows, a lockout once the limit is reached. */
module LoginThrottle {
  import opened Wrappers

  /** One row of the throttle table; times in seconds. */
  datatype Throttle = Throttle(failures: nat, windowStart: int, lockedUntil: Option<int>)

  /** `login_failure_limit`, `login_failure_window_seconds`, `login_lockout_seconds`. */
  datatype Limits = Limits(limit: nat, window: nat, lockout: nat)

  ghost predicate ValidLimits(l: Limits) {
    l.limit >= 1 && l.window >= 1 && l.lockout >= 1
  }

  /** A locked key is turned away before its password is looked at. */
  predicate TurnedAway(t: Option<Throttle>, now: int) {
    t.Some? && t.value.lockedUntil.Some? && t.value.lockedUntil.value > now
  }

  /** `_record_failure` */
  function RecordFailure(l: Limits, t: Option<Throttle>, now: int): Throttle {
    var current :=
      if t.None? || now - t.value.windowStart >= l.window then Throttle(0, now, None) else t.value;
    var failures := current.failures + 1;
    Throttle(failures, current.windowStart, if failures >= l.limit then Some(now + l.lockout) else current.lockedUntil)
  }

  /** What a failed attempt leaves: a turned-away attempt leaves the row as it was. */
  function AfterFailure(l: Limits, t: Option<Throttle>, now: int): Option<Throttle> {
    if TurnedAway(t, now) then t else Some(RecordFailure(l, t, now))
  }

  // ----- runs of failures -----------------------------------------------------------

  /** The row after failed attempts at the given times, none of them successful. */
  function Row(l: Limits, times: seq<int>): Option<Throttle> {
    if times == [] then None
    else
      var n := |times| - 1;
      AfterFailure(l, Row(l, times[..n]), times[n])
  }

  /** How many of the attempts had their password evaluated. */
  function Evaluated(l: Limits, times: seq<int>): nat {
    if times == [] then 0
    else
      var n := |times| - 1;
      Evaluated(l, times[..n]) + if TurnedAway(Row(l, times[..n]), times[n]) then 0 else 1
  }

  // Products and quotients get names, so that proofs can use their laws alone.

  function Times(a: int, b: int): int {
    a * b
  }

  lemma TimesStep(a: int, b: int)
    ensures Times(a + 1, b) == Times(a, b) + b && Times(0, b) == 0
  {
  }

  lemma TimesMonotone(a: int, a': int, b: int)
    requires a <= a' && b >= 0
    ensures Times(a, b) <= Times(a', b)
  {
    assert (a' - a) * b >= 0;
    assert a' * b == a * b + (a' - a) * b;
  }

  /** How many whole periods fit into `d`. */
  function Periods(d: int, period: int): int
    requires period >= 1
  {
    d / period
  }

  lemma PeriodsMean(d: int, period: int)
    requires period >= 1 && d >= 0
    ensures 0 <= Periods(d, period)
    ensures Times(Periods(d, period), period) <= d < Times(Periods(d, period) + 1, period)
  {
    var q, r := d / period, d % period;
    assert d == period * q + r;
    assert (q + 1) * period == q * period + period;
  }

  lemma PeriodsAtLeast(n: int, d: int, period: int)
    requires period >= 1 && d >= 0 && Times(n, period) <= d
    ensures n <= Periods(d, period)
  {
    PeriodsMean(d, period);
    if n > Periods(d, period) {
      TimesMonotone(Periods(d, period) + 1, n, period);
    }
  }

  lemma PeriodsMonotone(a: int, b: int, period: int)
    requires period >= 1 && 0 <= a <= b
    ensures Periods(a, period) <= Periods(b, period)
    ensures a + period <= b ==> Periods(a, period) + 1 <= Periods(b, period)
  {
    hide Times, Periods;
    PeriodsMean(a, period);
    PeriodsAtLeast(Periods(a, period), b, period);
    if a + period <= b {
      TimesStep(Periods(a, period), period);
      PeriodsAtLeast(Periods(a, period) + 1, b, period);
    }
  }

  predicate NonDecreasing(times: seq<int>) {
    forall i, j :: 0 <= i < j < |times| ==> times[i] <= times[j]
  }

  /** `limit + ceil(window / lockout) - 1`, the most failures one window evaluates. */
  function PerWindow(l: Limits): nat
    requires l.window >= 1 && l.lockout >= 1
  {
    PeriodsMean(l.window - 1, l.lockout);
    l.limit + Periods(l.window - 1, l.lockout)
  }

  /** Beyond the limit, each failure had to wait out a lockout inside the window. */
  ghost predicate RowOk(l: Limits, t: Throttle, now: int) {
    && 1 <= t.failures
    && t.windowStart <= now
    && (t.failures < l.limit ==> t.lockedUntil.None?)
    && (t.failures >= l.limit ==>
          && t.lockedUntil.Some?
          && t.lockedUntil.value >= t.windowStart + Times(t.failures - l.limit + 1, l.lockout)
          && t.lockedUntil.value - l.lockout < t.windowStart + l.window)
  }

  lemma CountIsBounded(l: Limits, t: Throttle, now: int)
    requires ValidLimits(l) && RowOk(l, t, now)
    ensures t.failures <= PerWindow(l)
  {
    hide Times, Periods;
    PeriodsMean(l.window - 1, l.lockout);
    if t.failures >= l.limit {
      TimesStep(t.failures - l.limit, l.lockout);
      PeriodsAtLeast(t.failures - l.limit, l.window - 1, l.lockout);
    }
  }

  lemma FailureKeepsRowOk(l: Limits, t: Option<Throttle>, before: int, now: int)
    requires ValidLimits(l) && before <= now && (t.Some? ==> RowOk(l, t.value, before))
    requires !TurnedAway(t, now)
    ensures RowOk(l, RecordFailure(l, t, now), now)
  {
    hide Times;
    var t' := RecordFailure(l, t, now);
    TimesStep(0, l.lockout);
    TimesStep(t'.failures - l.limit, l.lockout);
  }

  lemma {:induction false} RowStaysOk(l: Limits, times: seq<int>)
    requires ValidLimits(l) && NonDecreasing(times) && times != []
    ensures Row(l, times).Some? && RowOk(l, Row(l, times).value, times[|times| - 1])
  {
    var n := |times| - 1;
    var t := Row(l, times[..n]);
    if n > 0 {
      RowStaysOk(l, times[..n]);
    }
    if !TurnedAway(t, times[n]) {
      FailureKeepsRowOk(l, t, if n > 0 then times[n - 1] else times[n], times[n]);
    }
  }

  /** One window evaluates at most `limit + ceil(window / lockout) - 1` failures. */
  lemma WindowBound(l: Limits, times: seq<int>)
    requires ValidLimits(l) && NonDecreasing(times) && times != []
    ensures Row(l, times).Some? && Row(l, times).value.failures <= PerWindow(l)
  {
    RowStaysOk(l, times);
    CountIsBounded(l, Row(l, times).value, times[|times| - 1]);
  }

  /** Closed windows are paid in full, the open one by its own count. */
  lemma {:induction false} EvaluatedIsPaid(l: Limits, times: seq<int>)
    requires ValidLimits(l) && NonDecreasing(times) && times != []
    ensures Row(l, times).Some? && Row(l, times).value.windowStart >= times[0]
    ensures Evaluated(l, times)
            <= Times(Periods(Row(l, times).value.windowStart - times[0], l.window), PerWindow(l))
               + Row(l, times).value.failures
  {
    hide Times, Periods, PerWindow;
    var n := |times| - 1;
    var start, now, b := times[0], times[n], PerWindow(l);
    if n == 0 {
      PeriodsMean(0, l.window);
      TimesMonotone(0, Periods(0, l.window), b);
      TimesStep(0, b);
      assert times[..0] == [];
    } else {
      var before := times[..n];
      EvaluatedIsPaid(l, before);
      WindowBound(l, before);
      var t := Row(l, before).value;
      if !TurnedAway(Some(t), now) && now - t.windowStart >= l.window {
        var q := Periods(t.windowStart - start, l.window);
        PeriodsMonotone(t.windowStart - start, now - start, l.window);
        TimesMonotone(q + 1, Periods(now - start, l.window), b);
        TimesStep(q, b);
      }
    }
  }

  /** Between successful logins, a run of failures that lasts `T` has at most
      `floor(T / window) + 1` times the window bound evaluated, for every sequence of
      attempts and every clock that does not run backwards. */
  lemma RateBound(l: Limits, times: seq<int>)
    requires ValidLimits(l) && NonDecreasing(times) && times != []
    ensures Evaluated(l, times) <= ((times[|times| - 1] - times[0]) / l.window + 1) * PerWindow(l)
  {
    var lasted, b := times[|times| - 1] - times[0], PerWindow(l);
    assert Times(Periods(lasted, l.window) + 1, b) == (lasted / l.window + 1) * b;
    hide Times, Periods, PerWindow, Evaluated, Row;
    EvaluatedIsPaid(l, times);
    WindowBound(l, times);
    RowStaysOk(l, times);
    var elapsed := Row(l, times).value.windowStart - times[0];
    PeriodsMonotone(elapsed, lasted, l.window);
    TimesMonotone(Periods(elapsed, l.window), Periods(lasted, l.window), b);
    TimesStep(Periods(lasted, l.window), b);
  }

  // ----- the window bound is reached ------------------------------------------------

  /** The limit's worth of failures at once, then one as each lockout ends. */
  function Impatient(l: Limits, k: nat): int {
    if k < l.limit then 0 else Times(k - l.limit + 1, l.lockout)
  }

  function ImpatientRun(l: Limits, n: nat): seq<int> {
    if n == 0 then [] else ImpatientRun(l, n - 1) + [Impatient(l, n - 1)]
  }

  lemma {:induction false} ImpatientTimes(l: Limits, n: nat)
    requires ValidLimits(l)
    ensures |ImpatientRun(l, n)| == n && NonDecreasing(ImpatientRun(l, n))
    ensures n > 0 ==> forall i :: 0 <= i < n ==> ImpatientRun(l, n)[i] <= Impatient(l, n - 1)
  {
    hide Times;
    if n > 1 {
      ImpatientTimes(l, n - 1);
      TimesStep(n - 1 - l.limit, l.lockout);
      TimesStep(0, l.lockout);
    }
  }

  function ImpatientThrottle(l: Limits, n: nat): Option<Throttle> {
    if n == 0 then None
    else Some(Throttle(n, 0, if n < l.limit then None else Some(Times(n - l.limit + 1, l.lockout))))
  }

  lemma ImpatientStep(l: Limits, n: nat)
    requires ValidLimits(l) && n < PerWindow(l)
    ensures !TurnedAway(ImpatientThrottle(l, n), Impatient(l, n))
    ensures AfterFailure(l, ImpatientThrottle(l, n), Impatient(l, n)) == ImpatientThrottle(l, n + 1)
  {
    hide Times, Periods;
    PeriodsMean(l.window - 1, l.lockout);
    TimesMonotone(n - l.limit + 1, Periods(l.window - 1, l.lockout), l.lockout);
    TimesStep(n - l.limit + 1, l.lockout);
    TimesStep(0, l.lockout);
  }

  lemma RunSnoc(l: Limits, times: seq<int>, now: int)
    ensures Row(l, times + [now]) == AfterFailure(l, Row(l, times), now)
    ensures Evaluated(l, times + [now]) == Evaluated(l, times) + if TurnedAway(Row(l, times), now) then 0 else 1
  {
    assert (times + [now])[..|times|] == times;
  }

  lemma {:induction false} ImpatientRow(l: Limits, n: nat)
    requires ValidLimits(l) && n <= PerWindow(l)
    ensures Evaluated(l, ImpatientRun(l, n)) == n && Row(l, ImpatientRun(l, n)) == ImpatientThrottle(l, n)
  {
    hide AfterFailure, TurnedAway, PerWindow, Impatient, Times, Periods;
    if n == 0 {
      assert ImpatientRun(l, n) == [];
    } else {
      hide Row, Evaluated, ImpatientThrottle;
      ImpatientRow(l, n - 1);
      ImpatientStep(l, n - 1);
      RunSnoc(l, ImpatientRun(l, n - 1), Impatient(l, n - 1));
      assert ImpatientRun(l, n) == ImpatientRun(l, n - 1) + [Impatient(l, n - 1)];
    }
  }

  /** No smaller bound holds: some non-decreasing run reaches it within one window. */
  lemma WindowBoundIsReached(l: Limits)
    requires ValidLimits(l)
    ensures exists times :: NonDecreasing(times) && times != [] && Evaluated(l, times) == PerWindow(l)
              && Row(l, times).Some? && Row(l, times).value.failures == PerWindow(l)
  {
    hide Times, Periods;
    PeriodsMean(l.window - 1, l.lockout);
    ImpatientTimes(l, PerWindow(l));
    ImpatientRow(l, PerWindow(l));
  }

  // ----- when a key is locked -------------------------------------------------------

  /** Within one window the key is locked by the failure that reaches the limit and by no
      earlier one, for as long as the lockout lasts. */
  lemma {:induction false} LocksAtTheLimit(l: Limits, times: seq<int>, now: int)
    requires ValidLimits(l) && NonDecreasing(times) && 0 < |times| <= l.limit
    requires forall i :: 0 <= i < |times| ==> times[i] < times[0] + l.window
    ensures Row(l, times).Some? && Row(l, times).value.windowStart == times[0]
    ensures Row(l, times).value.failures == |times|
    ensures TurnedAway(Row(l, times), now) <==> |times| == l.limit && now < times[|times| - 1] + l.lockout
    ensures Evaluated(l, times) == |times|
  {
    var n := |times| - 1;
    if n > 0 {
      LocksAtTheLimit(l, times[..n], times[n]);
      LocksAtTheLimit(l, times[..n], now);
    } else {
      assert times[..0] == [];
    }
    RowStaysOk(l, times);
  }

  /** One more failure, after any run of them. An attempt on a locked key is turned away and
      changes nothing. Otherwise, in the window of the run it counts as one more, and from the
      limit on each locks the key anew; after the window it is the first of a new one. */
  lemma AnotherFailure(l: Limits, times: seq<int>, now: int, later: int)
    requires ValidLimits(l) && NonDecreasing(times + [now]) && times != []
    ensures Row(l, times).Some?
    ensures var row, after := Row(l, times), Row(l, times + [now]);
      if TurnedAway(row, now) then after == row
      else if now < row.value.windowStart + l.window then
        && after.Some? && after.value.failures == row.value.failures + 1
        && after.value.windowStart == row.value.windowStart
        && (TurnedAway(after, later) <==> after.value.failures >= l.limit && later < now + l.lockout)
      else after == Row(l, [now])
  {
    assert NonDecreasing(times) by {
      forall i, j | 0 <= i < j < |times|
        ensures times[i] <= times[j]
      {
        assert (times + [now])[i] == times[i] && (times + [now])[j] == times[j];
      }
    }
    RowStaysOk(l, times);
    RunSnoc(l, times, now);
    RunSnoc(l, [], now);
    assert [] + [now] == [now];
  }
}
