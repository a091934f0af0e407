/** Where the bounded look-back stops being exact: cap arithmetic and durations over 14 days. */
module CronLimits {
  import opened Clock
  import opened CronWindows
  import opened Schedules

  /* Cap arithmetic */

  // Any two starts are at least `gap` minutes apart.
  ghost predicate Spaced(s: Schedule, gap: nat) {
    forall m, n :: s.fires(m) && s.fires(n) && m < n ==> m + gap <= n
  }

  lemma {:induction false} SpacedCount(s: Schedule, lo: int, hi: int)
    requires Spaced(s, 3) && lo <= hi
    ensures 3 * CountMinutes(s.fires, lo, hi) <= hi - lo + 2
    decreases hi - lo
  {
    if lo < hi {
      SpacedCount(s, lo, hi - 1);
      if s.fires(hi) && hi - 3 >= lo {
        SpacedCount(s, lo, hi - 3);
        CountMinutesSplit(s.fires, lo, hi - 3, hi - 1);
        CountMinutesZero(s.fires, hi - 3, hi - 1);
      } else if s.fires(hi) {
        CountMinutesZero(s.fires, lo, hi - 1);
      }
    }
  }

  // Starts at least three minutes apart never come near the cap in 14 days.
  lemma SpacedNeverCapped(s: Schedule, now: Time)
    requires Spaced(s, 3)
    ensures Recent(s, now) <= 6720
  {
    SpacedCount(s, MinuteOf(now - LOOKBACK), MinuteOf(now));
  }

  // A start every other minute.
  ghost predicate EveryTwoMinutes(s: Schedule) {
    forall m :: s.fires(m) <==> m % 2 == 0
  }

  lemma {:induction false} EvenCount(s: Schedule, lo: int, hi: int)
    requires EveryTwoMinutes(s) && lo <= hi
    ensures CountMinutes(s.fires, lo, hi) == hi / 2 - lo / 2
    decreases hi - lo
  {
    if lo < hi {
      EvenCount(s, lo, hi - 1);
    }
  }

  lemma EvenCountBetween(s: Schedule, a: Time, b: Time)
    requires EveryTwoMinutes(s) && a <= b
    ensures Count(s, a, b) == MinuteOf(b) / 2 - MinuteOf(a) / 2
  {
    EvenCount(s, MinuteOf(a), MinuteOf(b));
  }

  // A start every two minutes does hit the cap: of 10080 starts the look-back sees 10001
  // and settles 79 starts, at least 158 minutes, behind.
  lemma EveryTwoMinutesIsStale(s: Schedule, now: Time)
    requires EveryTwoMinutes(s) && Valid(s) && now >= LOOKBACK
    ensures Recent(s, now) == 10080
    ensures Count(s, PrevStart(s, now), now) == 79
    ensures MinuteOf(now) - 159 <= MinuteOf(PrevStart(s, now)) <= MinuteOf(now) - 158
    ensures IsStart(s, PrevStart(s, now))
  {
    hide Count;
    hide PrevStart;
    hide Next;
    hide Valid;
    var from, p := now - LOOKBACK, PrevStart(s, now);
    EvenCountBetween(s, from, now);
    PrevStartExact(s, now);
    CountSplit(s, from, p, now);
    assert Count(s, p, now) == 79;
    EvenCountBetween(s, p, now);
  }

  // So every duration of up to 158 minutes reads inactive, although a window of two minutes
  // or more never closes, and every duration of at least 160 minutes reads active.
  lemma EveryTwoMinutesMisread(now: Time, zone: Timezone, expr: CronExpr, d: Duration)
    requires Evaluates(zone, expr, d) && now >= LOOKBACK && Valid(expr.inZone(zone))
    requires EveryTwoMinutes(expr.inZone(zone))
    ensures d <= 158 * 60 * SECOND ==> !EvalWindow(now, zone, expr, d).value.active
    ensures d >= 160 * 60 * SECOND ==> EvalWindow(now, zone, expr, d).value.active
    ensures d >= 2 * 60 * SECOND ==> Covered(expr.inZone(zone), d, now)
  {
    hide Count;
    hide PrevStart;
    hide Next;
    hide Valid;
    var s := expr.inZone(zone);
    EveryTwoMinutesIsStale(s, now);
    LatestEvenStart(s, now);
  }

  lemma LatestEvenStart(s: Schedule, now: Time)
    requires EveryTwoMinutes(s)
    ensures exists x :: IsStart(s, x) && x <= now < x + 2 * 60 * SECOND
  {
    var x := InstantOf(MinuteOf(now) / 2 * 2);
    assert MinuteOf(x) == MinuteOf(now) / 2 * 2;
    assert IsStart(s, x);
  }

  /* Durations over 14 days */

  // Such a window reads active exactly when it has started at all in the last 14 days; whatever
  // older start still covers now is missed.
  lemma LongWindowActiveIff(now: Time, zone: Timezone, expr: CronExpr, d: Duration)
    requires Evaluates(zone, expr, d) && now >= LOOKBACK && d > LOOKBACK && Valid(expr.inZone(zone))
    requires GoesOn(expr.inZone(zone), now) || Recent(expr.inZone(zone), now) > MAX_STEPS
    ensures EvalWindow(now, zone, expr, d).value.active <==>
            exists x :: IsStart(expr.inZone(zone), x) && now - LOOKBACK < x <= now
  {
    hide Count;
    hide PrevStart;
    hide Next;
    hide MinuteOf;
    hide Valid;
    var s := expr.inZone(zone);
    PrevStartExact(s, now);
    CountZero(s, now - LOOKBACK, now);
  }
}
