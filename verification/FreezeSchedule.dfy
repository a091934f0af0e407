/** The change-freeze controller's view of its one fixed interval. */
module FreezeSchedule {
  import opened Clock
  import opened Policies
  import opened TimedRuns
  import opened Wrappers

  datatype FreezeEvaluation = FreezeEvaluation(
    active: bool,
    timeRemaining: Option<Duration>,
    requeueAfter: Duration)

  // The interval is half-open.
  predicate InFreeze(cf: ChangeFreeze, t: Time) {
    cf.startTime <= t < cf.endTime
  }

  function Evaluate(now: Time, cf: ChangeFreeze): FreezeEvaluation {
    if InFreeze(cf, now) then
      var remaining := Sub(cf.endTime, now);
      FreezeEvaluation(true, Some(remaining), AddWrapping(remaining, SECOND))
    else if now < cf.startTime then
      FreezeEvaluation(false, None, AddWrapping(Sub(cf.startTime, now), SECOND))
    else
      FreezeEvaluation(false, None, TEN_MINUTES)
  }

  // One evaluation stays right until a second before the requeue it asks for.
  lemma StatusStaysRight(now: Time, cf: ChangeFreeze, t: Time)
    requires now <= t < now + Evaluate(now, cf).requeueAfter - SECOND
    ensures Evaluate(now, cf).active <==> InFreeze(cf, t)
  {}

  // The delay is positive exactly when the next boundary is at most the longest duration less a
  // second away; further out the 64-bit sum wraps to a negative delay, which asks for no requeue at all.
  lemma RequeuePositiveIff(now: Time, cf: ChangeFreeze)
    ensures var boundary := if InFreeze(cf, now) then cf.endTime - now
                            else if now < cf.startTime then cf.startTime - now
                            else 0;
            && (Evaluate(now, cf).requeueAfter > 0 <==> boundary <= MAX_DURATION - SECOND)
            && (boundary > MAX_DURATION - SECOND ==> Evaluate(now, cf).requeueAfter < 0)
            && (0 < boundary <= MAX_DURATION - SECOND ==> Evaluate(now, cf).requeueAfter == boundary + SECOND)
            && (boundary == 0 ==> Evaluate(now, cf).requeueAfter == 600_000_000_000)
  {}

  // The remaining time is shown during the freeze only, at most the longest duration.
  lemma TimeRemainingIs(now: Time, cf: ChangeFreeze)
    ensures Evaluate(now, cf).timeRemaining.Some? <==> cf.startTime <= now < cf.endTime
    ensures Evaluate(now, cf).timeRemaining.Some? ==>
              var left := Evaluate(now, cf).timeRemaining.value;
              0 < left <= cf.endTime - now && (left == cf.endTime - now || left == 9_223_372_036_854_775_807)
  {}

  // Midnight UTC of this day, counted from 1 January of year 1.
  function Midnight(day: int): Time {
    day * 86_400 * SECOND
  }

  // 1 January 2026 and 1 January 9999.
  const NEW_YEAR_2026: Time := Midnight(739_616)
  const NEW_YEAR_9999: Time := Midnight(3_651_694)

  // A freeze announced for the year 9999: in 2026 the controller asks for a requeue 292 years ago, so
  // that it never comes back for the start.
  lemma FarFreezeIsForgotten(cf: ChangeFreeze)
    requires cf.startTime == NEW_YEAR_9999 < cf.endTime
    ensures !Evaluate(NEW_YEAR_2026, cf).active && InFreeze(cf, NEW_YEAR_9999)
    ensures Evaluate(NEW_YEAR_2026, cf).requeueAfter == -9_223_372_035_854_775_809
  {}

  ghost predicate IsRunOf(cf: ChangeFreeze, run: seq<Tick>) {
    && Timely(run)
    && forall i :: 0 <= i < |run| ==>
         && run[i].verdict == Evaluate(run[i].at, cf).active
         && run[i].requeueAfter == Evaluate(run[i].at, cf).requeueAfter
  }

  // Over every timed run the status says whether the freeze is on, or a reconcile is
  // less than a second away.
  lemma RunAccuracy(cf: ChangeFreeze, run: seq<Tick>, t: Time)
    requires IsRunOf(cf, run) && run[0].at <= t < run[|run| - 1].at
    ensures (FlagAt(run, t) <==> InFreeze(cf, t)) || LastSecond(run, t)
  {
    var truth := (u: Time) => InFreeze(cf, u);
    forall i | 0 <= i < |run| - 1
      ensures StaysRight(run[i], truth)
    {
      hide Evaluate, InFreeze;
      forall u | run[i].at <= u < run[i].at + run[i].requeueAfter - SECOND
        ensures run[i].verdict <==> InFreeze(cf, u)
      {
        StatusStaysRight(run[i].at, cf, u);
      }
    }
    FlagIsAccurate(run, truth, t);
  }
}
