/** Evaluation of one recurring window: is `now` inside it, and when does it open next? */
module CronWindows {
  import opened Clock
  import opened Schedules
  import opened Wrappers

  // Timezone names as time.LoadLocation sees them: the empty name is UTC, a name may be unknown.
  datatype Timezone = Utc | Zone(name: string) | UnknownZone(name: string)

  // The parser's verdict on the schedule text; a well-formed one yields a schedule in each timezone.
  datatype CronExpr = Malformed(text: string) | WellFormed(text: string, inZone: Timezone -> Schedule)

  datatype EvalError = InvalidTimezone | NonPositiveDuration | InvalidSchedule

  datatype EvaluatedWindow = EvaluatedWindow(
    active: bool,
    activeStart: Option<Time>,
    activeEnd: Option<Time>,
    nextStart: Option<Time>,
    nextEnd: Option<Time>)

  const MAX_STEPS: nat := 10000

  // The start at which a walk from `cur` stops: after `budget` more steps, or when the next
  // step would pass `now`. A failed search restarts the walk at the zero time.
  function Walk(s: Schedule, cur: Time, now: Time, budget: nat): Time
    decreases budget
  {
    if budget == 0 then cur
    else
      var n := Next(s, cur);
      if n > now then cur else Walk(s, n, now, budget - 1)
  }

  // The start the look-back settles on, or the zero time.
  function PrevStart(s: Schedule, now: Time): Time {
    var first := Next(s, now - LOOKBACK);
    if first > now then ZERO_TIME else Walk(s, first, now, MAX_STEPS)
  }

  function Outcome(s: Schedule, now: Time, d: Duration): EvaluatedWindow {
    var prev, next := PrevStart(s, now), Next(s, now);
    if prev != ZERO_TIME && prev <= now < prev + d
    then EvaluatedWindow(true, Some(prev), Some(prev + d), Some(next), Some(next + d))
    else EvaluatedWindow(false, None, None, Some(next), Some(next + d))
  }

  function EvalWindow(now: Time, zone: Timezone, expr: CronExpr, d: Duration): Result<EvaluatedWindow, EvalError> {
    if zone.UnknownZone? then Err(InvalidTimezone)
    else if d <= 0 then Err(NonPositiveDuration)
    else if expr.Malformed? then Err(InvalidSchedule)
    else Ok(Outcome(expr.inZone(zone), now, d))
  }

  // Zone, duration and text are such that the evaluation succeeds.
  predicate Evaluates(zone: Timezone, expr: CronExpr, d: Duration) {
    !zone.UnknownZone? && d > 0 && expr.WellFormed?
  }

  // What a window means: some start s has s <= t < s + d.
  ghost predicate Covered(s: Schedule, d: Duration, t: Time) {
    exists x :: IsStart(s, x) && x <= t < x + d
  }

  // The look-back walk as the program runs it.
  method LookBack(s: Schedule, now: Time) returns (prev: Time, iter: nat)
    ensures prev == PrevStart(s, now)
    ensures iter <= MAX_STEPS + 1
    ensures iter == 0 <==> Next(s, now - LOOKBACK) > now
  {
    prev, iter := ZERO_TIME, 0;
    var t := Next(s, now - LOOKBACK);
    while t <= now
      invariant 0 <= iter <= MAX_STEPS
      invariant PrevStart(s, now) == if t > now then prev else Walk(s, t, now, MAX_STEPS - iter)
      invariant iter == 0 ==> t == Next(s, now - LOOKBACK)
      invariant iter > 0 ==> Next(s, now - LOOKBACK) <= now
      decreases MAX_STEPS - iter
    {
      prev := t;
      iter := iter + 1;
      if iter > MAX_STEPS {
        break;
      }
      t := Next(s, t);
    }
  }

  method EvalCronWindow(now: Time, zone: Timezone, expr: CronExpr, d: Duration)
    returns (r: Result<EvaluatedWindow, EvalError>)
    ensures r == EvalWindow(now, zone, expr, d)
    ensures r.Ok? ==> var next := Next(expr.inZone(zone), now);
                      r.value.nextStart == Some(next) && r.value.nextEnd == Some(next + d)
    ensures r.Ok? && r.value.active ==> Covered(expr.inZone(zone), d, now)
  {
    hide PrevStart;
    hide Next;
    hide MinuteOf;
    if zone.UnknownZone? {
      return Err(InvalidTimezone);
    }
    if d <= 0 {
      return Err(NonPositiveDuration);
    }
    if expr.Malformed? {
      return Err(InvalidSchedule);
    }
    var s := expr.inZone(zone);
    var prev, _ := LookBack(s, now);
    var next := Next(s, now);
    var out := EvaluatedWindow(false, None, None, None, None);
    if prev != ZERO_TIME {
      var end := prev + d;
      if !(now < prev) && now < end {
        out := out.(active := true, activeStart := Some(prev), activeEnd := Some(end));
      }
    }
    out := out.(nextStart := Some(next), nextEnd := Some(next + d));
    r := Ok(out);
    if out.active {
      ActiveIsGenuine(now, zone, expr, d);
    }
  }

  /* Soundness: nothing but a genuine start makes a window active */

  lemma {:induction false} WalkStaysOnStarts(s: Schedule, cur: Time, now: Time, budget: nat)
    requires cur <= now && (cur == ZERO_TIME || IsStart(s, cur))
    ensures var r := Walk(s, cur, now, budget); r <= now && (r == ZERO_TIME || IsStart(s, r))
    decreases budget
  {
    if budget > 0 && Next(s, cur) <= now {
      if Next(s, cur) != ZERO_TIME {
        NextIsLeast(s, cur);
      }
      WalkStaysOnStarts(s, Next(s, cur), now, budget - 1);
    }
  }

  lemma PrevStartIsStart(s: Schedule, now: Time)
    ensures PrevStart(s, now) != ZERO_TIME ==> PrevStart(s, now) <= now && IsStart(s, PrevStart(s, now))
  {
    hide Next;
    var first := Next(s, now - LOOKBACK);
    if first <= now {
      if first != ZERO_TIME {
        NextIsLeast(s, now - LOOKBACK);
      }
      WalkStaysOnStarts(s, first, now, MAX_STEPS);
    }
  }

  // For every schedule, every now and every duration, even when the cap or the zero-time
  // restart is hit: an active answer names a genuine start whose window holds now.
  lemma ActiveIsGenuine(now: Time, zone: Timezone, expr: CronExpr, d: Duration)
    requires EvalWindow(now, zone, expr, d).Ok? && EvalWindow(now, zone, expr, d).value.active
    ensures var w := EvalWindow(now, zone, expr, d).value;
            && w.activeStart.Some? && w.activeEnd == Some(w.activeStart.value + d)
            && IsStart(expr.inZone(zone), w.activeStart.value)
            && w.activeStart.value <= now < w.activeEnd.value
    ensures Covered(expr.inZone(zone), d, now)
  {
    hide PrevStart;
    hide Next;
    hide MinuteOf;
    PrevStartIsStart(expr.inZone(zone), now);
  }

  /* Exactness */

  // x is the latest start of the last 14 days, or their beginning if there is none, and the search
  // that follows it comes back empty-handed.
  ghost predicate DeadEnd(s: Schedule, now: Time, x: Time) {
    && now - LOOKBACK <= x <= now && (x == now - LOOKBACK || IsStart(s, x))
    && Count(s, x, now) == 0
    && Next(s, x) == ZERO_TIME
  }

  ghost predicate GoesOn(s: Schedule, now: Time) {
    forall x :: !DeadEnd(s, now, x)
  }

  // Starts the look-back has to step over.
  ghost function Recent(s: Schedule, now: Time): nat {
    Count(s, now - LOOKBACK, now)
  }

  lemma NextWithinLookback(s: Schedule, cur: Time, now: Time)
    requires Valid(s) && 0 <= now - LOOKBACK <= cur <= now
    requires Next(s, cur) != ZERO_TIME || Count(s, cur, now) > 0
    ensures Next(s, cur) > cur
    ensures Next(s, cur) > now <==> Count(s, cur, now) == 0
  {
    hide Next;
    CountZero(s, cur, now);
    if Count(s, cur, now) > 0 {
      var x :| IsStart(s, x) && cur < x <= now;
      NextFinds(s, cur, x);
    } else {
      NextIsLeast(s, cur);
    }
  }

  // One step of the walk: either nothing is left before now, or the step lands on the next start.
  lemma StepWithinLookback(s: Schedule, cur: Time, now: Time)
    requires Valid(s) && 0 <= now - LOOKBACK <= cur <= now
    requires cur == now - LOOKBACK || IsStart(s, cur)
    requires GoesOn(s, now) || Recent(s, now) > Count(s, now - LOOKBACK, cur)
    ensures Next(s, cur) > now ==> Recent(s, now) == Count(s, now - LOOKBACK, cur)
    ensures Next(s, cur) <= now ==>
              && IsStart(s, Next(s, cur)) && cur < Next(s, cur)
              && Count(s, now - LOOKBACK, Next(s, cur)) == Count(s, now - LOOKBACK, cur) + 1
  {
    hide Next;
    hide MinuteOf;
    hide Count;
    CountSplit(s, now - LOOKBACK, cur, now);
    assert GoesOn(s, now) ==> !DeadEnd(s, now, cur);
    NextWithinLookback(s, cur, now);
    if Next(s, cur) <= now {
      NextIsLeast(s, cur);
      CountStep(s, now - LOOKBACK, cur);
    }
  }

  ghost function Min(a: int, b: int): int {
    if a < b then a else b
  }

  lemma {:induction false} WalkExact(s: Schedule, cur: Time, now: Time, budget: nat, rank: nat)
    requires Valid(s) && IsStart(s, cur) && 0 <= now - LOOKBACK < cur <= now
    requires rank == Count(s, now - LOOKBACK, cur)
    requires GoesOn(s, now) || Recent(s, now) >= rank + budget
    ensures var r := Walk(s, cur, now, budget);
            && IsStart(s, r) && cur <= r <= now
            && Count(s, now - LOOKBACK, r) == Min(Recent(s, now), rank + budget)
    decreases budget
  {
    hide Next;
    hide MinuteOf;
    hide Count;
    hide Valid;
    if budget == 0 {
      CountSplit(s, now - LOOKBACK, cur, now);
    } else {
      StepWithinLookback(s, cur, now);
      var n := Next(s, cur);
      if n > now {
        assert Walk(s, cur, now, budget) == cur;
      } else {
        assert Walk(s, cur, now, budget) == Walk(s, n, now, budget - 1);
        WalkExact(s, n, now, budget - 1, rank + 1);
      }
    }
  }

  // Without a dead end, the look-back settles on the latest start, or on the 10001st after now - 14 days.
  lemma PrevStartExact(s: Schedule, now: Time)
    requires Valid(s) && now >= LOOKBACK
    requires GoesOn(s, now) || Recent(s, now) > MAX_STEPS
    ensures var p := PrevStart(s, now);
            if Recent(s, now) == 0 then p == ZERO_TIME
            else
              && IsStart(s, p) && now - LOOKBACK < p <= now
              && Count(s, now - LOOKBACK, p) == if Recent(s, now) <= MAX_STEPS then Recent(s, now) else MAX_STEPS + 1
  {
    hide Next;
    hide MinuteOf;
    hide Walk;
    hide Valid;
    var from := now - LOOKBACK;
    assert Count(s, from, from) == 0;
    StepWithinLookback(s, from, now);
    if Next(s, from) <= now {
      WalkExact(s, Next(s, from), now, MAX_STEPS, 1);
    } else {
      assert Recent(s, now) == 0;
    }
  }

  // Ranks are strictly increasing along the starts.
  lemma LaterStartHasHigherRank(s: Schedule, from: Time, a: Time, b: Time)
    requires from <= a < b && IsStart(s, b)
    ensures Count(s, from, a) < Count(s, from, b)
  {
    hide MinuteOf;
    hide Count;
    CountSplit(s, from, a, b);
    CountZero(s, a, b);
  }

  // A start the look-back can see: among the first 10001 after now - 14 days.
  ghost predicate Visible(s: Schedule, now: Time, x: Time) {
    IsStart(s, x) && now - LOOKBACK < x <= now && Count(s, now - LOOKBACK, x) <= MAX_STEPS + 1
  }

  // Without a dead end, the look-back settles on the latest start it can see.
  lemma PrevStartIsLatestVisible(s: Schedule, now: Time)
    requires Valid(s) && now >= LOOKBACK
    requires GoesOn(s, now) || Recent(s, now) > MAX_STEPS
    ensures PrevStart(s, now) != ZERO_TIME ==> Visible(s, now, PrevStart(s, now))
    ensures forall x :: Visible(s, now, x) ==> PrevStart(s, now) != ZERO_TIME && x <= PrevStart(s, now)
  {
    hide PrevStart;
    hide Count;
    hide Next;
    var from, p := now - LOOKBACK, PrevStart(s, now);
    PrevStartExact(s, now);
    CountZero(s, from, now);
    forall x | Visible(s, now, x)
      ensures p != ZERO_TIME && x <= p
    {
      CountSplit(s, from, x, now);
      if p < x {
        LaterStartHasHigherRank(s, from, p, x);
      }
    }
  }

  // So, for every duration: active when a start the look-back can see
  // has a window that holds now.
  lemma ActiveIffVisible(now: Time, zone: Timezone, expr: CronExpr, d: Duration)
    requires Evaluates(zone, expr, d) && now >= LOOKBACK && Valid(expr.inZone(zone))
    requires GoesOn(expr.inZone(zone), now) || Recent(expr.inZone(zone), now) > MAX_STEPS
    ensures EvalWindow(now, zone, expr, d).value.active <==>
            exists x :: Visible(expr.inZone(zone), now, x) && now < x + d
  {
    hide PrevStart;
    hide Count;
    hide Next;
    hide MinuteOf;
    hide Valid;
    PrevStartIsLatestVisible(expr.inZone(zone), now);
  }

  // The three conditions under which the bounded look-back loses nothing.
  ghost predicate Complete(s: Schedule, d: Duration, now: Time) {
    && Valid(s) && now >= LOOKBACK
    && d <= LOOKBACK
    && Recent(s, now) <= MAX_STEPS + 1
    && GoesOn(s, now)
  }

  // Under them the evaluation decides exactly "some start s has s <= now < s + d".
  lemma ActiveIffCovered(now: Time, zone: Timezone, expr: CronExpr, d: Duration)
    requires Evaluates(zone, expr, d) && Complete(expr.inZone(zone), d, now)
    ensures EvalWindow(now, zone, expr, d).value.active <==> Covered(expr.inZone(zone), d, now)
  {
    hide Outcome;
    hide Count;
    hide Next;
    hide MinuteOf;
    var s, from := expr.inZone(zone), now - LOOKBACK;
    ActiveIffVisible(now, zone, expr, d);
    forall x | IsStart(s, x) && x <= now < x + d
      ensures Visible(s, now, x)
    {
      CountSplit(s, from, x, now);
    }
  }

  // They also make sure that the start that follows now is found.
  lemma NextFound(s: Schedule, d: Duration, now: Time)
    requires Complete(s, d, now)
    ensures Next(s, now) > now
  {
    hide Next;
    hide MinuteOf;
    hide Count;
    hide PrevStart;
    var from := now - LOOKBACK;
    PrevStartExact(s, now);
    var latest := if Recent(s, now) == 0 then from else PrevStart(s, now);
    CountSplit(s, from, latest, now);
    assert !DeadEnd(s, now, latest);
    NextIsLeast(s, latest);
    CountZero(s, latest, now);
    NextFinds(s, now, Next(s, latest));
  }

  // An evaluation fails on the zone, the duration or the text, in this order, never on the instant.
  lemma EvalFailsIff(now: Time, zone: Timezone, expr: CronExpr, d: Duration)
    ensures EvalWindow(now, zone, expr, d).Ok? <==> !zone.UnknownZone? && d > 0 && expr.WellFormed?
    ensures EvalWindow(now, zone, expr, d) == Err(InvalidTimezone) <==> zone.UnknownZone?
    ensures EvalWindow(now, zone, expr, d) == Err(NonPositiveDuration) <==> !zone.UnknownZone? && d <= 0
    ensures EvalWindow(now, zone, expr, d) == Err(InvalidSchedule) <==> !zone.UnknownZone? && d > 0 && expr.Malformed?
    ensures forall t :: EvalWindow(t, zone, expr, d).Err? <==> EvalWindow(now, zone, expr, d).Err?
  {}
}
