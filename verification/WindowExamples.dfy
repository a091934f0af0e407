/** Policies on which the requeue arithmetic goes wrong: a daily window is enough for each. */
module WindowExamples {
  import opened Clock
  import opened CronLimits
  import opened CronWindows
  import opened Policies
  import opened Schedules
  import opened WindowFold
  import opened WindowRun
  import opened Wrappers

  const DAY: int := 1440
  const HOUR: Duration := 3_600_000_000_000

  // Midnight of every day, and never; the search looks five years ahead.
  function Daily(): Schedule {
    Schedule(m => m % DAY == 0, t => MinuteOf(t) + 2_635_200)
  }

  function Never(): Schedule {
    Schedule(m => false, t => MinuteOf(t) + 2_635_200)
  }

  function DailyExpr(): CronExpr {
    WellFormed("0 0 * * *", _ => Daily())
  }

  function NeverExpr(): CronExpr {
    WellFormed("0 0 30 2 *", _ => Never())
  }

  function Midnight(day: int): Time {
    InstantOf(day * DAY)
  }

  lemma DailyNext(t: Time)
    requires t >= 0
    ensures t < Next(Daily(), t)
  {
    var m := (MinuteOf(t) / DAY + 1) * DAY;
    assert MinuteOf(InstantOf(m)) == m;
    NextFinds(Daily(), t, InstantOf(m));
  }

  lemma MidnightIsStart(day: int)
    ensures IsStart(Daily(), Midnight(day))
  {
    assert MinuteOf(Midnight(day)) == day * DAY;
  }

  // No start strictly between two midnights.
  lemma MidnightsOnly(day: int, x: Time)
    requires IsStart(Daily(), x) && Midnight(day) <= x < Midnight(day + 1)
    ensures x == Midnight(day)
  {
    var m := MinuteOf(x);
    assert m / DAY == day;
  }

  lemma DailyEvaluates(day: int, now: Time, zone: Timezone, d: Duration)
    requires !zone.UnknownZone? && 0 < d && now >= LOOKBACK && Midnight(day) <= now < Midnight(day + 1)
    ensures EvalWindow(now, zone, DailyExpr(), d)
         == Ok(if now < Midnight(day) + d
               then EvaluatedWindow(true, Some(Midnight(day)), Some(Midnight(day) + d), Some(Midnight(day + 1)), Some(Midnight(day + 1) + d))
               else EvaluatedWindow(false, None, None, Some(Midnight(day + 1)), Some(Midnight(day + 1) + d)))
  {
    hide Next, Count, PrevStart, Midnight, Valid, IsStart, Daily;
    DailyPrev(day, now);
    DailyNextIs(day, now);
  }

  lemma DailyNextIs(day: int, now: Time)
    requires 0 <= Midnight(day) <= now < Midnight(day + 1)
    ensures Next(Daily(), now) == Midnight(day + 1)
  {
    hide Next, MinuteOf, Daily;
    var n := Next(Daily(), now);
    DailyNext(now);
    NextIsLeast(Daily(), now);
    MidnightIsStart(day + 1);
    if n < Midnight(day + 1) {
      MidnightsOnly(day, n);
    }
  }

  lemma DailySpaced()
    ensures Spaced(Daily(), 3) && Valid(Daily())
  {}

  lemma DailyPrev(day: int, now: Time)
    requires now >= LOOKBACK && Midnight(day) <= now < Midnight(day + 1)
    ensures PrevStart(Daily(), now) == Midnight(day) && Midnight(day) > ZERO_TIME
  {
    hide Next, Count, PrevStart, MinuteOf, Daily, Spaced, Valid, IsStart;
    var s, x := Daily(), Midnight(day);
    DailySpaced();
    SpacedNeverCapped(s, now);
    forall u | now - LOOKBACK <= u <= now
      ensures Next(s, u) != ZERO_TIME
    {
      DailyNext(u);
    }
    assert now - LOOKBACK < x;
    MidnightIsStart(day);
    CountSplit(s, now - LOOKBACK, x, now);
    PrevStartIsLatestVisible(s, now);
    assert Visible(s, now, x);
    MidnightsOnly(day, PrevStart(s, now));
  }

  // Evaluated at this instant, the policy asks to be evaluated again after this delay.
  ghost predicate Asks(now: Time, mw: MaintenanceWindow, delay: Duration) {
    Evaluate(now, mw).Ok? && Evaluate(now, mw).value.requeueAfter == delay
  }

  ghost predicate ReadsInactive(now: Time, mw: MaintenanceWindow) {
    Evaluate(now, mw).Ok? && !Evaluate(now, mw).value.active
  }

  // A window without any start beside a daily one, two minutes before midnight: the status is inactive,
  // asks for five minutes, and misses the opening.
  lemma BlindBeforeMidnight(day: int, mw: MaintenanceWindow)
    requires mw.mode == DenyOutsideWindows && !mw.timezone.UnknownZone? && Midnight(day) >= LOOKBACK
    requires mw.windows == [WindowSpec("never", NeverExpr(), HOUR), WindowSpec("daily", DailyExpr(), HOUR)]
    ensures var now := Midnight(day + 1) - 120 * SECOND;
            && AllEvaluate(now, mw.timezone, mw.windows) && Blind(now, mw)
            && ReadsInactive(now, mw) && Asks(now, mw, FIVE_MINUTES)
            && AnyCovers(mw.timezone, mw.windows, Midnight(day + 1))
  {
    hide EvalWindow, DailyExpr, NeverExpr, Evaluate, AnyCovers;
    var now, ws := Midnight(day + 1) - 120 * SECOND, mw.windows;
    NeverEvaluates(now, mw.timezone, HOUR);
    DailyEvaluates(day, now, mw.timezone, HOUR);
    assert !IsOpen(now, mw.timezone, ws[0]) && !IsOpen(now, mw.timezone, ws[1]);
    assert AllEvaluate(now, mw.timezone, ws);
    assert NextOf(now, mw.timezone, ws[0]) == ZERO_TIME && NextOf(now, mw.timezone, ws[1]) == Midnight(day + 1);
    EvaluateSucceedsIff(now, mw);
    EvaluateStatus(now, mw);
    ZeroTimeDelay(now, mw, 0);
    StartIsCovered(now, mw, 1);
  }

  lemma NeverEvaluates(now: Time, zone: Timezone, d: Duration)
    requires !zone.UnknownZone? && 0 < d && now >= ZERO_TIME
    ensures EvalWindow(now, zone, NeverExpr(), d)
         == Ok(EvaluatedWindow(false, None, None, Some(ZERO_TIME), Some(ZERO_TIME + d)))
  {
    hide PrevStart, Next;
    NeverFires(now);
    PrevStartIsStart(Never(), now);
  }

  lemma NeverFires(t: Time)
    ensures Next(Never(), t) == ZERO_TIME
  {
    FirstFireIsFirst(Never().fires, MinuteOf(t) + 1, Never().limit(t));
  }

  // Two daily windows of an hour and of an hour and half a second, a minute before the first ends: the
  // reconcile comes a second after the second end if that window is listed last, else after the first.
  lemma SlipBeforeOne(day: int, mw: MaintenanceWindow, a: WindowSpec, b: WindowSpec)
    requires mw.mode == DenyOutsideWindows && !mw.timezone.UnknownZone? && Midnight(day) >= LOOKBACK
    requires a == WindowSpec("hour", DailyExpr(), HOUR)
    requires b == WindowSpec("longer", DailyExpr(), HOUR + 500_000_000)
    ensures var now := Midnight(day) + HOUR - 60 * SECOND;
            && Asks(now, mw.(windows := [a, b]), 61 * SECOND + 500_000_000)
            && Asks(now, mw.(windows := [b, a]), 61 * SECOND)
  {
    hide EvalWindow, DailyExpr, Evaluate;
    var now := Midnight(day) + HOUR - 60 * SECOND;
    DailyEvaluates(day, now, mw.timezone, a.duration);
    DailyEvaluates(day, now, mw.timezone, b.duration);
    assert IsOpen(now, mw.timezone, a) && IsOpen(now, mw.timezone, b);
    LaterEndPushesRequeue(now, mw, a, b);
  }

  // One daily window of an hour: what is asked for in seconds, two minutes before midnight, at noon, and
  // a minute before the window closes.
  lemma DailyRhythm(day: int, mw: MaintenanceWindow)
    requires mw.mode == DenyOutsideWindows && !mw.timezone.UnknownZone? && Midnight(day) >= LOOKBACK
    requires mw.windows == [WindowSpec("daily", DailyExpr(), 3_600_000_000_000)]
    ensures Asks(Midnight(day + 1) - 120_000_000_000, mw, 121_000_000_000)
    ensures Asks(Midnight(day) + 43_200_000_000_000, mw, 300_000_000_000)
    ensures Asks(Midnight(day) + 3_540_000_000_000, mw, 61_000_000_000)
  {
    hide EvalWindow, DailyExpr, Evaluate;
    DailyClosed(day, mw, Midnight(day + 1) - 120_000_000_000);
    DailyClosed(day, mw, Midnight(day) + 43_200_000_000_000);
    var now, w := Midnight(day) + 3_540_000_000_000, mw.windows[0];
    DailyEvaluates(day, now, mw.timezone, w.duration);
    assert IsOpen(now, mw.timezone, w) && EndOf(now, mw.timezone, w) - now == 60_000_000_000;
    assert FirstEndIn(now, mw.timezone, mw.windows, 60_000_000_000);
    RequeueAtFirstEnd(now, mw, 60_000_000_000);
  }

  lemma DailyClosed(day: int, mw: MaintenanceWindow, now: Time)
    requires mw.mode == DenyOutsideWindows && !mw.timezone.UnknownZone? && Midnight(day) >= LOOKBACK
    requires mw.windows == [WindowSpec("daily", DailyExpr(), HOUR)]
    requires Midnight(day) + HOUR <= now < Midnight(day + 1)
    ensures Asks(now, mw, if Midnight(day + 1) - now < FIVE_MINUTES then Midnight(day + 1) - now + SECOND else FIVE_MINUTES)
  {
    hide EvalWindow, DailyExpr, Evaluate;
    var w := mw.windows[0];
    DailyEvaluates(day, now, mw.timezone, w.duration);
    assert !IsOpen(now, mw.timezone, w) && NextOf(now, mw.timezone, w) == Midnight(day + 1);
    RequeueAtNextStart(now, mw, Midnight(day + 1));
  }
}
