/** What a window reads once the cron library's search comes back empty-handed: the walk restarts at
    the zero time (in UTC, see CronRestarts), and the answer is exact again. */
module CronDeadEnds {
  import opened Clock
  import opened CronWindows
  import opened Schedules

  /* Laps from the zero time */

  // A walk that gets to z is thrown back to the zero time.
  ghost predicate TurnsBack(s: Schedule, z: Time) {
    z >= ZERO_TIME && (z == ZERO_TIME || IsStart(s, z)) && Next(s, z) == ZERO_TIME
  }

  ghost predicate FirstTurn(s: Schedule, z: Time) {
    TurnsBack(s, z) && forall y :: ZERO_TIME <= y < z ==> !TurnsBack(s, y)
  }

  // A walk from the zero time never passes a point where it turns back.
  lemma {:induction false} StaysBehind(s: Schedule, cur: Time, z: Time, now: Time, budget: nat)
    requires TurnsBack(s, z) && ZERO_TIME <= cur <= z
    ensures ZERO_TIME <= Walk(s, cur, now, budget) <= z
    decreases budget
  {
    hide Next;
    hide MinuteOf;
    if budget > 0 && Next(s, cur) <= now {
      if Next(s, cur) != ZERO_TIME {
        NextIsLeast(s, cur);
      }
      StaysBehind(s, Next(s, cur), z, now, budget - 1);
    }
  }

  // Where this many steps round a lap end: the remainder.
  ghost function RankAfter(steps: nat, lap: nat): nat
    requires lap > 0
  {
    if steps < lap then steps else RankAfter(steps - lap, lap)
  }

  // It goes round and round the starts up to the first turn, so its budget decides where it stops.
  lemma {:induction false} LapRank(s: Schedule, cur: Time, z: Time, now: Time, budget: nat)
    requires FirstTurn(s, z) && ZERO_TIME <= cur <= z <= now && (cur == ZERO_TIME || IsStart(s, cur))
    ensures var w := Walk(s, cur, now, budget);
            && (w == ZERO_TIME || IsStart(s, w)) && ZERO_TIME <= w <= z
            && Count(s, ZERO_TIME, w) == RankAfter(Count(s, ZERO_TIME, cur) + budget, Count(s, ZERO_TIME, z) + 1)
    decreases budget
  {
    hide Next;
    hide MinuteOf;
    hide Count;
    CountSplit(s, ZERO_TIME, cur, z);
    if budget > 0 && cur == z {
      CountZero(s, ZERO_TIME, ZERO_TIME);
      assert Walk(s, cur, now, budget) == Walk(s, ZERO_TIME, now, budget - 1);
      LapRank(s, ZERO_TIME, z, now, budget - 1);
    } else if budget > 0 {
      assert !TurnsBack(s, cur);
      NextIsLeast(s, cur);
      CountStep(s, ZERO_TIME, cur);
      assert Walk(s, cur, now, budget) == Walk(s, Next(s, cur), now, budget - 1);
      LapRank(s, Next(s, cur), z, now, budget - 1);
    }
  }

  /* The look-back at a dead end */

  lemma {:induction false} WalkRestarts(s: Schedule, cur: Time, x: Time, now: Time, budget: nat)
    requires Valid(s) && DeadEnd(s, now, x)
    requires IsStart(s, cur) && 0 <= now - LOOKBACK < cur <= now && Count(s, cur, now) < budget
    ensures Walk(s, cur, now, budget) == Walk(s, ZERO_TIME, now, budget - Count(s, cur, now) - 1)
    decreases budget
  {
    hide Next;
    hide MinuteOf;
    hide Count;
    hide Valid;
    CountZero(s, x, now);
    CountZero(s, cur, now);
    if Count(s, cur, now) == 0 {
      assert cur == x;
    } else {
      NextWithinLookback(s, cur, now);
      NextIsLeast(s, cur);
      CountStep(s, cur, cur);
      CountSplit(s, cur, cur, Next(s, cur));
      CountSplit(s, cur, Next(s, cur), now);
      WalkRestarts(s, Next(s, cur), x, now, budget - 1);
    }
  }

  // The walk is thrown back to the zero time with what is left of its 10000 steps.
  lemma LookbackRestarts(s: Schedule, x: Time, now: Time)
    requires Valid(s) && now >= LOOKBACK && DeadEnd(s, now, x) && Recent(s, now) <= MAX_STEPS
    ensures PrevStart(s, now) == Walk(s, ZERO_TIME, now, MAX_STEPS - Recent(s, now))
  {
    hide Next;
    hide MinuteOf;
    hide Count;
    hide Valid;
    hide Walk;
    var from := now - LOOKBACK;
    CountZero(s, x, now);
    CountZero(s, from, now);
    if Recent(s, now) == 0 {
      assert x == from;
    } else {
      NextWithinLookback(s, from, now);
      NextIsLeast(s, from);
      CountStep(s, from, from);
      CountSplit(s, from, from, from);
      CountSplit(s, from, Next(s, from), now);
      WalkRestarts(s, Next(s, from), x, now, MAX_STEPS);
    }
  }

  // At a dead end the library has nothing to offer after any start that is the latest before now.
  lemma NothingAfter(s: Schedule, x: Time, y: Time, now: Time)
    requires Valid(s) && now >= LOOKBACK && DeadEnd(s, now, x)
    requires ZERO_TIME <= y <= now && (y == ZERO_TIME || IsStart(s, y)) && Count(s, y, now) == 0
    ensures Next(s, y) == ZERO_TIME
  {
    hide Next;
    hide MinuteOf;
    hide Count;
    CountZero(s, x, now);
    CountZero(s, y, now);
    if Next(s, y) != ZERO_TIME {
      NextIsLeast(s, y);
      if y < x {
        NextFinds(s, x, Next(s, y));
      }
    }
  }

  // So there is a first turn, and it lies before now.
  lemma {:induction false} FirstTurnFrom(s: Schedule, x: Time, cur: Time, now: Time) returns (z: Time)
    requires Valid(s) && now >= LOOKBACK && DeadEnd(s, now, x)
    requires ZERO_TIME <= cur <= now && (cur == ZERO_TIME || IsStart(s, cur))
    requires forall y :: ZERO_TIME <= y < cur ==> !TurnsBack(s, y)
    ensures FirstTurn(s, z) && z <= now
    decreases now - cur
  {
    hide Next;
    hide MinuteOf;
    hide Count;
    hide Valid;
    if Next(s, cur) == ZERO_TIME {
      z := cur;
    } else {
      NextIsLeast(s, cur);
      CountZero(s, cur, now);
      if Next(s, cur) > now {
        NothingAfter(s, x, cur, now);
      }
      z := FirstTurnFrom(s, x, Next(s, cur), now);
    }
  }

  /* The answer in every case */

  // The start on which a walk stops that laps from the zero time with what is left of its steps.
  ghost predicate Lapped(s: Schedule, now: Time, x: Time) {
    IsStart(s, x) && ZERO_TIME < x &&
    Recent(s, now) <= MAX_STEPS &&
    exists z :: FirstTurn(s, z) && x <= z <= now
                && Count(s, ZERO_TIME, x) == RankAfter(MAX_STEPS - Recent(s, now), Count(s, ZERO_TIME, z) + 1)
  }

  lemma StartsAreRanked(s: Schedule, x: Time, y: Time)
    requires ZERO_TIME <= x && ZERO_TIME <= y
    requires (x == ZERO_TIME || IsStart(s, x)) && (y == ZERO_TIME || IsStart(s, y))
    requires Count(s, ZERO_TIME, x) == Count(s, ZERO_TIME, y)
    ensures x == y
  {
    hide Count;
    if x < y {
      LaterStartHasHigherRank(s, ZERO_TIME, x, y);
    } else if y < x {
      LaterStartHasHigherRank(s, ZERO_TIME, y, x);
    }
  }

  lemma FirstTurnIsUnique(s: Schedule, z: Time, z': Time)
    requires FirstTurn(s, z) && FirstTurn(s, z')
    ensures z == z'
  {}

  lemma PrevStartIsLapped(s: Schedule, x: Time, now: Time)
    requires Valid(s) && now >= LOOKBACK && DeadEnd(s, now, x) && Recent(s, now) <= MAX_STEPS
    ensures PrevStart(s, now) != ZERO_TIME ==> Lapped(s, now, PrevStart(s, now)) && PrevStart(s, now) <= now
    ensures forall y :: Lapped(s, now, y) ==> PrevStart(s, now) == y && y != ZERO_TIME
  {
    hide Next;
    hide MinuteOf;
    hide Count;
    hide Walk;
    hide FirstTurn;
    hide PrevStart;
    var z := FirstTurnFromZero(s, x, now);
    LookbackRestarts(s, x, now);
    CountZero(s, ZERO_TIME, ZERO_TIME);
    assert z >= ZERO_TIME by {
      FirstTurnIsTurn(s, z);
    }
    LapRank(s, ZERO_TIME, z, now, MAX_STEPS - Recent(s, now));
    forall y | Lapped(s, now, y)
      ensures PrevStart(s, now) == y && y != ZERO_TIME
    {
      var z' :| FirstTurn(s, z') && y <= z' <= now
                && Count(s, ZERO_TIME, y) == RankAfter(MAX_STEPS - Recent(s, now), Count(s, ZERO_TIME, z') + 1);
      FirstTurnIsUnique(s, z, z');
      StartsAreRanked(s, PrevStart(s, now), y);
    }
  }

  lemma FirstTurnIsTurn(s: Schedule, z: Time)
    requires FirstTurn(s, z)
    ensures TurnsBack(s, z) && z >= ZERO_TIME
  {}

  lemma FirstTurnFromZero(s: Schedule, x: Time, now: Time) returns (z: Time)
    requires Valid(s) && now >= LOOKBACK && DeadEnd(s, now, x)
    ensures FirstTurn(s, z) && z <= now
  {
    hide FirstTurn;
    z := FirstTurnFrom(s, x, ZERO_TIME, now);
  }

  // For every schedule, every duration and every number of starts: where the search goes on, or the cap
  // comes first, the starts that count are those the look-back can see; at a dead end it is the one
  // start on which the laps from the zero time happen to stop.
  lemma ActiveExactly(now: Time, zone: Timezone, expr: CronExpr, d: Duration)
    requires Evaluates(zone, expr, d) && now >= LOOKBACK && Valid(expr.inZone(zone))
    ensures var s := expr.inZone(zone);
            EvalWindow(now, zone, expr, d).value.active <==>
              if GoesOn(s, now) || Recent(s, now) > MAX_STEPS
              then exists x :: Visible(s, now, x) && now < x + d
              else exists x :: Lapped(s, now, x) && now < x + d
  {
    hide PrevStart;
    hide Count;
    hide Next;
    hide MinuteOf;
    hide Valid;
    hide Lapped;
    hide Visible;
    var s := expr.inZone(zone);
    if GoesOn(s, now) || Recent(s, now) > MAX_STEPS {
      ActiveIffVisible(now, zone, expr, d);
    } else {
      var x :| DeadEnd(s, now, x);
      PrevStartIsLapped(s, x, now);
    }
  }

  // The exact condition for windows of up to 14 days under the cap, once the walk has turned back before
  // (as every yearly schedule with a dead end does, a whole window before now): the window reads active
  // if and only if it is open and the search goes on. So an open window is missed exactly at a dead end.
  lemma ActiveIffGoesOn(now: Time, zone: Timezone, expr: CronExpr, d: Duration, z: Time)
    requires Evaluates(zone, expr, d) && now >= LOOKBACK && Valid(expr.inZone(zone))
    requires d <= LOOKBACK && Recent(expr.inZone(zone), now) <= MAX_STEPS
    requires TurnsBack(expr.inZone(zone), z) && z + d <= now
    ensures var s := expr.inZone(zone);
            EvalWindow(now, zone, expr, d).value.active <==> Covered(s, d, now) && GoesOn(s, now)
  {
    hide Count;
    hide Next;
    hide MinuteOf;
    hide Valid;
    var s := expr.inZone(zone);
    if GoesOn(s, now) {
      ActiveIffCovered(now, zone, expr, d);
    } else {
      DeadEndReadsInactive(now, zone, expr, d, z);
    }
  }

  // Whatever the duration, as long as the earlier turn lies more than a window back.
  lemma DeadEndReadsInactive(now: Time, zone: Timezone, expr: CronExpr, d: Duration, z: Time)
    requires Evaluates(zone, expr, d) && now >= LOOKBACK && Valid(expr.inZone(zone))
    requires Recent(expr.inZone(zone), now) <= MAX_STEPS && !GoesOn(expr.inZone(zone), now)
    requires TurnsBack(expr.inZone(zone), z) && z + d <= now
    ensures !EvalWindow(now, zone, expr, d).value.active
  {
    hide Count;
    hide Next;
    hide MinuteOf;
    hide Valid;
    hide Walk;
    hide PrevStart;
    var s := expr.inZone(zone);
    var x :| DeadEnd(s, now, x);
    LookbackRestarts(s, x, now);
    StaysBehind(s, ZERO_TIME, z, now, MAX_STEPS - Recent(s, now));
  }

  /* The leap day */

  const YEAR: int := 525_600

  predicate IsLeap(y: int) {
    y % 4 == 0 && (y % 100 != 0 || y % 400 == 0)
  }

  function YearOf(m: int): int {
    m / YEAR + 1
  }

  // One start in every leap year, in a calendar of years of 365 days, searched for like the library
  // does: to the end of the fifth year ahead.
  function LeapDays(): Schedule {
    Schedule(m => m % YEAR == 0 && IsLeap(YearOf(m)), t => (YearOf(MinuteOf(t)) + 5) * YEAR - 1)
  }

  // The leap day four years before a century.
  function LeapDay(century: int): Time {
    InstantOf((100 * century - 5) * YEAR)
  }

  lemma LeapDaysValid()
    ensures Valid(LeapDays())
  {}

  // Eight years without a leap day, around every century that has none itself, are too many.
  lemma LeapDayTurnsBack(century: int)
    requires century > 0 && century % 4 != 0
    ensures TurnsBack(LeapDays(), LeapDay(century))
  {
    hide IsLeap;
    var s, m := LeapDays(), (100 * century - 5) * YEAR;
    assert MinuteOf(LeapDay(century)) == m && YearOf(m) == 100 * century - 4;
    LeapYears(century);
    FirstFireIsFirst(s.fires, m + 1, s.limit(LeapDay(century)));
    forall k | m + 1 <= k <= (100 * century + 1) * YEAR - 1
      ensures !s.fires(k)
    {
      if k % YEAR == 0 {
        assert k == (YearOf(k) - 1) * YEAR;
      }
    }
  }

  lemma LeapYears(century: int)
    ensures IsLeap(100 * century - 4)
    ensures century % 4 != 0 ==> forall y :: 100 * century - 4 < y <= 100 * century + 1 ==> !IsLeap(y)
  {
    Remainder4(100 * century - 4, 25 * century - 1, 0);
    Remainder100(100 * century - 4, century - 1, 96);
    Remainder4(100 * century - 3, 25 * century - 1, 1);
    Remainder4(100 * century - 2, 25 * century - 1, 2);
    Remainder4(100 * century - 1, 25 * century - 1, 3);
    Remainder100(100 * century, century, 0);
    Remainder400(100 * century, century / 4, 100 * (century % 4));
    Remainder4(100 * century + 1, 25 * century, 1);
    forall y | century % 4 != 0 && 100 * century - 4 < y <= 100 * century + 1
      ensures !IsLeap(y)
    {
      var n := y - 100 * century;
      assert n == -3 || n == -2 || n == -1 || n == 0 || n == 1;
    }
  }

  lemma Remainder4(y: int, q: int, r: int)
    requires y == 4 * q + r && 0 <= r < 4
    ensures y % 4 == r
  {}

  lemma Remainder100(y: int, q: int, r: int)
    requires y == 100 * q + r && 0 <= r < 100
    ensures y % 100 == r
  {}

  lemma Remainder400(y: int, q: int, r: int)
    requires y == 400 * q + r && 0 <= r < 400
    ensures y % 400 == r
  {}

  // In the years 196, 296, ..., 2096, 2196, ...: a window that opens on the leap day, of any length up
  // to 14 days, reads inactive for as long as it is open.
  lemma LeapDayMissed(century: int, now: Time, zone: Timezone, expr: CronExpr, d: Duration)
    requires Evaluates(zone, expr, d) && expr.inZone(zone) == LeapDays() && d <= LOOKBACK
    requires century > 1 && century % 4 != 0
    requires LeapDay(century) <= now < LeapDay(century) + d
    ensures Covered(expr.inZone(zone), d, now)
    ensures !EvalWindow(now, zone, expr, d).value.active
  {
    hide Next, Count, MinuteOf, Valid, IsStart, EvalWindow;
    var s, x := LeapDays(), LeapDay(century);
    LeapDaysValid();
    LeapDayTurnsBack(century);
    LeapDayTurnsBack(1);
    LeapDayAlone(century, now);
    assert DeadEnd(s, now, x);
    DeadEndReadsInactive(now, zone, expr, d, LeapDay(1));
  }

  lemma LeapDayAlone(century: int, now: Time)
    requires century > 1 && LeapDay(century) <= now < LeapDay(century) + LOOKBACK
    ensures Recent(LeapDays(), now) <= 1 && Count(LeapDays(), LeapDay(century), now) == 0
  {
    hide CountMinutes, IsLeap;
    var fires, m := LeapDays().fires, (100 * century - 5) * YEAR;
    var lo, hi := MinuteOf(now - LOOKBACK), MinuteOf(now);
    assert MinuteOf(LeapDay(century)) == m && m - 20160 <= lo < m <= hi < m + 20160;
    CountMinutesSplit(fires, lo, m - 1, hi);
    CountMinutesSplit(fires, m - 1, m, hi);
    CountMinutesZero(fires, m, hi);
    CountMinutesZero(fires, lo, m - 1);
    OneMinute(fires, m);
  }

  lemma OneMinute(fires: int -> bool, m: int)
    ensures CountMinutes(fires, m - 1, m) <= 1
  {
    assert CountMinutes(fires, m - 1, m - 1) == 0;
  }
}
