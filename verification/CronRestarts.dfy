/** Where a restarted walk runs. The cron library looks for starts in the location of the instant it is
    given; the zero time of a search that fails is in UTC, so everything after it is too. One schedule
    tells the whole story: the starts in UTC in the first centuries, those in the zone ever after. */
module CronRestarts {
  import opened Clock
  import opened CronDeadEnds
  import opened CronWindows
  import opened Schedules

  // The walk as it moves from the zone to UTC: `here` holds the starts where it currently is.
  function WalkAbroad(here: Schedule, utc: Schedule, cur: Time, now: Time, budget: nat): Time
    decreases budget
  {
    if budget == 0 then cur
    else
      var n := Next(here, cur);
      if n > now then cur
      else WalkAbroad(if n == ZERO_TIME then utc else here, utc, n, now, budget - 1)
  }

  function PrevStartAbroad(zone: Schedule, utc: Schedule, now: Time): Time {
    var first := Next(zone, now - LOOKBACK);
    if first > now then ZERO_TIME
    else WalkAbroad(if first == ZERO_TIME then utc else zone, utc, first, now, MAX_STEPS)
  }

  // UTC before minute `era`, the zone from there on.
  function Joined(zone: Schedule, utc: Schedule, era: int): Schedule {
    Schedule(m => if m < era then utc.fires(m) else zone.fires(m),
             t => if MinuteOf(t) < era then utc.limit(t) else zone.limit(t))
  }

  // In UTC the walk turns back before the era begins, without looking beyond.
  ghost predicate TurnsBefore(utc: Schedule, z: Time, era: int) {
    FirstTurn(utc, z) && MinuteOf(z) < era && utc.limit(z) < era
  }

  lemma {:induction false} SameSearch(fires: int -> bool, fires': int -> bool, from: int, last: int, end: int)
    requires forall m :: from <= m <= end ==> fires(m) == fires'(m)
    requires last <= end || exists m :: from <= m <= end && m <= last && fires(m)
    ensures FirstFire(fires, from, last) == FirstFire(fires', from, last)
    decreases last - from
  {
    if from <= last && !fires(from) {
      if last > end {
        var m :| from <= m <= end && m <= last && fires(m);
        assert from + 1 <= m;
      }
      SameSearch(fires, fires', from + 1, last, end);
    }
  }

  // From an instant of the era on the joined schedule finds what the zone's does.
  lemma ZoneSearch(zone: Schedule, utc: Schedule, era: int, t: Time)
    requires era <= MinuteOf(t)
    ensures Next(Joined(zone, utc, era), t) == Next(zone, t)
  {
    SameSearch(Joined(zone, utc, era).fires, zone.fires, MinuteOf(t) + 1, zone.limit(t), zone.limit(t));
  }

  // Up to the first turn it finds what the one in UTC does.
  lemma UtcSearch(zone: Schedule, utc: Schedule, era: int, z: Time, t: Time)
    requires TurnsBefore(utc, z, era) && ZERO_TIME <= t <= z && (t == ZERO_TIME || IsStart(utc, t))
    ensures Next(Joined(zone, utc, era), t) == Next(utc, t) <= z
  {
    assert MinuteOf(t) <= MinuteOf(z);
    var joined := Joined(zone, utc, era);
    if t == z {
      SameSearch(joined.fires, utc.fires, MinuteOf(t) + 1, utc.limit(t), utc.limit(t));
    } else {
      assert !TurnsBack(utc, t);
      NextIsLeast(utc, t);
      var n := Next(utc, t);
      assert MinuteOf(t) < MinuteOf(n) <= MinuteOf(z) by {
        StartsInOrder(utc, t, n);
      }
      SameSearch(joined.fires, utc.fires, MinuteOf(t) + 1, utc.limit(t), era - 1);
    }
  }

  lemma StartsInOrder(s: Schedule, t: Time, n: Time)
    requires t < n && IsStart(s, n)
    ensures MinuteOf(t) < MinuteOf(n)
  {}

  lemma {:induction false} LapsAgree(zone: Schedule, utc: Schedule, era: int, z: Time, cur: Time, now: Time, budget: nat)
    requires TurnsBefore(utc, z, era) && z <= now
    requires ZERO_TIME <= cur <= z && (cur == ZERO_TIME || IsStart(utc, cur))
    ensures WalkAbroad(utc, utc, cur, now, budget) == Walk(Joined(zone, utc, era), cur, now, budget)
    decreases budget
  {
    hide Next, MinuteOf, Joined;
    if budget > 0 {
      UtcSearch(zone, utc, era, z, cur);
      var n := Next(utc, cur);
      if n != ZERO_TIME {
        NextIsLeast(utc, cur);
      }
      LapsAgree(zone, utc, era, z, n, now, budget - 1);
    }
  }

  // Where no search fails the walk never leaves the zone; otherwise it turns back early in UTC.
  ghost predicate StaysOrTurns(zone: Schedule, utc: Schedule, era: int, z: Time, now: Time) {
    || (forall t :: now - LOOKBACK <= t <= now ==> Next(zone, t) != ZERO_TIME)
    || TurnsBefore(utc, z, era)
  }

  lemma {:induction false} WalksAgree(zone: Schedule, utc: Schedule, era: int, z: Time, cur: Time, now: Time, budget: nat)
    requires StaysOrTurns(zone, utc, era, z, now) && ZERO_TIME <= z <= now && ZERO_TIME <= now - LOOKBACK <= cur <= now
    requires era <= MinuteOf(now - LOOKBACK)
    ensures WalkAbroad(zone, utc, cur, now, budget) == Walk(Joined(zone, utc, era), cur, now, budget)
    decreases budget
  {
    hide Next, Joined;
    if budget > 0 {
      assert era <= MinuteOf(cur);
      ZoneSearch(zone, utc, era, cur);
      var n := Next(zone, cur);
      if n == ZERO_TIME {
        LapsAgree(zone, utc, era, z, ZERO_TIME, now, budget - 1);
      } else if n <= now {
        NextIsLeast(zone, cur);
        WalksAgree(zone, utc, era, z, n, now, budget - 1);
      }
    }
  }

  // The look-back as it moves from the zone to UTC is the look-back over the joined schedule, and so is
  // the search for the next start: what holds of one schedule holds of the two.
  lemma LookbackAgrees(zone: Schedule, utc: Schedule, era: int, z: Time, now: Time)
    requires StaysOrTurns(zone, utc, era, z, now) && ZERO_TIME <= z <= now && ZERO_TIME <= now - LOOKBACK
    requires era <= MinuteOf(now - LOOKBACK)
    ensures PrevStartAbroad(zone, utc, now) == PrevStart(Joined(zone, utc, era), now)
    ensures Next(zone, now) == Next(Joined(zone, utc, era), now)
  {
    hide Next, Joined, Walk, WalkAbroad;
    ZoneSearch(zone, utc, era, now - LOOKBACK);
    assert era <= MinuteOf(now);
    ZoneSearch(zone, utc, era, now);
    var first := Next(zone, now - LOOKBACK);
    if first == ZERO_TIME {
      LapsAgree(zone, utc, era, z, ZERO_TIME, now, MAX_STEPS);
    } else if first <= now {
      NextIsLeast(zone, now - LOOKBACK);
      WalksAgree(zone, utc, era, z, first, now, MAX_STEPS);
    }
  }

  // It is a schedule like any other, if at the joint the library looks no further in UTC than in the zone.
  lemma JoinedValid(zone: Schedule, utc: Schedule, era: int)
    requires Valid(zone) && Valid(utc) && utc.limit(InstantOf(era)) <= zone.limit(InstantOf(era))
    ensures Valid(Joined(zone, utc, era))
  {
    var s := Joined(zone, utc, era);
    assert MinuteOf(InstantOf(era)) == era;
    forall t, u | t <= u
      ensures s.limit(t) <= s.limit(u)
    {
      if MinuteOf(t) < era <= MinuteOf(u) {
        assert t <= InstantOf(era) <= u;
        assert utc.limit(t) <= utc.limit(InstantOf(era)) <= zone.limit(InstantOf(era)) <= zone.limit(u);
      } else {
        assert MinuteOf(t) <= MinuteOf(u);
      }
    }
  }
}
