/** Parsed cron schedules: a set of minutes, the library's bounded search for the
    next one, and counting. */
module Schedules {
  import opened Clock
  import opened Wrappers

  // `fires(m)` says whether minute m (counted from the zero time) is a start, with the
  // timezone already folded in; the first centuries, which only a search that has failed before gets
  // to, hold the starts in UTC. `limit(t)` is the last minute the library looks at when
  // asked for the start that follows t.
  datatype Schedule = Schedule(fires: int -> bool, limit: Time -> int)

  function MinuteOf(t: Time): int {
    t / 60_000_000_000
  }

  function InstantOf(m: int): Time {
    m * 60_000_000_000
  }

  // The library looks to the end of the fifth year ahead; 14 days is all that is needed here.
  ghost predicate Valid(s: Schedule) {
    && (forall t :: s.limit(t) >= MinuteOf(t) + 20160)
    && (forall t, u :: t <= u ==> s.limit(t) <= s.limit(u))
  }

  ghost predicate IsStart(s: Schedule, x: Time) {
    x == InstantOf(MinuteOf(x)) && s.fires(MinuteOf(x))
  }

  // First firing minute in [from, last].
  function FirstFire(fires: int -> bool, from: int, last: int): Option<int>
    decreases last - from
  {
    if last < from then None
    else if fires(from) then Some(from)
    else FirstFire(fires, from + 1, last)
  }

  lemma {:induction false} FirstFireIsFirst(fires: int -> bool, from: int, last: int)
    ensures match FirstFire(fires, from, last)
            case Some(m) => from <= m <= last && fires(m) && forall k :: from <= k < m ==> !fires(k)
            case None => forall k :: from <= k <= last ==> !fires(k)
    decreases last - from
  {
    if from <= last && !fires(from) {
      FirstFireIsFirst(fires, from + 1, last);
    }
  }

  // Schedule.Next: the least start after t, or the zero time when the search gives up.
  function Next(s: Schedule, t: Time): Time {
    match FirstFire(s.fires, MinuteOf(t) + 1, s.limit(t))
    case None => ZERO_TIME
    case Some(m) => InstantOf(m)
  }

  // Number of firing minutes in (lo, hi].
  ghost function CountMinutes(fires: int -> bool, lo: int, hi: int): nat
    decreases hi - lo
  {
    if hi <= lo then 0 else CountMinutes(fires, lo, hi - 1) + if fires(hi) then 1 else 0
  }

  // Number of starts x with a < x <= b.
  ghost function Count(s: Schedule, a: Time, b: Time): nat {
    CountMinutes(s.fires, MinuteOf(a), MinuteOf(b))
  }

  /* Next */

  // What Next returns is the least start after t.
  lemma NextIsLeast(s: Schedule, t: Time)
    requires Next(s, t) != ZERO_TIME
    ensures IsStart(s, Next(s, t)) && t < Next(s, t)
    ensures MinuteOf(Next(s, t)) <= s.limit(t)
    ensures forall x :: IsStart(s, x) && t < x ==> Next(s, t) <= x
  {
    FirstFireIsFirst(s.fires, MinuteOf(t) + 1, s.limit(t));
    var m := FirstFire(s.fires, MinuteOf(t) + 1, s.limit(t)).value;
    assert MinuteOf(InstantOf(m)) == m;
    forall x | IsStart(s, x) && t < x
      ensures InstantOf(m) <= x
    {
      assert MinuteOf(t) + 1 <= MinuteOf(x);
    }
  }

  // A start after t that lies inside the search limit is never missed.
  lemma NextFinds(s: Schedule, t: Time, x: Time)
    requires 0 <= t < x && IsStart(s, x) && MinuteOf(x) <= s.limit(t)
    ensures t < Next(s, t) <= x
  {
    assert MinuteOf(t) + 1 <= MinuteOf(x);
    FirstFireIsFirst(s.fires, MinuteOf(t) + 1, s.limit(t));
    NextIsLeast(s, t);
  }

  /* Counting */

  lemma {:induction false} CountMinutesSplit(fires: int -> bool, a: int, b: int, c: int)
    requires a <= b <= c
    ensures CountMinutes(fires, a, c) == CountMinutes(fires, a, b) + CountMinutes(fires, b, c)
    decreases c - b
  {
    if b < c {
      CountMinutesSplit(fires, a, b, c - 1);
    }
  }

  lemma {:induction false} CountMinutesZero(fires: int -> bool, a: int, b: int)
    ensures CountMinutes(fires, a, b) == 0 <==> forall k :: a < k <= b ==> !fires(k)
    decreases b - a
  {
    if a < b {
      CountMinutesZero(fires, a, b - 1);
    }
  }

  lemma CountSplit(s: Schedule, a: Time, b: Time, c: Time)
    requires a <= b <= c
    ensures Count(s, a, c) == Count(s, a, b) + Count(s, b, c)
  {
    CountMinutesSplit(s.fires, MinuteOf(a), MinuteOf(b), MinuteOf(c));
  }

  // No start in (a, b] exactly when the count is zero.
  lemma CountZero(s: Schedule, a: Time, b: Time)
    ensures Count(s, a, b) == 0 <==> forall x :: IsStart(s, x) ==> !(a < x <= b)
  {
    CountMinutesZero(s.fires, MinuteOf(a), MinuteOf(b));
    if Count(s, a, b) == 0 {
      forall x | IsStart(s, x)
        ensures !(a < x <= b)
      {
        assert !(MinuteOf(a) < MinuteOf(x) <= MinuteOf(b));
      }
    } else {
      var k :| MinuteOf(a) < k <= MinuteOf(b) && s.fires(k);
      assert MinuteOf(InstantOf(k)) == k;
      assert IsStart(s, InstantOf(k));
    }
  }

  // Stepping to the next start adds exactly one to the count.
  lemma CountStep(s: Schedule, a: Time, t: Time)
    requires a <= t && Next(s, t) != ZERO_TIME
    ensures Count(s, a, Next(s, t)) == Count(s, a, t) + 1
  {
    NextIsLeast(s, t);
    var n := Next(s, t);
    CountSplit(s, a, t, n);
    CountMinutesZero(s.fires, MinuteOf(t), MinuteOf(n) - 1);
    assert CountMinutes(s.fires, MinuteOf(t), MinuteOf(n) - 1) == 0 by {
      forall k | MinuteOf(t) < k <= MinuteOf(n) - 1
        ensures !s.fires(k)
      {
        assert MinuteOf(InstantOf(k)) == k && t < InstantOf(k) < n;
        assert IsStart(s, InstantOf(k)) <==> s.fires(k);
      }
    }
  }
}
