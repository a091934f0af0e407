/** Timed runs of the maintenance-window controller: how long a status stays right. */
module WindowRun {
  import opened Clock
  import opened CronWindows
  import opened Policies
  import opened Schedules
  import opened TimedRuns
  import opened WindowFold

  // A window that opens later than now opens no earlier than its reported next start.
  lemma NoStartBeforeNext(now: Time, zone: Timezone, w: WindowSpec, t: Time)
    requires Eval(now, zone, w).Ok? && WindowComplete(now, zone, w)
    requires !IsOpen(now, zone, w) && now <= t && WindowCovers(zone, w, t)
    ensures now < NextOf(now, zone, w) <= t
  {
    hide Next, PrevStart, MinuteOf, Count, Outcome;
    var s := w.schedule.inZone(zone);
    EvalShape(now, zone, w);
    ActiveIffCovered(now, zone, w.schedule, w.duration);
    NextFound(s, w.duration, now);
    NextIsLeast(s, now);
    var x :| IsStart(s, x) && x <= t < x + w.duration;
    assert !(IsStart(s, x) && x <= now < x + w.duration);
  }

  lemma ActiveStaysRight(now: Time, mw: MaintenanceWindow, t: Time)
    requires Evaluate(now, mw).Ok? && Evaluate(now, mw).value.active
    requires now <= t < now + Evaluate(now, mw).value.requeueAfter - SECOND
    ensures AnyCovers(mw.timezone, mw.windows, t)
  {
    hide Eval, Scan;
    var zone, ws, r := mw.timezone, mw.windows, Evaluate(now, mw).value.requeueAfter;
    EvaluateSucceedsIff(now, mw);
    ScanActive(now, zone, ws);
    var k :| 0 <= k < |ws| && IsOpen(now, zone, ws[k]);
    var i :| 0 <= i < |ws| && IsOpen(now, zone, ws[i]) && r - SECOND <= EndOf(now, zone, ws[i]) - now;
    EvalShape(now, zone, ws[i]);
    assert WindowCovers(zone, ws[i], t);
  }

  // The requeue arithmetic does not see a start: some window has no next start, so that the zero time
  // counts as the earliest one, and another opens before a second before the default delay is over.
  ghost predicate Blind(now: Time, mw: MaintenanceWindow)
    requires AllEvaluate(now, mw.timezone, mw.windows)
  {
    && (exists i :: 0 <= i < |mw.windows| && NextOf(now, mw.timezone, mw.windows[i]) == ZERO_TIME)
    && (exists i :: 0 <= i < |mw.windows| && now < NextOf(now, mw.timezone, mw.windows[i]) < now + FIVE_MINUTES - SECOND)
  }

  lemma CompleteIsAhead(now: Time, zone: Timezone, w: WindowSpec)
    requires Eval(now, zone, w).Ok? && WindowComplete(now, zone, w)
    ensures now < NextOf(now, zone, w)
  {
    hide Next, PrevStart, MinuteOf, Count, Outcome;
    EvalShape(now, zone, w);
    NextFound(w.schedule.inZone(zone), w.duration, now);
  }

  lemma LostIsZero(now: Time, zone: Timezone, w: WindowSpec)
    requires Eval(now, zone, w).Ok? && WindowLost(now, zone, w)
    ensures NextOf(now, zone, w) == ZERO_TIME <= now
  {
    hide Next, PrevStart, MinuteOf, Count, Outcome;
    EvalShape(now, zone, w);
  }

  // Inactive, with a window without a next start: the delay is the default.
  lemma ZeroTimeDelay(now: Time, mw: MaintenanceWindow, lost: nat)
    requires Evaluate(now, mw).Ok? && !Evaluate(now, mw).value.active && now >= ZERO_TIME
    requires lost < |mw.windows| && AllEvaluate(now, mw.timezone, mw.windows)
    requires NextOf(now, mw.timezone, mw.windows[lost]) == ZERO_TIME
    ensures Evaluate(now, mw).value.requeueAfter == FIVE_MINUTES
    ensures Evaluate(now, mw).value.nextWindow.Some? && Evaluate(now, mw).value.nextWindow.value.startTime <= ZERO_TIME
  {
    hide EvalWindow, Scan;
    ScanActive(now, mw.timezone, mw.windows);
    ScanNext(now, mw.timezone, mw.windows);
  }

  // Inactive, without one: the delay does not reach past the next start of any window.
  lemma NextIsAwaited(now: Time, mw: MaintenanceWindow, i: nat)
    requires Evaluate(now, mw).Ok? && !Evaluate(now, mw).value.active
    requires AllEvaluate(now, mw.timezone, mw.windows) && i < |mw.windows|
    requires forall j :: 0 <= j < |mw.windows| ==> now < NextOf(now, mw.timezone, mw.windows[j])
    ensures now + Evaluate(now, mw).value.requeueAfter - SECOND <= NextOf(now, mw.timezone, mw.windows[i])
  {
    hide EvalWindow, Scan;
    ScanActive(now, mw.timezone, mw.windows);
    ScanNext(now, mw.timezone, mw.windows);
  }

  lemma StartIsCovered(now: Time, mw: MaintenanceWindow, i: nat)
    requires AllEvaluate(now, mw.timezone, mw.windows) && i < |mw.windows|
    requires NextOf(now, mw.timezone, mw.windows[i]) != ZERO_TIME
    ensures AnyCovers(mw.timezone, mw.windows, NextOf(now, mw.timezone, mw.windows[i]))
  {
    hide EvalWindow, Next;
    var zone, w := mw.timezone, mw.windows[i];
    EvalShape(now, zone, w);
    var s, t := w.schedule.inZone(zone), NextOf(now, zone, w);
    NextIsLeast(s, now);
    assert IsStart(s, t);
    assert WindowCovers(zone, w, t);
  }

  lemma InactiveStaysRight(now: Time, mw: MaintenanceWindow, t: Time)
    requires Evaluate(now, mw).Ok? && !Evaluate(now, mw).value.active
    requires AllEvaluate(now, mw.timezone, mw.windows) && AllSettled(now, mw.timezone, mw.windows) && !Blind(now, mw)
    requires now <= t < now + Evaluate(now, mw).value.requeueAfter - SECOND
    ensures !AnyCovers(mw.timezone, mw.windows, t)
  {
    hide Eval, Evaluate, NextOf, WindowComplete, WindowCovers, IsOpen;
    var zone, ws := mw.timezone, mw.windows;
    RequeueBounds(now, mw);
    EvaluateStatus(now, mw);
    forall i | 0 <= i < |ws|
      ensures !WindowCovers(zone, ws[i], t)
    {
      assert !IsOpen(now, zone, ws[i]);
      if WindowComplete(now, zone, ws[i]) {
        if WindowCovers(zone, ws[i], t) {
          NoStartBeforeNext(now, zone, ws[i], t);
          BlindOtherwise(now, mw, i);
        }
      } else {
        LostStaysClosed(now, zone, ws[i], t);
      }
    }
  }

  // A start before a second before the requeue is one that the arithmetic did not see.
  lemma BlindOtherwise(now: Time, mw: MaintenanceWindow, i: nat)
    requires Evaluate(now, mw).Ok? && !Evaluate(now, mw).value.active
    requires AllEvaluate(now, mw.timezone, mw.windows) && AllSettled(now, mw.timezone, mw.windows)
    requires i < |mw.windows|
    requires now < NextOf(now, mw.timezone, mw.windows[i]) < now + Evaluate(now, mw).value.requeueAfter - SECOND
    ensures Blind(now, mw)
  {
    hide Eval, Evaluate, NextOf, WindowComplete, WindowLost;
    var zone, ws := mw.timezone, mw.windows;
    if j :| 0 <= j < |ws| && NextOf(now, zone, ws[j]) <= now {
      if WindowComplete(now, zone, ws[j]) {
        CompleteIsAhead(now, zone, ws[j]);
      } else {
        LostIsZero(now, zone, ws[j]);
        ZeroTimeDelay(now, mw, j);
      }
    } else {
      NextIsAwaited(now, mw, i);
    }
  }

  // One evaluation stays right until a second before the requeue it asks for.
  lemma StatusStaysRight(now: Time, mw: MaintenanceWindow, t: Time)
    requires Evaluate(now, mw).Ok? && AllEvaluate(now, mw.timezone, mw.windows) && AllSettled(now, mw.timezone, mw.windows)
    requires Evaluate(now, mw).value.active || !Blind(now, mw)
    requires now <= t < now + Evaluate(now, mw).value.requeueAfter - SECOND
    ensures Evaluate(now, mw).value.active <==> AnyCovers(mw.timezone, mw.windows, t)
  {
    hide Evaluate, AnyCovers, AllSettled, AllEvaluate, Blind;
    if Evaluate(now, mw).value.active {
      ActiveStaysRight(now, mw, t);
    } else {
      InactiveStaysRight(now, mw, t);
    }
  }

  // And otherwise it does not: at a start that the arithmetic did not see the status is still inactive.
  lemma BlindMisreads(now: Time, mw: MaintenanceWindow) returns (t: Time)
    requires Evaluate(now, mw).Ok? && AllEvaluate(now, mw.timezone, mw.windows) && now >= ZERO_TIME
    requires !Evaluate(now, mw).value.active && Blind(now, mw)
    ensures Evaluate(now, mw).value.requeueAfter == FIVE_MINUTES
    ensures now <= t < now + Evaluate(now, mw).value.requeueAfter - SECOND
    ensures AnyCovers(mw.timezone, mw.windows, t)
  {
    hide Evaluate, NextOf, AnyCovers, Eval;
    var zone, ws := mw.timezone, mw.windows;
    var lost :| 0 <= lost < |ws| && NextOf(now, zone, ws[lost]) == ZERO_TIME;
    var hidden :| 0 <= hidden < |ws| && now < NextOf(now, zone, ws[hidden]) < now + FIVE_MINUTES - SECOND;
    ZeroTimeDelay(now, mw, lost);
    StartIsCovered(now, mw, hidden);
    t := NextOf(now, zone, ws[hidden]);
  }

  lemma BlindIsLate(now: Time, mw: MaintenanceWindow)
    requires AllEvaluate(now, mw.timezone, mw.windows) && AllSettled(now, mw.timezone, mw.windows) && Blind(now, mw)
    ensures now >= ZERO_TIME
  {
    hide Count, NextOf;
    assert |mw.windows| > 0;
    assert WindowComplete(now, mw.timezone, mw.windows[0]) || WindowLost(now, mw.timezone, mw.windows[0]);
  }

  // So the exact condition, which the reported next starts decide: a status stays right until a second
  // before its requeue if and only if it is active or the requeue arithmetic is not blind.
  lemma StaysRightIff(now: Time, mw: MaintenanceWindow)
    requires Evaluate(now, mw).Ok? && AllEvaluate(now, mw.timezone, mw.windows) && AllSettled(now, mw.timezone, mw.windows)
    ensures var r := Evaluate(now, mw).value;
            (forall t :: now <= t < now + r.requeueAfter - SECOND ==>
               (r.active <==> AnyCovers(mw.timezone, mw.windows, t)))
            <==> r.active || !Blind(now, mw)
  {
    hide Evaluate, AnyCovers, AllSettled, AllEvaluate, Blind;
    var r := Evaluate(now, mw).value;
    if r.active || !Blind(now, mw) {
      forall t | now <= t < now + r.requeueAfter - SECOND
        ensures r.active <==> AnyCovers(mw.timezone, mw.windows, t)
      {
        StatusStaysRight(now, mw, t);
      }
    } else {
      BlindIsLate(now, mw);
      var t := BlindMisreads(now, mw);
    }
  }

  // Without a window that is lost, nothing is blind.
  lemma CompleteIsNotBlind(now: Time, mw: MaintenanceWindow)
    requires AllEvaluate(now, mw.timezone, mw.windows) && AllComplete(now, mw.timezone, mw.windows)
    ensures !Blind(now, mw) && AllSettled(now, mw.timezone, mw.windows)
  {
    hide Eval, NextOf, Count;
    forall i | 0 <= i < |mw.windows|
      ensures NextOf(now, mw.timezone, mw.windows[i]) != ZERO_TIME
    {
      assert WindowComplete(now, mw.timezone, mw.windows[i]);
      CompleteIsAhead(now, mw.timezone, mw.windows[i]);
    }
  }

  /* Runs */

  // The ticks are what the controller does for mw, in time.
  ghost predicate IsRunOf(mw: MaintenanceWindow, run: seq<Tick>) {
    && Timely(run)
    && forall i :: 0 <= i < |run| ==>
         && Evaluate(run[i].at, mw).Ok?
         && run[i].verdict == Evaluate(run[i].at, mw).value.active
         && run[i].requeueAfter == Evaluate(run[i].at, mw).value.requeueAfter
  }

  // At each reconcile every window is complete or lost.
  ghost predicate RunSettled(mw: MaintenanceWindow, run: seq<Tick>) {
    forall i :: 0 <= i < |run| ==>
      && AllEvaluate(run[i].at, mw.timezone, mw.windows)
      && AllSettled(run[i].at, mw.timezone, mw.windows)
  }

  // A reconcile that is followed by another is active, or its requeue arithmetic is not blind.
  ghost predicate RunSighted(mw: MaintenanceWindow, run: seq<Tick>)
    requires RunSettled(mw, run)
  {
    forall i :: 0 <= i < |run| - 1 ==> run[i].verdict || !Blind(run[i].at, mw)
  }

  // The status is right at t, or a reconcile is less than a second away.
  ghost predicate AccurateAt(mw: MaintenanceWindow, run: seq<Tick>, t: Time)
    requires |run| > 0
  {
    (FlagAt(run, t) <==> AnyCovers(mw.timezone, mw.windows, t)) || LastSecond(run, t)
  }

  lemma TickStaysRight(mw: MaintenanceWindow, run: seq<Tick>, i: nat)
    requires IsRunOf(mw, run) && RunSettled(mw, run) && i < |run| && (run[i].verdict || !Blind(run[i].at, mw))
    ensures StaysRight(run[i], t => AnyCovers(mw.timezone, mw.windows, t))
  {
    hide Evaluate, AnyCovers, AllSettled, AllEvaluate, Blind;
    var tick := run[i];
    forall t | tick.at <= t < tick.at + tick.requeueAfter - SECOND
      ensures tick.verdict <==> AnyCovers(mw.timezone, mw.windows, t)
    {
      StatusStaysRight(tick.at, mw, t);
    }
  }

  // Over every timed run, at every instant between the first and the last reconcile:
  // status.active says whether some window really is open, or a reconcile is less than a second away.
  lemma RunAccuracy(mw: MaintenanceWindow, run: seq<Tick>, t: Time)
    requires IsRunOf(mw, run) && run[0].at <= t < run[|run| - 1].at
    requires RunSettled(mw, run) && RunSighted(mw, run)
    ensures AccurateAt(mw, run, t)
  {
    hide Evaluate, AnyCovers, AllSettled, AllEvaluate, Blind, StaysRight;
    var truth := (u: Time) => AnyCovers(mw.timezone, mw.windows, u);
    forall i | 0 <= i < |run| - 1
      ensures StaysRight(run[i], truth)
    {
      TickStaysRight(mw, run, i);
    }
    FlagIsAccurate(run, truth, t);
  }

  // In particular when every window is complete at every reconcile.
  lemma RunAccuracyComplete(mw: MaintenanceWindow, run: seq<Tick>, t: Time)
    requires IsRunOf(mw, run) && run[0].at <= t < run[|run| - 1].at
    requires forall i :: 0 <= i < |run| ==> AllComplete(run[i].at, mw.timezone, mw.windows)
    ensures AccurateAt(mw, run, t)
  {
    hide Evaluate, AllComplete, AllEvaluate, AllSettled, Blind, AccurateAt;
    forall i | 0 <= i < |run|
      ensures AllEvaluate(run[i].at, mw.timezone, mw.windows) && AllSettled(run[i].at, mw.timezone, mw.windows)
      ensures !Blind(run[i].at, mw)
    {
      EvaluateSucceedsIff(run[i].at, mw);
      CompleteIsNotBlind(run[i].at, mw);
    }
    RunAccuracy(mw, run, t);
  }

  // For prompt runs that is the exact condition: the status is right throughout, but for the last
  // seconds, if and only if no reconcile on the way was blind while inactive.
  lemma RunAccurateIff(mw: MaintenanceWindow, run: seq<Tick>)
    requires IsRunOf(mw, run) && Prompt(run) && RunSettled(mw, run)
    ensures (forall t :: run[0].at <= t < run[|run| - 1].at ==> AccurateAt(mw, run, t)) <==> RunSighted(mw, run)
  {
    hide Evaluate, AnyCovers, AllSettled, AllEvaluate, Blind, FlagAt, LastSecond;
    if RunSighted(mw, run) {
      forall t | run[0].at <= t < run[|run| - 1].at
        ensures AccurateAt(mw, run, t)
      {
        RunAccuracy(mw, run, t);
      }
    } else {
      var i :| 0 <= i < |run| - 1 && !run[i].verdict && Blind(run[i].at, mw);
      BlindIsLate(run[i].at, mw);
      var t := BlindMisreads(run[i].at, mw);
      FlagBetween(run, i, t);
      if i > 0 {
        RunSorted(run, 0, i);
      }
      if i + 1 < |run| - 1 {
        RunSorted(run, i + 1, |run| - 1);
      }
      assert !AccurateAt(mw, run, t);
    }
  }

  // Prompt reconciles never pile up: n + 1 of them span at least n seconds.
  lemma ReconcilesSpread(mw: MaintenanceWindow, run: seq<Tick>)
    requires IsRunOf(mw, run) && Prompt(run)
    ensures run[|run| - 1].at >= run[0].at + (|run| - 1) * SECOND
  {
    hide Evaluate;
    forall i | 0 <= i < |run|
      ensures run[i].requeueAfter > SECOND
    {
      RequeueBounds(run[i].at, mw);
    }
    RunProgress(run);
  }
}
