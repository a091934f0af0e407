/** The maintenance-window controller's fold of many windows into one status and one requeue delay. */
module WindowFold {
  import opened Clock
  import opened CronWindows
  import opened Policies
  import opened Wrappers

  datatype WindowStatus = WindowStatus(name: string, startTime: Time, endTime: Time)

  datatype EvaluationResult = EvaluationResult(
    active: bool,
    activeWindow: Option<WindowStatus>,
    nextWindow: Option<WindowStatus>,
    requeueAfter: Duration)

  datatype FoldError = UnsupportedMode | WindowFailed(name: string, error: EvalError)

  // Loop state: the result so far and the earliest next start seen.
  datatype Progress = Progress(result: EvaluationResult, earliestNext: Option<Time>)

  const START: Progress := Progress(EvaluationResult(false, None, None, FIVE_MINUTES), None)

  function AbsorbActive(r: EvaluationResult, name: string, start: Time, end: Time, now: Time): EvaluationResult {
    var timeUntilEnd := Sub(end, now);
    r.(active := true,
       activeWindow := Some(WindowStatus(name, start, end)),
       requeueAfter := if 0 < timeUntilEnd < r.requeueAfter then timeUntilEnd + SECOND else r.requeueAfter)
  }

  function AbsorbNext(p: Progress, w: WindowSpec, next: Time): Progress {
    if p.earliestNext.None? || next < p.earliestNext.value
    then Progress(p.result.(nextWindow := Some(WindowStatus(w.name, next, next + w.duration))), Some(next))
    else p
  }

  function Absorb(p: Progress, w: WindowSpec, res: EvaluatedWindow, now: Time): Progress
    requires res.active ==> res.activeStart.Some? && res.activeEnd.Some?
  {
    var p' := if res.active
              then p.(result := AbsorbActive(p.result, w.name, res.activeStart.value, res.activeEnd.value, now))
              else p;
    if res.nextStart.Some? then AbsorbNext(p', w, res.nextStart.value) else p'
  }

  // The windows absorbed from first to last; the first failure ends the fold.
  function Scan(now: Time, zone: Timezone, ws: seq<WindowSpec>): Result<Progress, FoldError>
    decreases |ws|
  {
    if |ws| == 0 then Ok(START)
    else
      var last := ws[|ws| - 1];
      match Scan(now, zone, ws[..|ws| - 1])
      case Err(e) => Err(e)
      case Ok(p) =>
        match Eval(now, zone, last)
        case Err(e) => Err(WindowFailed(last.name, e))
        case Ok(res) => Ok(Absorb(p, last, res, now))
  }

  function Finish(p: Progress, now: Time): EvaluationResult {
    if !p.result.active && p.earliestNext.Some? then
      var timeUntilNext := Sub(p.earliestNext.value, now);
      if 0 < timeUntilNext < p.result.requeueAfter
      then p.result.(requeueAfter := timeUntilNext + SECOND)
      else p.result
    else p.result
  }

  function Evaluate(now: Time, mw: MaintenanceWindow): Result<EvaluationResult, FoldError> {
    if mw.mode != DenyOutsideWindows then Err(UnsupportedMode)
    else
      match Scan(now, mw.timezone, mw.windows)
      case Err(e) => Err(e)
      case Ok(p) => Ok(Finish(p, now))
  }

  method EvaluateWindows(now: Time, mw: MaintenanceWindow) returns (r: Result<EvaluationResult, FoldError>)
    ensures r == Evaluate(now, mw)
  {
    hide EvalWindow;
    if mw.mode != DenyOutsideWindows {
      return Err(UnsupportedMode);
    }
    var result := EvaluationResult(false, None, None, FIVE_MINUTES);
    var earliestNext: Option<Time> := None;
    var ws := mw.windows;
    for i := 0 to |ws|
      invariant Scan(now, mw.timezone, ws[..i]) == Ok(Progress(result, earliestNext))
    {
      var w := ws[i];
      var res := EvalCronWindow(now, mw.timezone, w.schedule, w.duration);
      assert ws[..i + 1][..i] == ws[..i];
      if res.Err? {
        ScanFailsEarly(now, mw.timezone, ws, i + 1);
        return Err(WindowFailed(w.name, res.error));
      }
      EvalShape(now, mw.timezone, w);
      if res.value.active {
        var start, end := res.value.activeStart.value, res.value.activeEnd.value;
        result := result.(active := true, activeWindow := Some(WindowStatus(w.name, start, end)));
        var timeUntilEnd := Sub(end, now);
        if timeUntilEnd > 0 && timeUntilEnd < result.requeueAfter {
          result := result.(requeueAfter := timeUntilEnd + SECOND);
        }
      }
      if res.value.nextStart.Some? {
        var next := res.value.nextStart.value;
        if earliestNext.None? || next < earliestNext.value {
          earliestNext := Some(next);
          result := result.(nextWindow := Some(WindowStatus(w.name, next, next + w.duration)));
        }
      }
    }
    assert ws[..|ws|] == ws;
    if !result.active && earliestNext.Some? {
      var timeUntilNext := Sub(earliestNext.value, now);
      if timeUntilNext > 0 && timeUntilNext < result.requeueAfter {
        result := result.(requeueAfter := timeUntilNext + SECOND);
      }
    }
    return Ok(result);
  }

  // A failure among the first n windows is the failure of the whole fold.
  lemma {:induction false} ScanFailsEarly(now: Time, zone: Timezone, ws: seq<WindowSpec>, n: nat)
    requires n <= |ws| && Scan(now, zone, ws[..n]).Err?
    ensures Scan(now, zone, ws) == Scan(now, zone, ws[..n])
    decreases |ws|
  {
    hide EvalWindow;
    hide Absorb;
    if n == |ws| {
      assert ws[..n] == ws;
    } else {
      var front := ws[..|ws| - 1];
      assert front[..n] == ws[..n];
      ScanFailsEarly(now, zone, front, n);
    }
  }

  /* What the fold computes */

  ghost function OpenCount(now: Time, zone: Timezone, ws: seq<WindowSpec>): nat
    decreases |ws|
  {
    if |ws| == 0 then 0
    else OpenCount(now, zone, ws[..|ws| - 1]) + if IsOpen(now, zone, ws[|ws| - 1]) then 1 else 0
  }

  ghost function EndOf(now: Time, zone: Timezone, w: WindowSpec): Time
    requires IsOpen(now, zone, w)
  {
    Eval(now, zone, w).value.activeEnd.value
  }

  ghost function NextOf(now: Time, zone: Timezone, w: WindowSpec): Time
    requires Eval(now, zone, w).Ok?
  {
    Eval(now, zone, w).value.nextStart.value
  }

  // Some open window stays open for another d.
  ghost predicate OpenFor(now: Time, zone: Timezone, ws: seq<WindowSpec>, d: Duration) {
    exists i :: 0 <= i < |ws| && IsOpen(now, zone, ws[i]) && d <= EndOf(now, zone, ws[i]) - now
  }

  ghost predicate AllOpenFor(now: Time, zone: Timezone, ws: seq<WindowSpec>, d: Duration) {
    forall i :: 0 <= i < |ws| && IsOpen(now, zone, ws[i]) ==> d <= EndOf(now, zone, ws[i]) - now
  }

  // t is the least next start, and status names a window that starts then.
  ghost predicate NamesEarliest(now: Time, zone: Timezone, ws: seq<WindowSpec>, t: Time, status: WindowStatus)
    requires AllEvaluate(now, zone, ws)
  {
    && (forall i :: 0 <= i < |ws| ==> t <= NextOf(now, zone, ws[i]))
    && (exists i :: 0 <= i < |ws| && NextOf(now, zone, ws[i]) == t
                    && status == WindowStatus(ws[i].name, t, t + ws[i].duration))
  }

  // The status names the last open window of the list, with its own start and end.
  ghost predicate NamesLastOpen(now: Time, zone: Timezone, ws: seq<WindowSpec>, status: WindowStatus) {
    exists i :: 0 <= i < |ws| && IsOpen(now, zone, ws[i]) && status.name == ws[i].name
                && status.endTime == EndOf(now, zone, ws[i]) && status.startTime == status.endTime - ws[i].duration
                && forall j :: i < j < |ws| ==> !IsOpen(now, zone, ws[j])
  }

  lemma {:induction false} ScanSucceedsIff(now: Time, zone: Timezone, ws: seq<WindowSpec>)
    ensures Scan(now, zone, ws).Ok? <==> AllEvaluate(now, zone, ws)
    decreases |ws|
  {
    hide EvalWindow, Absorb;
    if |ws| > 0 {
      ScanSucceedsIff(now, zone, ws[..|ws| - 1]);
    }
  }

  // One turn of the loop, as far as the active flag and the delay are concerned.
  lemma ScanStep(now: Time, zone: Timezone, ws: seq<WindowSpec>)
    requires |ws| > 0 && AllEvaluate(now, zone, ws)
    ensures var n := |ws| - 1;
            && Scan(now, zone, ws[..n]).Ok? && Scan(now, zone, ws).Ok?
            && var before, after := Scan(now, zone, ws[..n]).value.result, Scan(now, zone, ws).value.result;
            if !IsOpen(now, zone, ws[n]) then
              after.active == before.active && after.requeueAfter == before.requeueAfter
            else
              var left := EndOf(now, zone, ws[n]) - now;
              && after.active && left > 0
              && after.requeueAfter == if Sub(EndOf(now, zone, ws[n]), now) < before.requeueAfter
                                       then Sub(EndOf(now, zone, ws[n]), now) + SECOND
                                       else before.requeueAfter
  {
    hide EvalWindow;
    ScanSucceedsIff(now, zone, ws);
    EvalShape(now, zone, ws[|ws| - 1]);
  }

  // The active flag and the requeue delay after the loop.
  lemma {:induction false} ScanActive(now: Time, zone: Timezone, ws: seq<WindowSpec>)
    requires AllEvaluate(now, zone, ws)
    ensures Scan(now, zone, ws).Ok?
    ensures var r := Scan(now, zone, ws).value.result;
            && (r.active <==> AnyOpen(now, zone, ws))
            && (OpenFor(now, zone, ws, r.requeueAfter - SECOND)
                || (r.requeueAfter == FIVE_MINUTES && AllOpenFor(now, zone, ws, FIVE_MINUTES)))
            && SECOND < r.requeueAfter <= FIVE_MINUTES + OpenCount(now, zone, ws) * SECOND
    decreases |ws|
  {
    hide Eval, Absorb;
    if |ws| > 0 {
      var n := |ws| - 1;
      var front := ws[..n];
      ScanActive(now, zone, front);
      ScanStep(now, zone, ws);
      var before := Scan(now, zone, front).value.result;
      AnyOpenSplits(now, zone, ws);
      if OpenFor(now, zone, front, before.requeueAfter - SECOND) {
        var i :| 0 <= i < |front| && IsOpen(now, zone, front[i])
                 && before.requeueAfter - SECOND <= EndOf(now, zone, front[i]) - now;
        assert IsOpen(now, zone, ws[i]);
      }
    }
  }

  // One turn of the loop, as far as the next window is concerned.
  lemma ScanStepNext(now: Time, zone: Timezone, ws: seq<WindowSpec>)
    requires |ws| > 0 && AllEvaluate(now, zone, ws)
    ensures var n := |ws| - 1;
            && Scan(now, zone, ws[..n]).Ok? && Scan(now, zone, ws).Ok?
            && var before, after := Scan(now, zone, ws[..n]).value, Scan(now, zone, ws).value;
            var t := NextOf(now, zone, ws[n]);
            if before.earliestNext.None? || t < before.earliestNext.value then
              after.earliestNext == Some(t)
              && after.result.nextWindow == Some(WindowStatus(ws[n].name, t, t + ws[n].duration))
            else
              after.earliestNext == before.earliestNext && after.result.nextWindow == before.result.nextWindow
  {
    hide EvalWindow;
    ScanSucceedsIff(now, zone, ws);
    EvalShape(now, zone, ws[|ws| - 1]);
  }

  // The earliest next start, and the window the status names.
  lemma {:induction false} ScanNext(now: Time, zone: Timezone, ws: seq<WindowSpec>)
    requires AllEvaluate(now, zone, ws)
    ensures Scan(now, zone, ws).Ok?
    ensures var p := Scan(now, zone, ws).value;
            if |ws| == 0 then p.earliestNext == None && p.result.nextWindow == None
            else
              && p.earliestNext.Some? && p.result.nextWindow.Some?
              && NamesEarliest(now, zone, ws, p.earliestNext.value, p.result.nextWindow.value)
    decreases |ws|
  {
    hide Eval, Absorb;
    if |ws| > 0 {
      var n := |ws| - 1;
      var front := ws[..n];
      ScanNext(now, zone, front);
      ScanStepNext(now, zone, ws);
      var before, after := Scan(now, zone, front).value, Scan(now, zone, ws).value;
      if n > 0 && after.earliestNext == before.earliestNext {
        var t := before.earliestNext.value;
        var i :| 0 <= i < |front| && NextOf(now, zone, front[i]) == t
                 && before.result.nextWindow.value == WindowStatus(front[i].name, t, t + front[i].duration);
        assert NextOf(now, zone, ws[i]) == t;
      } else {
        assert NextOf(now, zone, ws[n]) == after.earliestNext.value;
      }
    }
  }

  // One turn of the loop, as far as the active window is concerned.
  lemma ScanStepOpen(now: Time, zone: Timezone, ws: seq<WindowSpec>)
    requires |ws| > 0 && AllEvaluate(now, zone, ws)
    ensures var n := |ws| - 1;
            && Scan(now, zone, ws[..n]).Ok? && Scan(now, zone, ws).Ok?
            && var before, after := Scan(now, zone, ws[..n]).value.result, Scan(now, zone, ws).value.result;
            if !IsOpen(now, zone, ws[n]) then after.activeWindow == before.activeWindow
            else
              var end := EndOf(now, zone, ws[n]);
              after.activeWindow == Some(WindowStatus(ws[n].name, end - ws[n].duration, end))
  {
    hide EvalWindow;
    ScanSucceedsIff(now, zone, ws);
    EvalShape(now, zone, ws[|ws| - 1]);
  }

  lemma LastOpenKept(now: Time, zone: Timezone, ws: seq<WindowSpec>, status: WindowStatus)
    requires |ws| > 0 && !IsOpen(now, zone, ws[|ws| - 1]) && NamesLastOpen(now, zone, ws[..|ws| - 1], status)
    ensures NamesLastOpen(now, zone, ws, status)
  {
    hide IsOpen, EndOf;
    var front := ws[..|ws| - 1];
    var i :| 0 <= i < |front| && IsOpen(now, zone, front[i]) && status.name == front[i].name
             && status.endTime == EndOf(now, zone, front[i]) && status.startTime == status.endTime - front[i].duration
             && forall j :: i < j < |front| ==> !IsOpen(now, zone, front[j]);
    forall j | i < j < |ws|
      ensures !IsOpen(now, zone, ws[j])
    {
      assert j < |front| ==> ws[j] == front[j];
    }
    assert IsOpen(now, zone, ws[i]);
  }

  lemma LastOpenReplaced(now: Time, zone: Timezone, ws: seq<WindowSpec>, status: WindowStatus)
    requires |ws| > 0 && IsOpen(now, zone, ws[|ws| - 1])
    requires var end := EndOf(now, zone, ws[|ws| - 1]);
             status == WindowStatus(ws[|ws| - 1].name, end - ws[|ws| - 1].duration, end)
    ensures NamesLastOpen(now, zone, ws, status)
  {
    hide IsOpen, EndOf;
    assert IsOpen(now, zone, ws[|ws| - 1]);
  }

  lemma AnyOpenSplits(now: Time, zone: Timezone, ws: seq<WindowSpec>)
    requires |ws| > 0
    ensures AnyOpen(now, zone, ws) <==> AnyOpen(now, zone, ws[..|ws| - 1]) || IsOpen(now, zone, ws[|ws| - 1])
  {
    hide IsOpen;
    var front := ws[..|ws| - 1];
    if AnyOpen(now, zone, front) {
      var i :| 0 <= i < |front| && IsOpen(now, zone, front[i]);
      assert IsOpen(now, zone, ws[i]);
    }
  }

  lemma {:induction false} ScanOpen(now: Time, zone: Timezone, ws: seq<WindowSpec>)
    requires AllEvaluate(now, zone, ws)
    ensures Scan(now, zone, ws).Ok?
    ensures var status := Scan(now, zone, ws).value.result.activeWindow;
            && (status.Some? <==> AnyOpen(now, zone, ws))
            && (status.Some? ==> NamesLastOpen(now, zone, ws, status.value))
    decreases |ws|
  {
    hide Eval, Absorb, IsOpen, EndOf, NamesLastOpen;
    if |ws| > 0 {
      var n := |ws| - 1;
      ScanOpen(now, zone, ws[..n]);
      ScanStepOpen(now, zone, ws);
      AnyOpenSplits(now, zone, ws);
      var status := Scan(now, zone, ws).value.result.activeWindow;
      if IsOpen(now, zone, ws[n]) {
        LastOpenReplaced(now, zone, ws, status.value);
      } else if status.Some? {
        LastOpenKept(now, zone, ws, status.value);
      }
    }
  }

  lemma EvaluateSucceedsIff(now: Time, mw: MaintenanceWindow)
    ensures Evaluate(now, mw).Ok? <==> mw.mode == DenyOutsideWindows && AllEvaluate(now, mw.timezone, mw.windows)
  {
    hide EvalWindow, Scan, Finish;
    ScanSucceedsIff(now, mw.timezone, mw.windows);
  }

  // The failure is the unsupported mode or that of the first window that does not evaluate.
  lemma {:induction false} ScanFailsFirst(now: Time, zone: Timezone, ws: seq<WindowSpec>, i: nat)
    requires i < |ws| && Eval(now, zone, ws[i]).Err?
    requires forall j :: 0 <= j < i ==> Eval(now, zone, ws[j]).Ok?
    ensures Scan(now, zone, ws) == Err(WindowFailed(ws[i].name, Eval(now, zone, ws[i]).error))
    decreases |ws|
  {
    hide EvalWindow, Absorb;
    var n := |ws| - 1;
    if i < n {
      ScanFailsFirst(now, zone, ws[..n], i);
    } else {
      ScanSucceedsIff(now, zone, ws[..n]);
    }
  }

  lemma EvaluateFailsFirst(now: Time, mw: MaintenanceWindow, i: nat)
    ensures mw.mode != DenyOutsideWindows ==> Evaluate(now, mw) == Err(UnsupportedMode)
    ensures mw.mode == DenyOutsideWindows && i < |mw.windows| && Eval(now, mw.timezone, mw.windows[i]).Err?
            && (forall j :: 0 <= j < i ==> Eval(now, mw.timezone, mw.windows[j]).Ok?)
            ==> Evaluate(now, mw) == Err(WindowFailed(mw.windows[i].name, Eval(now, mw.timezone, mw.windows[i]).error))
  {
    hide EvalWindow, Scan, Finish;
    if mw.mode == DenyOutsideWindows && i < |mw.windows| && Eval(now, mw.timezone, mw.windows[i]).Err?
       && (forall j :: 0 <= j < i ==> Eval(now, mw.timezone, mw.windows[j]).Ok?) {
      ScanFailsFirst(now, mw.timezone, mw.windows, i);
    }
  }

  // The whole status: open now or not, the last open window, and if any window is listed, the
  // earliest next one by name.
  lemma EvaluateStatus(now: Time, mw: MaintenanceWindow)
    requires Evaluate(now, mw).Ok?
    ensures AllEvaluate(now, mw.timezone, mw.windows)
    ensures var r := Evaluate(now, mw).value;
            && (r.active <==> AnyOpen(now, mw.timezone, mw.windows))
            && (r.active <==> r.activeWindow.Some?)
            && (r.active ==> NamesLastOpen(now, mw.timezone, mw.windows, r.activeWindow.value))
            && (r.nextWindow.Some? <==> |mw.windows| > 0)
            && (r.nextWindow.Some? ==>
                  NamesEarliest(now, mw.timezone, mw.windows, r.nextWindow.value.startTime, r.nextWindow.value))
  {
    hide EvalWindow, Scan;
    EvaluateSucceedsIff(now, mw);
    ScanActive(now, mw.timezone, mw.windows);
    ScanNext(now, mw.timezone, mw.windows);
    ScanOpen(now, mw.timezone, mw.windows);
  }

  // The requeue delay is always more than a second; k open windows can stretch it to at most
  // five minutes and k seconds, and without an open window it stays under five minutes and a second.
  lemma RequeueBounds(now: Time, mw: MaintenanceWindow)
    requires Evaluate(now, mw).Ok?
    ensures var r := Evaluate(now, mw).value;
            && SECOND < r.requeueAfter
            && (r.active ==> r.requeueAfter <= FIVE_MINUTES + OpenCount(now, mw.timezone, mw.windows) * SECOND)
            && (!r.active ==> r.requeueAfter < FIVE_MINUTES + SECOND)
  {
    hide EvalWindow, Scan;
    EvaluateSucceedsIff(now, mw);
    ScanActive(now, mw.timezone, mw.windows);
    if !Evaluate(now, mw).value.active {
      NothingOpen(now, mw.timezone, mw.windows);
    }
  }

  lemma {:induction false} NothingOpen(now: Time, zone: Timezone, ws: seq<WindowSpec>)
    requires !AnyOpen(now, zone, ws)
    ensures OpenCount(now, zone, ws) == 0
    decreases |ws|
  {
    hide IsOpen;
    if |ws| > 0 {
      NothingOpen(now, zone, ws[..|ws| - 1]);
    }
  }

  /* The delay of a closed policy, and of one whose ends are far */

  // Nothing is open, so nothing has touched the default.
  lemma {:induction false} ScanKeepsDelay(now: Time, zone: Timezone, ws: seq<WindowSpec>)
    requires AllEvaluate(now, zone, ws) && AllOpenFor(now, zone, ws, FIVE_MINUTES)
    ensures Scan(now, zone, ws).Ok? && Scan(now, zone, ws).value.result.requeueAfter == FIVE_MINUTES
    decreases |ws|
  {
    hide Eval, Absorb, IsOpen, EndOf, AllOpenFor;
    ScanActive(now, zone, ws);
    if |ws| > 0 {
      EndsSplit(now, zone, ws, FIVE_MINUTES);
      ScanKeepsDelay(now, zone, ws[..|ws| - 1]);
      ScanStep(now, zone, ws);
    }
  }

  // Open, with every end at least five minutes off: the default.
  lemma RequeueFarEnds(now: Time, mw: MaintenanceWindow)
    requires mw.mode == DenyOutsideWindows && AllEvaluate(now, mw.timezone, mw.windows)
    requires AnyOpen(now, mw.timezone, mw.windows) && AllOpenFor(now, mw.timezone, mw.windows, FIVE_MINUTES)
    ensures Evaluate(now, mw).Ok? && Evaluate(now, mw).value.requeueAfter == FIVE_MINUTES
  {
    hide EvalWindow, Scan, IsOpen, EndOf;
    ScanActive(now, mw.timezone, mw.windows);
    ScanKeepsDelay(now, mw.timezone, mw.windows);
  }

  // Closed: a second past the least next start if that lies ahead by less than five minutes, and the
  // default if it lies further off, is no later than now, or there are no windows at all.
  lemma RequeueAtNextStart(now: Time, mw: MaintenanceWindow, next: Time)
    requires mw.mode == DenyOutsideWindows && AllEvaluate(now, mw.timezone, mw.windows)
    requires !AnyOpen(now, mw.timezone, mw.windows)
    requires |mw.windows| > 0 ==>
               && (forall i :: 0 <= i < |mw.windows| ==> next <= NextOf(now, mw.timezone, mw.windows[i]))
               && (exists i :: 0 <= i < |mw.windows| && NextOf(now, mw.timezone, mw.windows[i]) == next)
    ensures Evaluate(now, mw).Ok?
    ensures Evaluate(now, mw).value.requeueAfter ==
              if |mw.windows| > 0 && now < next && next - now < FIVE_MINUTES then next - now + SECOND else FIVE_MINUTES
  {
    hide EvalWindow, Scan, NextOf;
    var zone, ws := mw.timezone, mw.windows;
    ScanActive(now, zone, ws);
    ScanNext(now, zone, ws);
    assert AllOpenFor(now, zone, ws, FIVE_MINUTES);
    ScanKeepsDelay(now, zone, ws);
  }

  /* The delay and the first end */

  // The first end among the open windows comes in d, which is under five minutes.
  ghost predicate FirstEndIn(now: Time, zone: Timezone, ws: seq<WindowSpec>, d: Duration) {
    && d < FIVE_MINUTES
    && EndsIn(now, zone, ws, d)
    && AllOpenFor(now, zone, ws, d)
  }

  ghost predicate EndsIn(now: Time, zone: Timezone, ws: seq<WindowSpec>, d: Duration) {
    exists i :: 0 <= i < |ws| && IsOpen(now, zone, ws[i]) && EndOf(now, zone, ws[i]) - now == d
  }

  // An open window listed after the last one that ends in d ends later, but by less than a second.
  ghost predicate Slips(now: Time, zone: Timezone, ws: seq<WindowSpec>, d: Duration) {
    exists i :: 0 <= i < |ws| && SlipsAt(now, zone, ws, d, i)
  }

  // The window at i slips: it ends less than a second after d, and nothing listed after it ends in d.
  ghost predicate SlipsAt(now: Time, zone: Timezone, ws: seq<WindowSpec>, d: Duration, i: nat)
    requires i < |ws|
  {
    && IsOpen(now, zone, ws[i]) && d < EndOf(now, zone, ws[i]) - now < d + SECOND
    && forall j :: i < j < |ws| && IsOpen(now, zone, ws[j]) ==> EndOf(now, zone, ws[j]) - now != d
  }

  // What one more window at the end of the list means for all this.
  lemma EndsSplit(now: Time, zone: Timezone, ws: seq<WindowSpec>, d: Duration)
    requires |ws| > 0
    ensures var front, w := ws[..|ws| - 1], ws[|ws| - 1];
            && (AllOpenFor(now, zone, ws, d) <==>
                  AllOpenFor(now, zone, front, d) && (IsOpen(now, zone, w) ==> d <= EndOf(now, zone, w) - now))
            && (EndsIn(now, zone, ws, d) <==>
                  EndsIn(now, zone, front, d) || (IsOpen(now, zone, w) && EndOf(now, zone, w) - now == d))
  {
    hide IsOpen, EndOf;
    var front := ws[..|ws| - 1];
    assert forall i :: 0 <= i < |front| ==> front[i] == ws[i];
    if EndsIn(now, zone, front, d) {
      var i :| 0 <= i < |front| && IsOpen(now, zone, front[i]) && EndOf(now, zone, front[i]) - now == d;
      assert IsOpen(now, zone, ws[i]);
    }
  }

  lemma SlipsAtSplit(now: Time, zone: Timezone, ws: seq<WindowSpec>, d: Duration, i: nat)
    requires i < |ws| - 1
    ensures var front, w := ws[..|ws| - 1], ws[|ws| - 1];
            SlipsAt(now, zone, ws, d, i) <==>
              SlipsAt(now, zone, front, d, i) && !(IsOpen(now, zone, w) && EndOf(now, zone, w) - now == d)
  {
    hide IsOpen, EndOf;
    var front := ws[..|ws| - 1];
    assert forall j :: 0 <= j < |front| ==> front[j] == ws[j];
  }

  lemma SlipsSplit(now: Time, zone: Timezone, ws: seq<WindowSpec>, d: Duration)
    requires |ws| > 0
    ensures var front, w := ws[..|ws| - 1], ws[|ws| - 1];
            Slips(now, zone, ws, d) <==>
              if IsOpen(now, zone, w) && EndOf(now, zone, w) - now == d then false
              else Slips(now, zone, front, d) || (IsOpen(now, zone, w) && d < EndOf(now, zone, w) - now < d + SECOND)
  {
    hide SlipsAt, IsOpen, EndOf;
    var n := |ws| - 1;
    forall i | 0 <= i < n
      ensures SlipsAt(now, zone, ws, d, i) <==>
                SlipsAt(now, zone, ws[..n], d, i) && !(IsOpen(now, zone, ws[n]) && EndOf(now, zone, ws[n]) - now == d)
    {
      SlipsAtSplit(now, zone, ws, d, i);
    }
    assert SlipsAt(now, zone, ws, d, n) <==> IsOpen(now, zone, ws[n]) && d < EndOf(now, zone, ws[n]) - now < d + SECOND by {
      SlipsAtEnd(now, zone, ws, d);
    }
  }

  lemma SlipsAtEnd(now: Time, zone: Timezone, ws: seq<WindowSpec>, d: Duration)
    requires |ws| > 0
    ensures var w := ws[|ws| - 1];
            SlipsAt(now, zone, ws, d, |ws| - 1) <==> IsOpen(now, zone, w) && d < EndOf(now, zone, w) - now < d + SECOND
  {
    hide IsOpen, EndOf;
  }

  // The delay while the list is worked through: past d all along, and from the first end in d on at
  // least a second past it, exactly a second unless it has slipped since.
  lemma {:induction false} ScanDelay(now: Time, zone: Timezone, ws: seq<WindowSpec>, d: Duration)
    requires AllEvaluate(now, zone, ws) && d < FIVE_MINUTES && AllOpenFor(now, zone, ws, d)
    ensures Scan(now, zone, ws).Ok?
    ensures var r := Scan(now, zone, ws).value.result.requeueAfter;
            && d < r <= FIVE_MINUTES + OpenCount(now, zone, ws) * SECOND
            && (EndsIn(now, zone, ws, d) ==> r >= d + SECOND && (r == d + SECOND <==> !Slips(now, zone, ws, d)))
    decreases |ws|
  {
    hide Eval, Absorb, IsOpen, EndOf, EndsIn, Slips, AllOpenFor;
    ScanActive(now, zone, ws);
    if |ws| > 0 {
      EndsSplit(now, zone, ws, d);
      SlipsSplit(now, zone, ws, d);
      ScanDelay(now, zone, ws[..|ws| - 1], d);
      ScanStep(now, zone, ws);
    } else {
      NothingEnds(now, zone, ws, d);
    }
  }

  lemma NothingEnds(now: Time, zone: Timezone, ws: seq<WindowSpec>, d: Duration)
    requires |ws| == 0
    ensures !EndsIn(now, zone, ws, d)
  {}

  // The delay never comes before a second past the first end, and it is exactly that if and only if
  // no end listed later slips in less than a second after it.
  lemma RequeueAtFirstEndIff(now: Time, mw: MaintenanceWindow, d: Duration)
    requires mw.mode == DenyOutsideWindows && AllEvaluate(now, mw.timezone, mw.windows)
    requires FirstEndIn(now, mw.timezone, mw.windows, d)
    ensures Evaluate(now, mw).Ok? && Evaluate(now, mw).value.requeueAfter >= d + SECOND
    ensures Evaluate(now, mw).value.requeueAfter == d + SECOND <==> !Slips(now, mw.timezone, mw.windows, d)
  {
    hide EvalWindow, Scan, Slips, IsOpen, EndOf;
    ScanActive(now, mw.timezone, mw.windows);
    ScanDelay(now, mw.timezone, mw.windows, d);
  }

  // Open windows end at the same instant or at least a second apart.
  ghost predicate EndsApart(now: Time, zone: Timezone, ws: seq<WindowSpec>) {
    forall i, j :: 0 <= i < |ws| && 0 <= j < |ws| && IsOpen(now, zone, ws[i]) && IsOpen(now, zone, ws[j]) ==>
      var a, b := EndOf(now, zone, ws[i]), EndOf(now, zone, ws[j]);
      a == b || a + SECOND <= b || b + SECOND <= a
  }

  // With ends at least a second apart nothing slips, whatever the order of the list.
  lemma RequeueAtFirstEnd(now: Time, mw: MaintenanceWindow, d: Duration)
    requires mw.mode == DenyOutsideWindows && AllEvaluate(now, mw.timezone, mw.windows)
    requires EndsApart(now, mw.timezone, mw.windows) && FirstEndIn(now, mw.timezone, mw.windows, d)
    ensures Evaluate(now, mw).Ok? && Evaluate(now, mw).value.requeueAfter == d + SECOND
  {
    hide Eval, IsOpen, EndOf, Scan;
    RequeueAtFirstEndIff(now, mw, d);
  }

  // Two open windows that end less than a second apart: listed in the order of their ends, the reconcile
  // comes a second past the later end; listed the other way round, a second past the first.
  lemma LaterEndPushesRequeue(now: Time, mw: MaintenanceWindow, a: WindowSpec, b: WindowSpec)
    requires mw.mode == DenyOutsideWindows && IsOpen(now, mw.timezone, a) && IsOpen(now, mw.timezone, b)
    requires var e, e' := EndOf(now, mw.timezone, a), EndOf(now, mw.timezone, b);
             e < e' < e + SECOND && e - now < FIVE_MINUTES
    ensures var ab, ba := Evaluate(now, mw.(windows := [a, b])), Evaluate(now, mw.(windows := [b, a]));
            && ab.Ok? && ab.value.requeueAfter == EndOf(now, mw.timezone, b) - now + SECOND
            && ba.Ok? && ba.value.requeueAfter == EndOf(now, mw.timezone, a) - now + SECOND
  {
    hide EvalWindow, Absorb;
    var zone := mw.timezone;
    assert [a, b][..1] == [a] && [b, a][..1] == [b] && [a][..0] == [] == [b][..0];
    ScanStep(now, zone, [a]);
    ScanStep(now, zone, [b]);
    ScanStep(now, zone, [a, b]);
    ScanStep(now, zone, [b, a]);
  }
}
