/** Admission of maintenance windows, and what it guarantees to the two evaluators. */
module Webhook {
  import opened Clock
  import opened CronWindows
  import opened Evaluator
  import opened EvaluatorProperties
  import opened Policies
  import opened Wrappers
  import WindowFold

  datatype ValidationError =
    BadTimezone | NoWindows | BadSchedule(index: nat) | BadDuration(index: nat)

  // The first complaint about the windows from index i on.
  function FirstComplaint(ws: seq<WindowSpec>, i: nat): Option<ValidationError>
    requires i <= |ws|
    decreases |ws| - i
  {
    if i == |ws| then None
    else if ws[i].schedule.Malformed? then Some(BadSchedule(i))
    else if ws[i].duration <= 0 then Some(BadDuration(i))
    else FirstComplaint(ws, i + 1)
  }

  // None is acceptance.
  function ValidateMaintenanceWindow(mw: MaintenanceWindow): Option<ValidationError> {
    if mw.timezone.UnknownZone? then Some(BadTimezone)
    else if |mw.windows| == 0 then Some(NoWindows)
    else FirstComplaint(mw.windows, 0)
  }

  lemma {:induction false} FirstComplaintMeaning(ws: seq<WindowSpec>, i: nat)
    requires i <= |ws|
    ensures match FirstComplaint(ws, i)
            case None => forall j :: i <= j < |ws| ==> ws[j].schedule.WellFormed? && ws[j].duration > 0
            case Some(BadSchedule(k)) => i <= k < |ws| && ws[k].schedule.Malformed?
            case Some(BadDuration(k)) => i <= k < |ws| && ws[k].schedule.WellFormed? && ws[k].duration <= 0
            case _ => false
    ensures FirstComplaint(ws, i).Some? ==>
              forall j :: i <= j < FirstComplaint(ws, i).value.index ==> ws[j].schedule.WellFormed? && ws[j].duration > 0
    decreases |ws| - i
  {
    if i < |ws| && ws[i].schedule.WellFormed? && ws[i].duration > 0 {
      FirstComplaintMeaning(ws, i + 1);
    }
  }

  // The complaints in their order: the timezone, the lack of windows, the first bad window.
  lemma ComplaintIs(mw: MaintenanceWindow)
    ensures ValidateMaintenanceWindow(mw) == Some(BadTimezone) <==> mw.timezone.UnknownZone?
    ensures ValidateMaintenanceWindow(mw) == Some(NoWindows) <==> !mw.timezone.UnknownZone? && mw.windows == []
    ensures forall i: nat :: ValidateMaintenanceWindow(mw) == Some(BadSchedule(i)) <==>
              && !mw.timezone.UnknownZone? && i < |mw.windows| && mw.windows[i].schedule.Malformed?
              && forall j :: 0 <= j < i ==> mw.windows[j].schedule.WellFormed? && mw.windows[j].duration > 0
    ensures forall i: nat :: ValidateMaintenanceWindow(mw) == Some(BadDuration(i)) <==>
              && !mw.timezone.UnknownZone? && i < |mw.windows|
              && mw.windows[i].schedule.WellFormed? && mw.windows[i].duration <= 0
              && forall j :: 0 <= j < i ==> mw.windows[j].schedule.WellFormed? && mw.windows[j].duration > 0
  {
    hide FirstComplaint;
    FirstComplaintMeaning(mw.windows, 0);
  }

  // A maintenance window is accepted exactly when it has a window and, at any instant
  // whatever, none of its windows fails to evaluate.
  lemma AcceptedIff(mw: MaintenanceWindow, now: Time)
    ensures ValidateMaintenanceWindow(mw).None? <==>
            |mw.windows| > 0 && AllEvaluate(now, mw.timezone, mw.windows)
  {
    hide Outcome;
    FirstComplaintMeaning(mw.windows, 0);
    if |mw.windows| > 0 && AllEvaluate(now, mw.timezone, mw.windows) {
      assert Eval(now, mw.timezone, mw.windows[0]).Ok?;
    }
  }

  // Controller and evaluator agree on an accepted maintenance window: the status is inactive
  // exactly when the evaluator denies a request that the policy covers, and then the status names
  // the very instant that the denial promises, although the evaluator's scan leaves early.
  lemma ControllerAgreesWithEvaluator(mw: MaintenanceWindow, input: Input, nsLabels: Labels)
    requires ValidateMaintenanceWindow(mw).None? && WindowApplies(mw, input, nsLabels)
    ensures var r := WindowFold.Evaluate(input.now, mw);
            && r.Ok?
            && (!r.value.active <==> WindowCandidate(mw, input, nsLabels).Some?)
            && r.value.nextWindow.Some?
            && (!r.value.active ==>
                  WindowCandidate(mw, input, nsLabels).value.nextAllowed == Some(r.value.nextWindow.value.startTime))
  {
    hide Eval, ScanWindows, WindowFold.Evaluate;
    var zone, ws := mw.timezone, mw.windows;
    AcceptedIff(mw, input.now);
    WindowFold.EvaluateSucceedsIff(input.now, mw);
    WindowFold.EvaluateStatus(input.now, mw);
    ScanWindowsMeaning(input.now, zone, ws, None);
    assert Eval(input.now, zone, ws[0]).Ok?;
  }
}
