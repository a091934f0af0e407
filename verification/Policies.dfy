/** The policy resources and the selectors they carry. */
module Policies {
  import opened Clock
  import opened CronWindows
  import opened Schedules
  import opened Wrappers

  type Labels = map<string, string>

  // A label selector may fail to parse; otherwise it accepts or rejects a set of labels.
  datatype Selector = Selector(parses: bool, accepts: Labels -> bool)

  type LabelSelector = Option<Selector>

  // An absent selector matches everything, a selector that does not parse matches nothing.
  predicate Selects(sel: LabelSelector, labels: Labels) {
    match sel
    case None => true
    case Some(s) => s.parses && s.accepts(labels)
  }

  lemma SelectsIff(sel: LabelSelector, labels: Labels)
    ensures Selects(sel, labels) <==> sel.None? || (sel.value.parses && sel.value.accepts(labels))
  {}

  datatype TargetKind = Deployment | StatefulSet | DaemonSet | CronJob

  datatype Action = Create | Delete | Rollout | Scale

  datatype TargetSpec = TargetSpec(
    namespaceSelector: LabelSelector,
    objectSelector: LabelSelector,
    kinds: seq<TargetKind>)

  datatype Provider = ArgoCD | Flux

  datatype ArgoSpec = ArgoSpec(applicationSelector: LabelSelector, namespaceSelector: LabelSelector)

  datatype FluxSpec = FluxSpec(
    kustomizationSelector: LabelSelector,
    helmReleaseSelector: LabelSelector,
    namespaceSelector: LabelSelector)

  datatype GitOpsSpec = GitOpsSpec(
    enabled: bool,
    providers: seq<Provider>,
    argocd: Option<ArgoSpec>,
    flux: Option<FluxSpec>)

  datatype Behavior = Behavior(suspendCronJobs: bool, gitops: Option<GitOpsSpec>)

  datatype Mode = DenyOutsideWindows | OtherMode(text: string)

  datatype WindowSpec = WindowSpec(name: string, schedule: CronExpr, duration: Duration)

  datatype MaintenanceWindow = MaintenanceWindow(
    name: string,
    timezone: Timezone,
    mode: Mode,
    windows: seq<WindowSpec>,
    target: TargetSpec,
    deny: seq<Action>,
    behavior: Behavior,
    reason: string)

  datatype ChangeFreeze = ChangeFreeze(
    name: string,
    startTime: Time,
    endTime: Time,
    target: TargetSpec,
    deny: seq<Action>,
    behavior: Behavior,
    reason: string)

  datatype Constraints = Constraints(
    requireLabels: Labels,
    allowedUsers: seq<string>,
    allowedGroups: seq<string>)

  datatype FreezeException = FreezeException(
    name: string,
    activeFrom: Time,
    activeTo: Time,
    target: TargetSpec,
    allow: seq<Action>,
    constraints: Option<Constraints>)

  /* One window at one instant */

  function Eval(now: Time, zone: Timezone, w: WindowSpec): Result<EvaluatedWindow, EvalError> {
    EvalWindow(now, zone, w.schedule, w.duration)
  }

  // The window evaluates, and is open.
  ghost predicate IsOpen(now: Time, zone: Timezone, w: WindowSpec) {
    Eval(now, zone, w).Ok? && Eval(now, zone, w).value.active
  }

  ghost predicate AllEvaluate(now: Time, zone: Timezone, ws: seq<WindowSpec>) {
    forall i :: 0 <= i < |ws| ==> Eval(now, zone, ws[i]).Ok?
  }

  ghost predicate AnyOpen(now: Time, zone: Timezone, ws: seq<WindowSpec>) {
    exists i :: 0 <= i < |ws| && IsOpen(now, zone, ws[i])
  }

  // Some window really covers t.
  ghost predicate WindowCovers(zone: Timezone, w: WindowSpec, t: Time) {
    w.schedule.WellFormed? && Covered(w.schedule.inZone(zone), w.duration, t)
  }

  ghost predicate AnyCovers(zone: Timezone, ws: seq<WindowSpec>, t: Time) {
    exists i :: 0 <= i < |ws| && WindowCovers(zone, ws[i], t)
  }

  ghost predicate WindowComplete(now: Time, zone: Timezone, w: WindowSpec) {
    w.schedule.WellFormed? && Complete(w.schedule.inZone(zone), w.duration, now)
  }

  // The completeness conditions hold for every window.
  ghost predicate AllComplete(now: Time, zone: Timezone, ws: seq<WindowSpec>) {
    forall i :: 0 <= i < |ws| ==> WindowComplete(now, zone, ws[i])
  }

  // No next start is found, and the window is not open: the other way to be read correctly.
  ghost predicate WindowLost(now: Time, zone: Timezone, w: WindowSpec) {
    && w.schedule.WellFormed? && Valid(w.schedule.inZone(zone)) && now >= ZERO_TIME
    && Next(w.schedule.inZone(zone), now) == ZERO_TIME
    && !WindowCovers(zone, w, now)
  }

  // Every window is complete or lost.
  ghost predicate AllSettled(now: Time, zone: Timezone, ws: seq<WindowSpec>) {
    forall i :: 0 <= i < |ws| ==> WindowComplete(now, zone, ws[i]) || WindowLost(now, zone, ws[i])
  }

  // What a successful evaluation looks like.
  lemma EvalShape(now: Time, zone: Timezone, w: WindowSpec)
    requires Eval(now, zone, w).Ok?
    ensures w.schedule.WellFormed? && w.duration > 0
    ensures Eval(now, zone, w).value.nextStart == Some(Next(w.schedule.inZone(zone), now))
    ensures IsOpen(now, zone, w) ==>
              var e := Eval(now, zone, w).value;
              && e.activeStart.Some? && e.activeEnd == Some(e.activeStart.value + w.duration)
              && IsStart(w.schedule.inZone(zone), e.activeStart.value)
              && e.activeStart.value <= now < e.activeEnd.value
  {
    hide Next, PrevStart;
    if IsOpen(now, zone, w) {
      ActiveIsGenuine(now, zone, w.schedule, w.duration);
    }
  }

  lemma OpenImpliesCovered(now: Time, zone: Timezone, ws: seq<WindowSpec>)
    requires AnyOpen(now, zone, ws)
    ensures AnyCovers(zone, ws, now)
  {
    var i :| 0 <= i < |ws| && IsOpen(now, zone, ws[i]);
    ActiveIsGenuine(now, zone, ws[i].schedule, ws[i].duration);
    assert WindowCovers(zone, ws[i], now);
  }

  lemma OpenIffCovered(now: Time, zone: Timezone, ws: seq<WindowSpec>)
    requires AllEvaluate(now, zone, ws) && AllSettled(now, zone, ws)
    ensures AnyOpen(now, zone, ws) <==> AnyCovers(zone, ws, now)
  {
    hide Outcome, Complete, Covered;
    if AnyOpen(now, zone, ws) {
      OpenImpliesCovered(now, zone, ws);
    }
    if AnyCovers(zone, ws, now) {
      var i :| 0 <= i < |ws| && WindowCovers(zone, ws[i], now);
      assert Eval(now, zone, ws[i]).Ok? && WindowComplete(now, zone, ws[i]);
      ActiveIffCovered(now, zone, ws[i].schedule, ws[i].duration);
      assert IsOpen(now, zone, ws[i]);
    }
  }

  // A lost window stays closed for the next 14 days.
  lemma LostStaysClosed(now: Time, zone: Timezone, w: WindowSpec, t: Time)
    requires WindowLost(now, zone, w) && now <= t <= now + LOOKBACK
    ensures !WindowCovers(zone, w, t)
  {
    hide Next;
    var s := w.schedule.inZone(zone);
    forall x | IsStart(s, x)
      ensures !(x <= t < x + w.duration)
    {
      assert !(IsStart(s, x) && x <= now < x + w.duration);
      if now < x <= t {
        NextFinds(s, now, x);
      }
    }
  }
}
