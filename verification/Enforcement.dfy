/** Side effects and admission side by side: is an object paused exactly when requests are denied? */
module Enforcement {
  import opened Clock
  import opened CronWindows
  import opened Evaluator
  import opened EvaluatorProperties
  import opened GitOpsAnnotations
  import opened Policies
  import opened TimedRuns
  import ArgoApplication
  import Controllers
  import FluxObject
  import FreezeSchedule
  import GitOpsPass
  import GitOpsProviders
  import WindowFold
  import WindowRun

  // The visits that a controller's run has made up to t; `freezeWhen` is the verdict under which it
  // freezes: false for maintenance windows, true for change freezes.
  ghost function VisitsUntil(run: seq<Tick>, policy: string, freezeWhen: bool, t: Time): seq<Step>
    decreases |run|
  {
    if |run| == 0 then []
    else
      var n := |run| - 1;
      VisitsUntil(run[..n], policy, freezeWhen, t)
      + if run[n].at <= t then [Step(policy, run[n].verdict == freezeWhen, true)] else []
  }

  // The last visit follows the flag a reader finds at t.
  lemma {:induction false} LastVisitFollowsFlag(run: seq<Tick>, policy: string, freezeWhen: bool, t: Time)
    requires Timely(run) && run[0].at <= t
    ensures var steps := VisitsUntil(run, policy, freezeWhen, t);
            && |steps| > 0 && steps[|steps| - 1].active == (FlagAt(run, t) == freezeWhen)
            && (forall i :: 0 <= i < |steps| ==> steps[i].policy == policy && steps[i].updateOk)
    decreases |run|
  {
    var n := |run| - 1;
    if n > 0 {
      if run[n - 1].at <= t || run[n].at > t {
        LastVisitFollowsFlag(run[..n], policy, freezeWhen, t);
      }
    } else {
      assert VisitsUntil(run[..0], policy, freezeWhen, t) == [];
    }
  }

  // Under a sole policy with successful updates the object is held exactly when the last visit froze,
  // and no takeover ever happens.
  lemma {:induction false} SolePolicyFollows(o: FluxObject.Flux, steps: seq<Step>, policy: string)
    requires !Managed(o.annotations)
    requires forall i :: 0 <= i < |steps| ==> steps[i].policy == policy && steps[i].updateOk
    ensures var e := FluxObject.Run(o, steps);
            && !FluxObject.TookOver(o, steps)
            && (Managed(e.annotations) <==> ManagedBy(e.annotations, policy))
            && (Managed(e.annotations) <==> |steps| > 0 && steps[|steps| - 1].active)
    decreases |steps|
  {
    hide Mark, Unmark, FormatBool, FluxObject.ParseBool;
    if |steps| > 0 {
      var n := |steps| - 1;
      SolePolicyFollows(o, steps[..n], policy);
      var e := FluxObject.Run(o, steps[..n]);
      MarkMeaning(e.annotations, ORIGINAL_SUSPEND, FormatBool(FluxObject.Suspended(e)), policy);
    }
  }

  lemma {:induction false} SolePolicyFollowsApp(o: ArgoApplication.Application, steps: seq<Step>, policy: string)
    requires !Managed(o.annotations)
    requires forall i :: 0 <= i < |steps| ==> steps[i].policy == policy && steps[i].updateOk
    ensures var e := ArgoApplication.Run(o, steps);
            && !ArgoApplication.TookOver(o, steps)
            && (Managed(e.annotations) <==> ManagedBy(e.annotations, policy))
            && (Managed(e.annotations) <==> |steps| > 0 && steps[|steps| - 1].active)
    decreases |steps|
  {
    hide Mark, Unmark, ArgoApplication.Encode, ArgoApplication.Decode;
    if |steps| > 0 {
      var n := |steps| - 1;
      SolePolicyFollowsApp(o, steps[..n], policy);
      var e := ArgoApplication.Run(o, steps[..n]);
      MarkMeaning(e.annotations, ORIGINAL_AUTOSYNC, ArgoApplication.Encode(ArgoApplication.AutoSync(e)), policy);
    }
  }

  // Not reconciling: a Flux object that is suspended, an Application without autosync.
  predicate Paused(r: GitOpsPass.Resource) {
    match r
    case FluxResource(o) => FluxObject.Suspended(o)
    case AppObject(o) => ArgoApplication.AutoSync(o).None?
  }

  // What one object has become after these visits.
  function AfterVisits(r: GitOpsPass.Resource, steps: seq<Step>): GitOpsPass.Resource {
    match r
    case FluxResource(o) => GitOpsPass.FluxResource(FluxObject.Run(o, steps))
    case AppObject(o) => GitOpsPass.AppObject(ArgoApplication.Run(o, steps))
  }

  // Any number of policies leave the object paused exactly when the user wants it so, two freezes have
  // met, or some policy's last visit froze.
  lemma PausedIff(r: GitOpsPass.Resource, steps: seq<Step>)
    requires !Managed(GitOpsPass.AnnotationsOf(r))
    ensures Paused(AfterVisits(r, steps)) <==> Paused(r) || Collided(steps) || SomeoneFroze(steps)
  {
    hide FluxObject.Run, ArgoApplication.Run, Managed, SomeoneFroze, Collided;
    match r
    case FluxResource(o) =>
      FluxObject.SuspendedIff(o, steps);
    case AppObject(o) =>
      ArgoApplication.AutoSyncExactly(o, steps);
  }

  // A sole policy leaves the object paused exactly when the user wants it so or its last visit froze.
  lemma SolePolicyPauses(r: GitOpsPass.Resource, steps: seq<Step>, policy: string)
    requires !Managed(GitOpsPass.AnnotationsOf(r)) && |steps| > 0
    requires forall i :: 0 <= i < |steps| ==> steps[i].policy == policy && steps[i].updateOk
    ensures Paused(AfterVisits(r, steps)) <==> Paused(r) || steps[|steps| - 1].active
  {
    hide FluxObject.Run, FluxObject.TookOver, ArgoApplication.Run, ArgoApplication.TookOver, Managed, ManagedBy;
    match r
    case FluxResource(o) =>
      SolePolicyFollows(o, steps, policy);
      FluxObject.RunOutcome(o, steps);
    case AppObject(o) =>
      SolePolicyFollowsApp(o, steps, policy);
      ArgoApplication.RunOutcome(o, steps);
  }

  /* A controller's run on the store */

  // The GitOps store at t, after the passes that the run's reconciles have made up to then.
  ghost function StoreUntil(server: GitOpsPass.Server, store: GitOpsPass.Store, behavior: Behavior, policy: string,
                            run: seq<Tick>, freezeWhen: bool, t: Time): GitOpsPass.Store
    decreases |run|
  {
    if |run| == 0 then store
    else
      var n := |run| - 1;
      var before := StoreUntil(server, store, behavior, policy, run[..n], freezeWhen, t);
      if run[n].at <= t then Controllers.GitOpsAfter(server, before, behavior, policy, run[n].verdict == freezeWhen)
      else before
  }

  // An object that the policy names and that accepts updates receives exactly the run's visits; what
  // the policy names stays the same throughout.
  lemma {:induction false} ObjectFollowsRun(server: GitOpsPass.Server, store: GitOpsPass.Store, behavior: Behavior,
                                            policy: string, run: seq<Tick>, freezeWhen: bool, t: Time, k: GitOpsPass.Key)
    requires k in store && k in GitOpsProviders.PassKeys(server, store, behavior.gitops) && k !in server.failing
    ensures var after := StoreUntil(server, store, behavior, policy, run, freezeWhen, t);
            && k in after && after[k] == AfterVisits(store[k], VisitsUntil(run, policy, freezeWhen, t))
            && GitOpsProviders.PassKeys(server, after, behavior.gitops)
               == GitOpsProviders.PassKeys(server, store, behavior.gitops)
    decreases |run|
  {
    hide GitOpsProviders.PassKeys, FluxObject.Visit, ArgoApplication.Visit;
    if |run| > 0 {
      var n := |run| - 1;
      ObjectFollowsRun(server, store, behavior, policy, run[..n], freezeWhen, t, k);
      var before := StoreUntil(server, store, behavior, policy, run[..n], freezeWhen, t);
      var keys := GitOpsProviders.PassKeys(server, before, behavior.gitops);
      GitOpsProviders.PassKeysStay(server, before, keys, behavior.gitops, policy, run[n].verdict == freezeWhen);
      var steps := VisitsUntil(run[..n], policy, freezeWhen, t);
      OneMoreVisit(store[k], steps, Step(policy, run[n].verdict == freezeWhen, true));
      assert steps + [] == steps;
    }
  }

  lemma OneMoreVisit(r: GitOpsPass.Resource, steps: seq<Step>, step: Step)
    requires step.updateOk
    ensures AfterVisits(r, steps + [step]) == GitOpsPass.Visit(AfterVisits(r, steps), step.policy, step.active)
  {
    hide FluxObject.Visit, ArgoApplication.Visit;
    assert (steps + [step])[..|steps|] == steps;
  }

  // Whatever the flag in the status means at t, it is what pauses the objects the policy names.
  lemma PausedFollowsFlag(server: GitOpsPass.Server, store: GitOpsPass.Store, behavior: Behavior, policy: string,
                          run: seq<Tick>, freezeWhen: bool, t: Time, k: GitOpsPass.Key)
    requires Timely(run) && run[0].at <= t
    requires k in store && k in GitOpsProviders.PassKeys(server, store, behavior.gitops) && k !in server.failing
    requires !Managed(GitOpsPass.AnnotationsOf(store[k]))
    ensures var after := StoreUntil(server, store, behavior, policy, run, freezeWhen, t);
            k in after && (Paused(after[k]) <==> Paused(store[k]) || (FlagAt(run, t) == freezeWhen))
  {
    hide GitOpsProviders.PassKeys, Paused, AfterVisits, Managed, StoreUntil, VisitsUntil;
    LastVisitFollowsFlag(run, policy, freezeWhen, t);
    ObjectFollowsRun(server, store, behavior, policy, run, freezeWhen, t, k);
    SolePolicyPauses(store[k], VisitsUntil(run, policy, freezeWhen, t), policy);
  }

  /* In step with admission */

  // The status of a maintenance window says the opposite of what the evaluator lists, unless a
  // reconcile is less than a second away.
  lemma WindowFlagIsDenial(mw: MaintenanceWindow, run: seq<Tick>, input: Input, nsLabels: Labels)
    requires WindowRun.IsRunOf(mw, run) && run[0].at <= input.now < run[|run| - 1].at
    requires WindowRun.RunSettled(mw, run) && WindowRun.RunSighted(mw, run)
    requires AllSettled(input.now, mw.timezone, mw.windows) && WindowApplies(mw, input, nsLabels)
    ensures (FlagAt(run, input.now) == false <==> WindowCandidate(mw, input, nsLabels).Some?) || LastSecond(run, input.now)
  {
    hide WindowFold.Evaluate, AllSettled, AnyCovers, AnyOpen, AllEvaluate, WindowCandidate, WindowApplies, LastSecond,
      WindowRun.RunSighted;
    WindowRun.RunAccuracy(mw, run, input.now);
    EvaluationIgnoresTime(run[0].at, input.now, mw.timezone, mw.windows);
    OpenIffCovered(input.now, mw.timezone, mw.windows);
    WindowCandidateMeaning(mw, input, nsLabels);
  }

  // Maintenance windows: at every instant of every timed run, every object that the policy names and
  // alone controls is paused exactly when the user wants it so or the evaluator lists the policy against
  // a request it covers, unless a reconcile is less than a second away.
  lemma WindowEnforcedInStep(mw: MaintenanceWindow, run: seq<Tick>, server: GitOpsPass.Server, store: GitOpsPass.Store,
                             k: GitOpsPass.Key, input: Input, nsLabels: Labels)
    requires WindowRun.IsRunOf(mw, run) && run[0].at <= input.now < run[|run| - 1].at
    requires WindowRun.RunSettled(mw, run) && WindowRun.RunSighted(mw, run)
    requires AllSettled(input.now, mw.timezone, mw.windows) && WindowApplies(mw, input, nsLabels)
    requires k in store && k in GitOpsProviders.PassKeys(server, store, mw.behavior.gitops) && k !in server.failing
    requires !Managed(GitOpsPass.AnnotationsOf(store[k]))
    ensures var after := StoreUntil(server, store, mw.behavior, mw.name, run, false, input.now);
            && k in after
            && ((Paused(after[k]) <==> Paused(store[k]) || WindowCandidate(mw, input, nsLabels).Some?)
                || LastSecond(run, input.now))
  {
    hide WindowRun.IsRunOf, WindowRun.RunSettled, WindowRun.RunSighted, AllSettled, WindowApplies, WindowCandidate,
      Managed, LastSecond, GitOpsProviders.PassKeys, StoreUntil, Paused, FlagAt;
    WindowFlagIsDenial(mw, run, input, nsLabels);
    RunIsTimely(mw, run);
    PausedFollowsFlag(server, store, mw.behavior, mw.name, run, false, input.now, k);
  }

  lemma RunIsTimely(mw: MaintenanceWindow, run: seq<Tick>)
    requires WindowRun.IsRunOf(mw, run)
    ensures Timely(run)
  {}

  lemma EvaluationIgnoresTime(now: Time, t: Time, zone: Timezone, ws: seq<WindowSpec>)
    requires AllEvaluate(now, zone, ws)
    ensures AllEvaluate(t, zone, ws)
  {
    hide Outcome;
    forall i | 0 <= i < |ws|
      ensures Eval(t, zone, ws[i]).Ok?
    {
      assert Eval(now, zone, ws[i]).Ok?;
    }
  }

  // Change freezes: the same, with the opposite polarity and no conditions on the interval.
  lemma FreezeEnforcedInStep(cf: ChangeFreeze, run: seq<Tick>, server: GitOpsPass.Server, store: GitOpsPass.Store,
                             k: GitOpsPass.Key, input: Input, nsLabels: Labels)
    requires FreezeSchedule.IsRunOf(cf, run) && run[0].at <= input.now < run[|run| - 1].at
    requires k in store && k in GitOpsProviders.PassKeys(server, store, cf.behavior.gitops) && k !in server.failing
    requires !Managed(GitOpsPass.AnnotationsOf(store[k])) && FreezeApplies(cf, input, nsLabels)
    ensures var after := StoreUntil(server, store, cf.behavior, cf.name, run, true, input.now);
            && k in after
            && ((Paused(after[k]) <==> Paused(store[k]) || FreezeCandidate(cf, input, nsLabels).Some?)
                || LastSecond(run, input.now))
  {
    hide FreezeSchedule.Evaluate, Managed, LastSecond, GitOpsProviders.PassKeys, StoreUntil, Paused;
    FreezeSchedule.RunAccuracy(cf, run, input.now);
    PausedFollowsFlag(server, store, cf.behavior, cf.name, run, true, input.now, k);
  }

  // Owners are told apart by name alone: a freeze's pause survives the visit of a maintenance window that
  // is inside a window if and only if the two have different names. Either way the evaluator denies.
  lemma PauseSurvivesIff(cf: ChangeFreeze, mw: MaintenanceWindow, o: FluxObject.Flux, input: Input, nsLabels: Labels)
    requires FreezeApplies(cf, input, nsLabels) && FreezeSchedule.InFreeze(cf, input.now)
    requires WindowFold.Evaluate(input.now, mw).Ok? && WindowFold.Evaluate(input.now, mw).value.active
    requires !Managed(o.annotations) && !FluxObject.Suspended(o)
    ensures var paused := FluxObject.Visit(o, cf.name, FreezeSchedule.Evaluate(input.now, cf).active);
            var after := FluxObject.Visit(paused, mw.name, !WindowFold.Evaluate(input.now, mw).value.active);
            && FluxObject.Suspended(paused) && FreezeCandidate(cf, input, nsLabels).Some?
            && (FluxObject.Suspended(after) <==> cf.name != mw.name)
  {
    hide Mark, Unmark, FormatBool, FluxObject.ParseBool, WindowFold.Evaluate;
    MarkMeaning(o.annotations, ORIGINAL_SUSPEND, FormatBool(FluxObject.Suspended(o)), cf.name);
    FluxObject.FormatParses(false);
  }
}
