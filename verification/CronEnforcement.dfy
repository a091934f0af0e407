/** CronJobs and admission side by side: under a sole policy a CronJob is suspended exactly when the
    policy denies. */
module CronEnforcement {
  import opened Clock
  import opened CronJobOwnership
  import opened CronJobPass
  import opened Enforcement
  import opened Evaluator
  import opened GitOpsAnnotations
  import opened Policies
  import opened TimedRuns
  import opened Wrappers
  import Controllers
  import FreezeSchedule
  import WindowRun

  // The CronJobs that a policy targets.
  ghost function Targets(server: CronServer, store: CronStore, target: TargetSpec): set<CronKey> {
    SelectedCron(server, store, Targeted(server, target), target.objectSelector)
  }

  // No list call of its passes fails, and none of the targets refuses to be updated.
  ghost predicate Responsive(server: CronServer, store: CronStore, target: TargetSpec) {
    NoFailures(server, store, Targeted(server, target), target.objectSelector)
  }

  /* A controller's run on the store */

  lemma OrderAfter(server: CronServer, store: CronStore, behavior: Behavior, target: TargetSpec, policy: string, freeze: bool)
    requires OrderInStore(server, store)
    ensures OrderInStore(server, Controllers.CronJobsAfter(server, store, behavior, target, policy, freeze))
  {
    hide VisitAll, Visited, OrderInStore;
    OrderStays(server, store, Visited(server, store, Targeted(server, target), target.objectSelector, policy, freeze), policy, freeze);
  }

  // The CronJobs at t, after the passes that the run's reconciles have made up to then.
  ghost function CronStoreUntil(server: CronServer, store: CronStore, behavior: Behavior, target: TargetSpec, policy: string,
                                run: seq<Tick>, freezeWhen: bool, t: Time): (after: CronStore)
    requires OrderInStore(server, store)
    ensures OrderInStore(server, after)
    decreases |run|
  {
    if |run| == 0 then store
    else
      var n := |run| - 1;
      var before := CronStoreUntil(server, store, behavior, target, policy, run[..n], freezeWhen, t);
      OrderAfter(server, before, behavior, target, policy, run[n].verdict == freezeWhen);
      if run[n].at <= t
      then Controllers.CronJobsAfter(server, before, behavior, target, policy, run[n].verdict == freezeWhen)
      else before
  }

  // The same visits as steps of the ownership protocol.
  function CronSteps(steps: seq<Step>): seq<CronStep>
    decreases |steps|
  {
    if |steps| == 0 then []
    else
      var n := |steps| - 1;
      CronSteps(steps[..n]) + [CronStep(steps[n].policy, steps[n].active, steps[n].updateOk)]
  }

  lemma {:induction false} CronStepsAre(steps: seq<Step>)
    ensures |CronSteps(steps)| == |steps|
    ensures forall i :: 0 <= i < |steps| ==>
              CronSteps(steps)[i] == CronStep(steps[i].policy, steps[i].active, steps[i].updateOk)
    decreases |steps|
  {
    if |steps| > 0 {
      CronStepsAre(steps[..|steps| - 1]);
    }
  }

  // One pass visits every target, and what is targeted stays the same.
  lemma PassVisitsTargets(server: CronServer, store: CronStore, behavior: Behavior, target: TargetSpec, policy: string,
                          freeze: bool, k: CronKey)
    requires OrderInStore(server, store) && behavior.suspendCronJobs && Responsive(server, store, target)
    requires k in Targets(server, store, target)
    ensures var after := Controllers.CronJobsAfter(server, store, behavior, target, policy, freeze);
            && k in store && k in after && after[k] == CronJobOwnership.Visit(store[k], policy, freeze)
            && Targets(server, after, target) == Targets(server, store, target)
            && Responsive(server, after, target)
  {
    hide Targeted, Selects, OrderInStore, Visited, CronJobOwnership.Visit;
    var nss, sel := Targeted(server, target), target.objectSelector;
    EverythingVisited(server, store, nss, sel, policy, freeze);
    SelectionStays(server, store, Visited(server, store, nss, sel, policy, freeze), policy, freeze, nss, sel);
  }

  lemma {:induction false} CronJobFollowsRun(server: CronServer, store: CronStore, behavior: Behavior, target: TargetSpec,
                                             policy: string, run: seq<Tick>, freezeWhen: bool, t: Time, k: CronKey)
    requires OrderInStore(server, store) && behavior.suspendCronJobs && Responsive(server, store, target)
    requires k in store && k in Targets(server, store, target)
    ensures var after := CronStoreUntil(server, store, behavior, target, policy, run, freezeWhen, t);
            && k in after && after[k] == Run(store[k], CronSteps(VisitsUntil(run, policy, freezeWhen, t)))
            && Targets(server, after, target) == Targets(server, store, target)
            && Responsive(server, after, target)
    decreases |run|
  {
    hide Targets, Responsive, OrderInStore, CronJobOwnership.Visit, Controllers.CronJobsAfter;
    if |run| > 0 {
      var n := |run| - 1;
      CronJobFollowsRun(server, store, behavior, target, policy, run[..n], freezeWhen, t, k);
      var before := CronStoreUntil(server, store, behavior, target, policy, run[..n], freezeWhen, t);
      PassVisitsTargets(server, before, behavior, target, policy, run[n].verdict == freezeWhen, k);
      var steps, step := VisitsUntil(run[..n], policy, freezeWhen, t), Step(policy, run[n].verdict == freezeWhen, true);
      RunOneMore(store[k], steps, step);
      assert steps + [] == steps;
    }
  }

  lemma RunOneMore(o: Cron, steps: seq<Step>, step: Step)
    requires step.updateOk
    ensures Run(o, CronSteps(steps + [step])) == CronJobOwnership.Visit(Run(o, CronSteps(steps)), step.policy, step.active)
  {
    hide CronJobOwnership.Visit;
    assert (steps + [step])[..|steps|] == steps;
    var all := CronSteps(steps + [step]);
    assert all[..|all| - 1] == CronSteps(steps);
  }

  // The suspend field of a target follows the status flag, whatever the user had.
  lemma SuspendFollowsFlag(server: CronServer, store: CronStore, behavior: Behavior, target: TargetSpec, policy: string,
                           run: seq<Tick>, freezeWhen: bool, t: Time, k: CronKey)
    requires Timely(run) && run[0].at <= t
    requires OrderInStore(server, store) && behavior.suspendCronJobs && Responsive(server, store, target)
    requires k in store && k in Targets(server, store, target) && policy != "" && !HeldByOther(store[k], policy)
    ensures var after := CronStoreUntil(server, store, behavior, target, policy, run, freezeWhen, t);
            k in after && after[k].suspend == Some(FlagAt(run, t) == freezeWhen)
  {
    hide Targets, Responsive, OrderInStore, HeldByOther, CronStoreUntil, VisitsUntil, Run;
    LastVisitFollowsFlag(run, policy, freezeWhen, t);
    CronJobFollowsRun(server, store, behavior, target, policy, run, freezeWhen, t, k);
    var steps := VisitsUntil(run, policy, freezeWhen, t);
    CronStepsAre(steps);
    SolePolicyDictates(store[k], policy, CronSteps(steps));
  }

  /* In step with admission */

  // Maintenance windows: at every instant of every timed run a targeted CronJob that no other policy
  // holds is suspended exactly when the evaluator lists the policy against a request it covers, unless a
  // reconcile is less than a second away.
  lemma WindowSuspendsInStep(mw: MaintenanceWindow, run: seq<Tick>, server: CronServer, store: CronStore, k: CronKey,
                             input: Input, nsLabels: Labels)
    requires WindowRun.IsRunOf(mw, run) && run[0].at <= input.now < run[|run| - 1].at
    requires WindowRun.RunSettled(mw, run) && WindowRun.RunSighted(mw, run)
    requires AllSettled(input.now, mw.timezone, mw.windows) && WindowApplies(mw, input, nsLabels)
    requires OrderInStore(server, store) && mw.behavior.suspendCronJobs && Responsive(server, store, mw.target)
    requires k in store && k in Targets(server, store, mw.target) && mw.name != "" && !HeldByOther(store[k], mw.name)
    ensures var after := CronStoreUntil(server, store, mw.behavior, mw.target, mw.name, run, false, input.now);
            && k in after
            && (after[k].suspend == Some(WindowCandidate(mw, input, nsLabels).Some?) || LastSecond(run, input.now))
  {
    hide WindowRun.IsRunOf, WindowRun.RunSettled, WindowRun.RunSighted, AllSettled, WindowApplies, WindowCandidate,
      HeldByOther, LastSecond, Targets, Responsive, CronStoreUntil, OrderInStore, FlagAt;
    WindowFlagIsDenial(mw, run, input, nsLabels);
    RunIsTimely(mw, run);
    SuspendFollowsFlag(server, store, mw.behavior, mw.target, mw.name, run, false, input.now, k);
  }

  // Change freezes: the same, with the opposite polarity and no conditions on the interval.
  lemma FreezeSuspendsInStep(cf: ChangeFreeze, run: seq<Tick>, server: CronServer, store: CronStore, k: CronKey,
                             input: Input, nsLabels: Labels)
    requires FreezeSchedule.IsRunOf(cf, run) && run[0].at <= input.now < run[|run| - 1].at
    requires FreezeApplies(cf, input, nsLabels)
    requires OrderInStore(server, store) && cf.behavior.suspendCronJobs && Responsive(server, store, cf.target)
    requires k in store && k in Targets(server, store, cf.target) && cf.name != "" && !HeldByOther(store[k], cf.name)
    ensures var after := CronStoreUntil(server, store, cf.behavior, cf.target, cf.name, run, true, input.now);
            && k in after
            && (after[k].suspend == Some(FreezeCandidate(cf, input, nsLabels).Some?) || LastSecond(run, input.now))
  {
    hide FreezeSchedule.Evaluate, HeldByOther, LastSecond, Targets, Responsive, CronStoreUntil, OrderInStore, FlagAt;
    FreezeSchedule.RunAccuracy(cf, run, input.now);
    SuspendFollowsFlag(server, store, cf.behavior, cf.target, cf.name, run, true, input.now, k);
  }
}
