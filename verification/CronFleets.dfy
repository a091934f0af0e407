/** Any number of policies at work on the same CronJobs: the first to claim one decides. */
module CronFleets {
  import opened Clock
  import opened CronEnforcement
  import opened CronJobOwnership
  import opened CronJobPass
  import opened Evaluator
  import opened Fleets
  import opened GitOpsAnnotations
  import opened Policies
  import opened TimedRuns
  import opened Wrappers
  import Controllers

  // The CronJobs after the logged reconciles.
  ghost function CronStoreAfter(server: CronServer, store: CronStore, fleet: seq<Actor>, log: seq<Entry>): (after: CronStore)
    requires Logged(fleet, log) && OrderInStore(server, store)
    ensures OrderInStore(server, after)
    decreases |log|
  {
    if |log| == 0 then store
    else
      var n := |log| - 1;
      var a := fleet[log[n].actor];
      var before, freeze := CronStoreAfter(server, store, fleet, log[..n]), log[n].tick.verdict == FreezeWhen(a);
      OrderAfter(server, before, BehaviorOf(a), TargetOf(a), NameOf(a), freeze);
      Controllers.CronJobsAfter(server, before, BehaviorOf(a), TargetOf(a), NameOf(a), freeze)
  }

  // The actors that suspend CronJobs and target this one.
  ghost function Targeting(server: CronServer, store: CronStore, fleet: seq<Actor>, k: CronKey): set<nat> {
    set a: nat | a < |fleet| && BehaviorOf(fleet[a]).suspendCronJobs && k in Targets(server, store, TargetOf(fleet[a]))
  }

  // Nothing fails for any policy that suspends CronJobs.
  ghost predicate AllResponsive(server: CronServer, store: CronStore, fleet: seq<Actor>) {
    forall a :: 0 <= a < |fleet| && BehaviorOf(fleet[a]).suspendCronJobs ==> Responsive(server, store, TargetOf(fleet[a]))
  }

  // One pass visits its targets and nothing else, and changes nobody's targets.
  lemma PassVisitsExactly(server: CronServer, store: CronStore, behavior: Behavior, target: TargetSpec, policy: string,
                          freeze: bool, k: CronKey)
    requires OrderInStore(server, store) && k in store
    requires behavior.suspendCronJobs ==> Responsive(server, store, target)
    ensures var after := Controllers.CronJobsAfter(server, store, behavior, target, policy, freeze);
            && k in after
            && after[k] == (if behavior.suspendCronJobs && k in Targets(server, store, target)
                            then CronJobOwnership.Visit(store[k], policy, freeze) else store[k])
            && (forall g :: Targets(server, after, g) == Targets(server, store, g))
            && (forall g :: Responsive(server, after, g) == Responsive(server, store, g))
  {
    hide Targeted, Selects, OrderInStore, CronJobPass.Visited, CronJobOwnership.Visit, SelectedCron;
    if behavior.suspendCronJobs {
      var nss, sel := Targeted(server, target), target.objectSelector;
      EverythingVisited(server, store, nss, sel, policy, freeze);
      forall g
        ensures var after := Controllers.CronJobsAfter(server, store, behavior, target, policy, freeze);
                && Targets(server, after, g) == Targets(server, store, g)
                && Responsive(server, after, g) == Responsive(server, store, g)
      {
        SelectionStays(server, store, CronJobPass.Visited(server, store, nss, sel, policy, freeze), policy, freeze,
                       Targeted(server, g), g.objectSelector);
      }
    }
  }

  lemma NoSteps(o: Cron)
    ensures Run(o, CronSteps([])) == o
  {}

  lemma {:induction false} CronJobFollowsLog(server: CronServer, store: CronStore, fleet: seq<Actor>, log: seq<Entry>, k: CronKey)
    requires Logged(fleet, log) && OrderInStore(server, store) && k in store && AllResponsive(server, store, fleet)
    ensures var after := CronStoreAfter(server, store, fleet, log);
            && k in after
            && after[k] == Run(store[k], CronSteps(StepsOn(fleet, log, Targeting(server, store, fleet, k))))
            && (forall g :: Targets(server, after, g) == Targets(server, store, g))
            && (forall g :: Responsive(server, after, g) == Responsive(server, store, g))
    decreases |log|
  {
    hide Targets, Responsive, OrderInStore, CronJobOwnership.Visit, Controllers.CronJobsAfter, NameOf, BehaviorOf, TargetOf, Run, CronSteps;
    if |log| == 0 {
      NoSteps(store[k]);
    } else {
      var n := |log| - 1;
      var a, freeze := fleet[log[n].actor], log[n].tick.verdict == FreezeWhen(fleet[log[n].actor]);
      CronJobFollowsLog(server, store, fleet, log[..n], k);
      var before, naming := CronStoreAfter(server, store, fleet, log[..n]), Targeting(server, store, fleet, k);
      PassVisitsExactly(server, before, BehaviorOf(a), TargetOf(a), NameOf(a), freeze, k);
      var steps := StepsOn(fleet, log[..n], naming);
      RunOneMore(store[k], steps, Step(NameOf(a), freeze, true));
      assert steps + [] == steps;
    }
  }

  lemma LastIsUnique(steps: seq<CronStep>, k: nat, j: nat, j': nat)
    requires k < |steps| && LastOfOwner(steps, k, j)
    requires j' < |steps| && steps[j'].updateOk && steps[j'].policy == steps[k].policy
    requires forall i :: j' < i < |steps| ==> steps[i].policy != steps[k].policy
    ensures j == j'
  {
    assert j <= j';
  }

  // The last step of a policy is the same whether one looks at visits or at claims.
  lemma LastOfOwnerIs(steps: seq<Step>, k: nat, j: nat, j': nat)
    requires k < |steps| && |CronSteps(steps)| == |steps| && LastOfOwner(CronSteps(steps), k, j)
    requires IsLastOf(steps, steps[k].policy, j')
    ensures j < |steps| && CronSteps(steps)[j].want == steps[j'].active
  {
    hide CronSteps, LastOfOwner;
    CronStepsAre(steps);
    var claims := CronSteps(steps);
    assert claims[k].policy == steps[k].policy && claims[j'] == CronStep(steps[j'].policy, steps[j'].active, steps[j'].updateOk);
    forall i | j' < i < |claims|
      ensures claims[i].policy != claims[k].policy
    {
      assert claims[i].policy == steps[i].policy;
    }
    LastIsUnique(claims, k, j, j');
  }

  // The owner, once there is one, and its field: what the status of the first policy to claim it calls for.
  ghost predicate OwnedBy(o: Cron, a: Actor, t: Time) {
    Get(o.annotations, MANAGED_BY) == NameOf(a) && o.suspend == Some(FreezesAt(a, t))
  }

  // At any moment a CronJob that the user created unowned is either untouched, and then every policy that
  // targets it wants what the user wants, or it belongs to one of them and follows that one's status.
  lemma FirstClaimerRules(server: CronServer, store: CronStore, fleet: seq<Actor>, log: seq<Entry>, t: Time, k: CronKey)
    requires IsLog(fleet, log, t) && OrderInStore(server, store) && k in store && AllResponsive(server, store, fleet)
    requires Get(store[k].annotations, MANAGED_BY) == ""
    requires var naming := Targeting(server, store, fleet, k);
             && DistinctNames(fleet, naming)
             && forall a :: a in naming ==> NameOf(fleet[a]) != "" && Timely(fleet[a].run) && fleet[a].run[0].at <= t
    ensures var after, naming := CronStoreAfter(server, store, fleet, log), Targeting(server, store, fleet, k);
            && k in after
            && (|| (after[k] == store[k] && forall a :: a in naming ==> store[k].suspend == Some(FreezesAt(fleet[a], t)))
                || exists a :: a in naming && OwnedBy(after[k], fleet[a], t))
  {
    hide CronStoreAfter, StepsOn, Targets, AllResponsive, OrderInStore, FlagAt, TicksOf, TicksUntil, Run, CronSteps, Claimed, Get;
    var naming := Targeting(server, store, fleet, k);
    var steps, o := StepsOn(fleet, log, naming), store[k];
    CronJobFollowsLog(server, store, fleet, log, k);
    CronStepsAre(steps);
    forall i | 0 <= i < |steps|
      ensures steps[i].policy != ""
    {
      var a := StepsAreNamed(fleet, log, naming, i);
    }
    var first, last := ClaimedOrNot(o, CronSteps(steps));
    if FirstClaim(o, CronSteps(steps), first) && LastOfOwner(CronSteps(steps), first, last) {
      var a := StepsAreNamed(fleet, log, naming, first);
      LastTickIsFlag(fleet[a].run, t);
      var j := LastStepOf(fleet, log, naming, a);
      LastOfOwnerIs(steps, first, last, j);
      OwnershipClosedForm(o, CronSteps(steps), first, last);
      ClaimedMeaning(o.annotations, o.suspend, NameOf(fleet[a]));
      assert OwnedBy(CronStoreAfter(server, store, fleet, log)[k], fleet[a], t);
    } else {
      UnclaimedIsUntouched(o, CronSteps(steps));
      forall a | a in naming
        ensures o.suspend == Some(FreezesAt(fleet[a], t))
      {
        LastTickIsFlag(fleet[a].run, t);
        var j := LastStepOf(fleet, log, naming, a);
        assert !Claims(o, CronSteps(steps)[j]);
      }
    }
  }

  // In terms of admission: with reconciles more than a second away, either the object is untouched and every policy
  // that targets it is listed exactly when the user wants the CronJob suspended, or it is suspended exactly
  // while the evaluator lists its owner.
  lemma OwnerSuspendsInStep(server: CronServer, store: CronStore, fleet: seq<Actor>, log: seq<Entry>, k: CronKey,
                            input: Input, nsLabels: Labels)
    requires IsLog(fleet, log, input.now) && OrderInStore(server, store) && k in store && AllResponsive(server, store, fleet)
    requires Get(store[k].annotations, MANAGED_BY) == ""
    requires var naming := Targeting(server, store, fleet, k);
             && DistinctNames(fleet, naming)
             && forall a :: a in naming ==>
                  && NameOf(fleet[a]) != "" && Works(fleet[a], input.now) && Applies(fleet[a], input, nsLabels)
                  && !LastSecond(fleet[a].run, input.now)
    ensures var after, naming := CronStoreAfter(server, store, fleet, log), Targeting(server, store, fleet, k);
            && k in after
            && (|| (after[k] == store[k] &&
                    forall a :: a in naming ==> store[k].suspend == Some(Denies(fleet[a], input, nsLabels)))
                || exists a :: a in naming && Get(after[k].annotations, MANAGED_BY) == NameOf(fleet[a])
                               && after[k].suspend == Some(Denies(fleet[a], input, nsLabels)))
  {
    hide CronStoreAfter, Targets, Denies, Applies, LastSecond, AllResponsive, OrderInStore, FreezesAt, IsLog, Get;
    FirstClaimerRules(server, store, fleet, log, input.now, k);
    forall a | a in Targeting(server, store, fleet, k)
      ensures FreezesAt(fleet[a], input.now) == Denies(fleet[a], input, nsLabels)
    {
      FlagIsDenial(fleet[a], input, nsLabels);
    }
  }
}
