/** Any number of policies at work on the same objects: whose flag decides. */
module Fleets {
  import opened Clock
  import opened Enforcement
  import opened Evaluator
  import opened GitOpsAnnotations
  import opened Policies
  import opened TimedRuns
  import ArgoApplication
  import Controllers
  import FluxObject
  import FreezeSchedule
  import GitOpsPass
  import GitOpsProviders
  import WindowRun

  /* Policies and their runs */

  // A policy with the run of its controller.
  datatype Actor = WindowActor(mw: MaintenanceWindow, run: seq<Tick>) | FreezeActor(cf: ChangeFreeze, run: seq<Tick>)

  function NameOf(a: Actor): string {
    if a.WindowActor? then a.mw.name else a.cf.name
  }

  function BehaviorOf(a: Actor): Behavior {
    if a.WindowActor? then a.mw.behavior else a.cf.behavior
  }

  function TargetOf(a: Actor): TargetSpec {
    if a.WindowActor? then a.mw.target else a.cf.target
  }

  // The verdict under which its side effects freeze.
  function FreezeWhen(a: Actor): bool {
    a.FreezeActor?
  }

  // The flag of its status at t calls for a freeze.
  ghost predicate FreezesAt(a: Actor, t: Time) {
    |a.run| > 0 && FlagAt(a.run, t) == FreezeWhen(a)
  }

  predicate Applies(a: Actor, input: Input, nsLabels: Labels) {
    match a
    case WindowActor(mw, _) => WindowApplies(mw, input, nsLabels)
    case FreezeActor(cf, _) => FreezeApplies(cf, input, nsLabels)
  }

  // The evaluator lists it against the request.
  predicate Denies(a: Actor, input: Input, nsLabels: Labels) {
    match a
    case WindowActor(mw, _) => WindowCandidate(mw, input, nsLabels).Some?
    case FreezeActor(cf, _) => FreezeCandidate(cf, input, nsLabels).Some?
  }

  // The run is what its controller does, around t, under the conditions that make its status accurate.
  ghost predicate Works(a: Actor, t: Time) {
    && Timely(a.run) && a.run[0].at <= t < a.run[|a.run| - 1].at
    && match a
       case WindowActor(mw, run) =>
         && WindowRun.IsRunOf(mw, run) && WindowRun.RunSettled(mw, run) && WindowRun.RunSighted(mw, run)
         && AllSettled(t, mw.timezone, mw.windows)
       case FreezeActor(cf, run) => FreezeSchedule.IsRunOf(cf, run)
  }

  lemma FlagIsDenial(a: Actor, input: Input, nsLabels: Labels)
    requires Works(a, input.now) && Applies(a, input, nsLabels)
    ensures (FreezesAt(a, input.now) <==> Denies(a, input, nsLabels)) || LastSecond(a.run, input.now)
  {
    hide WindowRun.IsRunOf, WindowRun.RunSettled, WindowRun.RunSighted, AllSettled, WindowApplies, WindowCandidate,
      FreezeSchedule.Evaluate, LastSecond, FlagAt;
    match a
    case WindowActor(mw, run) =>
      WindowFlagIsDenial(mw, run, input, nsLabels);
    case FreezeActor(cf, run) =>
      FreezeSchedule.RunAccuracy(cf, run, input.now);
  }

  /* A log of their reconciles, in any order that keeps each run's own */

  datatype Entry = Entry(actor: nat, tick: Tick)

  predicate Logged(fleet: seq<Actor>, log: seq<Entry>) {
    forall i :: 0 <= i < |log| ==> log[i].actor < |fleet|
  }

  function TicksOf(log: seq<Entry>, a: nat): seq<Tick>
    decreases |log|
  {
    if |log| == 0 then []
    else
      var n := |log| - 1;
      TicksOf(log[..n], a) + if log[n].actor == a then [log[n].tick] else []
  }

  function TicksUntil(run: seq<Tick>, t: Time): seq<Tick>
    decreases |run|
  {
    if |run| == 0 then []
    else
      var n := |run| - 1;
      TicksUntil(run[..n], t) + if run[n].at <= t then [run[n]] else []
  }

  // The log holds exactly the reconciles that the runs have made up to t.
  ghost predicate IsLog(fleet: seq<Actor>, log: seq<Entry>, t: Time) {
    && Logged(fleet, log)
    && forall a :: 0 <= a < |fleet| ==> TicksOf(log, a) == TicksUntil(fleet[a].run, t)
  }

  lemma {:induction false} LastTickIsFlag(run: seq<Tick>, t: Time)
    requires Timely(run) && run[0].at <= t
    ensures var ticks := TicksUntil(run, t); |ticks| > 0 && ticks[|ticks| - 1].verdict == FlagAt(run, t)
    decreases |run|
  {
    var n := |run| - 1;
    if n > 0 {
      if run[n - 1].at <= t || run[n].at > t {
        LastTickIsFlag(run[..n], t);
      }
    } else {
      assert TicksUntil(run[..0], t) == [];
    }
  }

  /* The visits that an object receives */

  // From the actors in `naming`, which select it, in the order of the log.
  ghost function StepsOn(fleet: seq<Actor>, log: seq<Entry>, naming: set<nat>): seq<Step>
    requires Logged(fleet, log)
    decreases |log|
  {
    if |log| == 0 then []
    else
      var n := |log| - 1;
      var e := log[n];
      StepsOn(fleet, log[..n], naming)
      + if e.actor in naming
        then [Step(NameOf(fleet[e.actor]), e.tick.verdict == FreezeWhen(fleet[e.actor]), true)]
        else []
  }

  ghost predicate DistinctNames(fleet: seq<Actor>, naming: set<nat>) {
    && (forall a :: a in naming ==> a < |fleet|)
    && (forall a, b :: a in naming && b in naming && a != b ==> NameOf(fleet[a]) != NameOf(fleet[b]))
  }

  // Every visit comes from one of them and goes through.
  lemma {:induction false} StepsAreNamed(fleet: seq<Actor>, log: seq<Entry>, naming: set<nat>, i: nat) returns (a: nat)
    requires Logged(fleet, log) && i < |StepsOn(fleet, log, naming)|
    ensures a in naming && a < |fleet|
    ensures StepsOn(fleet, log, naming)[i].policy == NameOf(fleet[a]) && StepsOn(fleet, log, naming)[i].updateOk
    decreases |log|
  {
    var n := |log| - 1;
    if i < |StepsOn(fleet, log[..n], naming)| {
      a := StepsAreNamed(fleet, log[..n], naming, i);
    } else {
      a := log[n].actor;
    }
  }

  // Step j is the last one of this policy.
  ghost predicate IsLastOf(steps: seq<Step>, policy: string, j: nat) {
    && j < |steps| && steps[j].policy == policy && steps[j].updateOk
    && forall i :: j < i < |steps| ==> steps[i].policy != policy
  }

  lemma {:induction false} LastFrozeIs(steps: seq<Step>, policy: string, j: nat)
    requires IsLastOf(steps, policy, j)
    ensures LastFroze(steps, policy) == steps[j].active
    decreases |steps|
  {
    if j < |steps| - 1 {
      LastFrozeIs(steps[..|steps| - 1], policy, j);
    }
  }

  // The last visit of an actor does what its last logged reconcile says.
  lemma {:induction false} LastStepOf(fleet: seq<Actor>, log: seq<Entry>, naming: set<nat>, a: nat) returns (j: nat)
    requires Logged(fleet, log) && DistinctNames(fleet, naming) && a in naming && |TicksOf(log, a)| > 0
    ensures var steps, ticks := StepsOn(fleet, log, naming), TicksOf(log, a);
            && IsLastOf(steps, NameOf(fleet[a]), j)
            && steps[j].active == (ticks[|ticks| - 1].verdict == FreezeWhen(fleet[a]))
    decreases |log|
  {
    var n := |log| - 1;
    if log[n].actor == a {
      j := |StepsOn(fleet, log[..n], naming)|;
    } else {
      j := LastStepOf(fleet, log[..n], naming, a);
    }
  }

  // Some policy's last visit froze exactly when the status of one of them calls for it.
  lemma SomeoneFrozeIff(fleet: seq<Actor>, log: seq<Entry>, naming: set<nat>, t: Time)
    requires IsLog(fleet, log, t) && DistinctNames(fleet, naming)
    requires forall a :: a in naming ==> Timely(fleet[a].run) && fleet[a].run[0].at <= t
    ensures SomeoneFroze(StepsOn(fleet, log, naming)) <==> exists a :: a in naming && FreezesAt(fleet[a], t)
  {
    hide StepsOn, LastFroze, FlagAt, TicksOf, TicksUntil;
    var steps := StepsOn(fleet, log, naming);
    forall a | a in naming
      ensures LastFroze(steps, NameOf(fleet[a])) <==> FreezesAt(fleet[a], t)
    {
      LastTickIsFlag(fleet[a].run, t);
      var j := LastStepOf(fleet, log, naming, a);
      LastFrozeIs(steps, NameOf(fleet[a]), j);
    }
    if SomeoneFroze(steps) {
      var p :| LastFroze(steps, p);
      var i := FrozeAt(steps, p);
      var a := StepsAreNamed(fleet, log, naming, i);
      assert FreezesAt(fleet[a], t);
    }
  }

  lemma {:induction false} FrozeAt(steps: seq<Step>, policy: string) returns (i: nat)
    requires LastFroze(steps, policy)
    ensures i < |steps| && steps[i].policy == policy
    decreases |steps|
  {
    var n := |steps| - 1;
    if steps[n].updateOk && steps[n].policy == policy {
      i := n;
    } else {
      i := FrozeAt(steps[..n], policy);
    }
  }

  /* GitOps objects */

  ghost function StoreAfter(server: GitOpsPass.Server, store: GitOpsPass.Store, fleet: seq<Actor>, log: seq<Entry>): GitOpsPass.Store
    requires Logged(fleet, log)
    decreases |log|
  {
    if |log| == 0 then store
    else
      var n := |log| - 1;
      var a := fleet[log[n].actor];
      Controllers.GitOpsAfter(server, StoreAfter(server, store, fleet, log[..n]), BehaviorOf(a), NameOf(a),
                              log[n].tick.verdict == FreezeWhen(a))
  }

  // The actors whose passes get to the object.
  ghost function Naming(server: GitOpsPass.Server, store: GitOpsPass.Store, fleet: seq<Actor>, k: GitOpsPass.Key): set<nat> {
    set a: nat | a < |fleet| && k in GitOpsProviders.PassKeys(server, store, BehaviorOf(fleet[a]).gitops)
  }

  lemma {:induction false} ObjectFollowsLog(server: GitOpsPass.Server, store: GitOpsPass.Store, fleet: seq<Actor>, log: seq<Entry>,
                                            k: GitOpsPass.Key)
    requires Logged(fleet, log) && k in store && k !in server.failing
    ensures var after := StoreAfter(server, store, fleet, log);
            && k in after && after[k] == AfterVisits(store[k], StepsOn(fleet, log, Naming(server, store, fleet, k)))
            && forall g :: GitOpsProviders.PassKeys(server, after, g) == GitOpsProviders.PassKeys(server, store, g)
    decreases |log|
  {
    hide GitOpsProviders.PassKeys, GitOpsPass.Visit, FluxObject.Visit, ArgoApplication.Visit;
    if |log| > 0 {
      var n := |log| - 1;
      var before, naming := StoreAfter(server, store, fleet, log[..n]), Naming(server, store, fleet, k);
      ObjectFollowsLog(server, store, fleet, log[..n], k);
      var a, freeze := fleet[log[n].actor], log[n].tick.verdict == FreezeWhen(fleet[log[n].actor]);
      var keys := GitOpsProviders.PassKeys(server, before, BehaviorOf(a).gitops);
      forall g
        ensures GitOpsProviders.PassKeys(server, StoreAfter(server, store, fleet, log), g) == GitOpsProviders.PassKeys(server, store, g)
      {
        GitOpsProviders.PassKeysStay(server, before, keys, g, NameOf(a), freeze);
      }
      var steps := StepsOn(fleet, log[..n], naming);
      OneMoreVisit(store[k], steps, Step(NameOf(a), freeze, true));
      assert steps + [] == steps;
    }
  }

  // Whatever the policies, their order and their number: an object is paused exactly when the user wants
  // it so, two freezes have met on it, or the status of a policy that names it calls for a freeze.
  lemma PausedFollowsFlags(server: GitOpsPass.Server, store: GitOpsPass.Store, fleet: seq<Actor>, log: seq<Entry>, t: Time,
                           k: GitOpsPass.Key)
    requires IsLog(fleet, log, t) && k in store && k !in server.failing && !Managed(GitOpsPass.AnnotationsOf(store[k]))
    requires var naming := Naming(server, store, fleet, k);
             && DistinctNames(fleet, naming)
             && forall a :: a in naming ==> Timely(fleet[a].run) && fleet[a].run[0].at <= t
    ensures var after, naming := StoreAfter(server, store, fleet, log), Naming(server, store, fleet, k);
            && k in after
            && (Paused(after[k]) <==>
                  || Paused(store[k]) || Collided(StepsOn(fleet, log, naming))
                  || exists a :: a in naming && FreezesAt(fleet[a], t))
  {
    hide StoreAfter, StepsOn, Naming, Paused, Collided, AfterVisits, Managed, Timely, SomeoneFroze, FreezesAt, DistinctNames;
    var naming := Naming(server, store, fleet, k);
    ObjectFollowsLog(server, store, fleet, log, k);
    PausedIff(store[k], StepsOn(fleet, log, naming));
    SomeoneFrozeIff(fleet, log, naming, t);
  }

  // The same in terms of admission: paused exactly when the user wants it so, two freezes have met on it, or
  // the evaluator lists a policy that names the object, unless one of these policies reconciles within
  // a second.
  lemma EnforcedInStep(server: GitOpsPass.Server, store: GitOpsPass.Store, fleet: seq<Actor>, log: seq<Entry>,
                       k: GitOpsPass.Key, input: Input, nsLabels: Labels)
    requires IsLog(fleet, log, input.now) && k in store && k !in server.failing && !Managed(GitOpsPass.AnnotationsOf(store[k]))
    requires var naming := Naming(server, store, fleet, k);
             && DistinctNames(fleet, naming)
             && forall a :: a in naming ==> Works(fleet[a], input.now) && Applies(fleet[a], input, nsLabels)
    ensures var after, naming := StoreAfter(server, store, fleet, log), Naming(server, store, fleet, k);
            && k in after
            && ((Paused(after[k]) <==>
                   || Paused(store[k]) || Collided(StepsOn(fleet, log, naming))
                   || exists a :: a in naming && Denies(fleet[a], input, nsLabels))
                || exists a :: a in naming && LastSecond(fleet[a].run, input.now))
  {
    hide StoreAfter, StepsOn, Naming, Paused, Collided, Managed, FreezesAt, Denies, Applies, LastSecond,
      WindowRun.IsRunOf, WindowRun.RunSettled, WindowRun.RunSighted, AllSettled, FreezeSchedule.IsRunOf, IsLog;
    PausedFollowsFlags(server, store, fleet, log, input.now, k);
    forall a | a in Naming(server, store, fleet, k)
      ensures (FreezesAt(fleet[a], input.now) <==> Denies(fleet[a], input, nsLabels)) || LastSecond(fleet[a].run, input.now)
    {
      FlagIsDenial(fleet[a], input, nsLabels);
    }
  }
}
