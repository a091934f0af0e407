/** Many passes of many policies over the store. */
module GitOpsRuns {
  import opened GitOpsAnnotations
  import opened GitOpsPass
  import opened Wrappers
  import ArgoApplication
  import FluxObject

  /* Convergence of one policy's passes */

  // A pass brings closer exactly what it managed to update; nothing it selects gets worse.
  lemma PassMakesProgress(store: Store, keys: set<Key>, failing: set<Key>, policy: string, active: bool)
    ensures var store' := After(store, keys, failing, policy, active);
            && Undesired(store', keys, policy, active) <= Undesired(store, keys, policy, active)
            && |Undesired(store', keys, policy, active)|
               == |Undesired(store, keys, policy, active)| - |Undesired(store, keys, policy, active) - failing|
  {
    hide After, Undesired;
    UndesiredAfter(store, keys, failing, policy, active);
    var u := Undesired(store, keys, policy, active);
    assert u == u * failing + (u - failing);
  }

  // Where everything is as the policy wants, a pass writes nothing and changes nothing.
  lemma FixpointIsQuiet(store: Store, keys: set<Key>, failing: set<Key>, policy: string, active: bool)
    requires Undesired(store, keys, policy, active) == {}
    ensures After(store, keys, failing, policy, active) == store
  {
    hide Visit, ManagedBy;
    forall k | k in keys && k in store
      ensures Visit(store[k], policy, active) == store[k]
    {
      assert k !in Undesired(store, keys, policy, active);
      VisitMeaning(store[k], policy, active);
    }
  }

  // Once updates stop failing, one pass reaches the fixpoint, whatever came before.
  lemma OnePassConverges(store: Store, keys: set<Key>, failing: set<Key>, policy: string, active: bool)
    ensures var store' := After(After(store, keys, failing, policy, active), keys, {}, policy, active);
            && Undesired(store', keys, policy, active) == {}
            && forall failing' :: After(store', keys, failing', policy, active) == store'
  {
    hide After, Undesired;
    var store1 := After(store, keys, failing, policy, active);
    UndesiredAfter(store1, keys, {}, policy, active);
    var store' := After(store1, keys, {}, policy, active);
    forall failing'
      ensures After(store', keys, failing', policy, active) == store'
    {
      FixpointIsQuiet(store', keys, failing', policy, active);
    }
  }

  // That is for one policy alone. Two active policies never settle on an object both select, whatever
  // fails: no store suits both, and each update by one makes work for the next pass of the other.
  lemma TwoActivePoliciesNeverSettle(store: Store, keys: set<Key>, keys': set<Key>, failing: set<Key>,
                                     policy: string, policy': string, k: Key)
    requires policy != policy' && k in keys * keys' && k in store && k !in failing
    ensures k in Undesired(store, keys, policy, true) + Undesired(store, keys', policy', true)
    ensures var store' := After(store, keys, failing, policy, true);
            && k !in Undesired(store', keys, policy, true)
            && k in Undesired(store', keys', policy', true) - failing
            && After(store', keys', failing, policy', true) != store'
  {
    hide Visit;
    VisitMeaning(store[k], policy, true);
    var held := After(store, keys, failing, policy, true)[k];
    VisitMeaning(held, policy', true);
  }

  // One object, visited by one policy and then by another: who holds it.
  lemma TwoVisits(r: Resource, policy: string, active: bool, policy': string, active': bool)
    requires policy != policy'
    ensures var r' := Visit(Visit(r, policy, active), policy', active');
            && (ManagedBy(AnnotationsOf(r'), policy) <==> active && !active')
            && (ManagedBy(AnnotationsOf(r'), policy') <==> active')
  {
    VisitMeaning(r, policy, active);
    var held := Visit(r, policy, active);
    VisitMeaning(held, policy', active');
    if !active' {
      InactiveVisitKeepsOthers(held, policy', policy);
    }
  }

  // An inactive visit takes no object from another policy.
  lemma InactiveVisitKeepsOthers(r: Resource, policy: string, other: string)
    requires policy != other
    ensures ManagedBy(AnnotationsOf(Visit(r, policy, false)), other) <==> ManagedBy(AnnotationsOf(r), other)
  {
    hide Mark, Unmark;
    match r
    case AppObject(app) =>
      MarkMeaning(app.annotations, ORIGINAL_AUTOSYNC, ArgoApplication.Encode(ArgoApplication.AutoSync(app)), policy);
    case FluxResource(flux) =>
      MarkMeaning(flux.annotations, ORIGINAL_SUSPEND, FormatBool(FluxObject.Suspended(flux)), policy);
  }

  // Two policies settle, after one pass of each without failures, if and only if they are not both
  // active with an object that both select.
  lemma TwoPoliciesSettleIff(store: Store, keys: set<Key>, keys': set<Key>, policy: string, active: bool, policy': string, active': bool)
    requires policy != policy'
    ensures var store' := After(After(store, keys, {}, policy, active), keys', {}, policy', active');
            Undesired(store', keys, policy, active) == {} == Undesired(store', keys', policy', active')
            <==> !(active && active' && exists k :: k in keys * keys' && k in store)
  {
    hide Visit, ManagedBy;
    var store' := After(After(store, keys, {}, policy, active), keys', {}, policy', active');
    forall k | k in store
      ensures k in keys && k !in keys' ==> k !in Undesired(store', keys, policy, active)
      ensures k in keys' ==> k !in Undesired(store', keys', policy', active')
      ensures k in keys * keys' ==> (k in Undesired(store', keys, policy, active) <==> active && active')
    {
      VisitMeaning(store[k], policy, active);
      VisitMeaning(After(store, keys, {}, policy, active)[k], policy', active');
      TwoVisits(store[k], policy, active, policy', active');
    }
  }

  // After an inactive pass the policy still holds exactly what it held and could not restore.
  lemma InactivePassReleases(store: Store, keys: set<Key>, failing: set<Key>, policy: string)
    ensures MarkedBy(After(store, keys, failing, policy, false), keys, policy) == MarkedBy(store, keys, policy) * failing
  {
    hide After;
    var store' := After(store, keys, failing, policy, false);
    UndesiredAfter(store, keys, failing, policy, false);
    assert MarkedBy(store', keys, policy) == Undesired(store', keys, policy, false);
    assert MarkedBy(store, keys, policy) == Undesired(store, keys, policy, false);
  }

  /* Interleavings */

  // One pass: whose, on or off, which objects it selected and which updates failed.
  datatype Pass = Pass(policy: string, active: bool, keys: set<Key>, failing: set<Key>)

  ghost function StoreRun(store: Store, passes: seq<Pass>): Store
    decreases |passes|
  {
    if |passes| == 0 then store
    else
      var n := |passes| - 1;
      var p := passes[n];
      After(StoreRun(store, passes[..n]), p.keys, p.failing, p.policy, p.active)
  }

  // The visits that one object receives.
  ghost function StepsOf(k: Key, passes: seq<Pass>): seq<Step>
    decreases |passes|
  {
    if |passes| == 0 then []
    else
      var n := |passes| - 1;
      var p := passes[n];
      StepsOf(k, passes[..n]) + if k in p.keys then [Step(p.policy, p.active, k !in p.failing)] else []
  }

  // In any interleaving of passes every object runs on its own: what the store holds for it is
  // the object-level run of the visits it received, and nothing appears or disappears.
  lemma {:induction false} ObjectsRunIndependently(store: Store, passes: seq<Pass>, k: Key)
    requires k in store
    ensures StoreRun(store, passes).Keys == store.Keys
    ensures match store[k]
            case FluxResource(o) =>
              StoreRun(store, passes)[k] == FluxResource(FluxObject.Run(o, StepsOf(k, passes)))
            case AppObject(o) =>
              StoreRun(store, passes)[k] == AppObject(ArgoApplication.Run(o, StepsOf(k, passes)))
    decreases |passes|
  {
    hide FluxObject.Visit, ArgoApplication.Visit;
    if |passes| > 0 {
      var n := |passes| - 1;
      ObjectsRunIndependently(store, passes[..n], k);
      var front, steps := StepsOf(k, passes[..n]), StepsOf(k, passes);
      if k in passes[n].keys {
        assert steps[..|steps| - 1] == front;
      } else {
        assert steps == front;
      }
    }
  }

  // Managed implies paused, in every store reachable from one where nothing is managed.
  lemma ReachableManagedIsPaused(store: Store, passes: seq<Pass>, k: Key)
    requires k in store && !Managed(AnnotationsOf(store[k]))
    requires k in StoreRun(store, passes) && Managed(AnnotationsOf(StoreRun(store, passes)[k]))
    ensures match StoreRun(store, passes)[k]
            case FluxResource(o) =>
              o.suspend == FluxObject.Flag(true) && ORIGINAL_SUSPEND in o.annotations && MANAGED_BY_POLICY in o.annotations
            case AppObject(o) =>
              o.automated == ArgoApplication.Absent && ORIGINAL_AUTOSYNC in o.annotations && MANAGED_BY_POLICY in o.annotations
  {
    hide FluxObject.Run, ArgoApplication.Run, FluxObject.TookOver, ArgoApplication.TookOver, StoreRun;
    ObjectsRunIndependently(store, passes, k);
    var steps := StepsOf(k, passes);
    match store[k]
    case FluxResource(o) =>
      FluxObject.ManagedIsPaused(o, steps);
    case AppObject(o) =>
      ArgoApplication.ManagedIsPaused(o, steps);
  }

  // Released Flux objects over any interleaving: the user's value, unless a takeover happened.
  lemma ReleasedFluxValue(store: Store, passes: seq<Pass>, k: Key)
    requires k in store && store[k].FluxResource? && !Managed(store[k].flux.annotations)
    requires k in StoreRun(store, passes) && !Managed(AnnotationsOf(StoreRun(store, passes)[k]))
    ensures var o, r := store[k].flux, StoreRun(store, passes)[k];
            && r.FluxResource?
            && (FluxObject.Suspended(r.flux) <==> FluxObject.Suspended(o) || FluxObject.TookOver(o, StepsOf(k, passes)))
  {
    hide FluxObject.Run, FluxObject.TookOver, StoreRun, Managed;
    ObjectsRunIndependently(store, passes, k);
    FluxObject.ReleasedValue(store[k].flux, StepsOf(k, passes));
  }

  // Released Applications over any interleaving: the user's autosync, or none after a takeover.
  lemma ReleasedAppValue(store: Store, passes: seq<Pass>, k: Key)
    requires k in store && store[k].AppObject? && !Managed(store[k].app.annotations)
    requires k in StoreRun(store, passes) && !Managed(AnnotationsOf(StoreRun(store, passes)[k]))
    ensures var o, r := store[k].app, StoreRun(store, passes)[k];
            && r.AppObject?
            && ArgoApplication.AutoSync(r.app)
               == if ArgoApplication.TookOver(o, StepsOf(k, passes)) then None else ArgoApplication.AutoSync(o)
  {
    hide ArgoApplication.Run, ArgoApplication.TookOver, StoreRun, Managed;
    ObjectsRunIndependently(store, passes, k);
    ArgoApplication.ReleasedValue(store[k].app, StepsOf(k, passes));
  }
}
