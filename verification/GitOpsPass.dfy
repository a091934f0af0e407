/** One pass of a policy over the GitOps objects it selects: list loops, failed updates, counts. */
module GitOpsPass {
  import opened GitOpsAnnotations
  import opened Policies
  import opened Wrappers
  import ArgoApplication
  import FluxObject

  datatype Kind = ApplicationKind | KustomizationKind | HelmReleaseKind

  datatype Key = Key(kind: Kind, namespace: string, name: string)

  datatype Resource = AppObject(app: ArgoApplication.Application) | FluxResource(flux: FluxObject.Flux)

  datatype Namespace = Namespace(name: string, labels: Labels)

  // How a list call ends: with items, with a missing CRD, or with another failure.
  datatype ListOutcome = Listed | NoMatch | ListFailed

  // The API server during one pass: the order in which it enumerates objects, the namespaces
  // (None is a failed list), how each list call ends, and which objects refuse to be updated.
  datatype Server = Server(
    order: seq<Key>,
    namespaces: Option<seq<Namespace>>,
    outcomes: map<(Kind, string), ListOutcome>,
    failing: set<Key>)

  type Store = map<Key, Resource>

  datatype GitOpsError = InvalidSelector | ListNamespacesFailed | ListObjectsFailed

  function LabelsOf(r: Resource): Labels {
    if r.AppObject? then r.app.labels else r.flux.labels
  }

  function AnnotationsOf(r: Resource): Annotations {
    if r.AppObject? then r.app.annotations else r.flux.annotations
  }

  // One successful visit, whatever the kind.
  function Visit(r: Resource, policy: string, active: bool): Resource {
    match r
    case AppObject(app) => AppObject(ArgoApplication.Visit(app, policy, active))
    case FluxResource(flux) => FluxResource(FluxObject.Visit(flux, policy, active))
  }

  /* What a pass does to the store, as a whole */

  // Every object in `keys` is visited; where the update fails the stored object stays as it was.
  ghost function After(store: Store, keys: set<Key>, failing: set<Key>, policy: string, active: bool): Store {
    map k | k in store :: if k in keys && k !in failing then Visit(store[k], policy, active) else store[k]
  }

  // The objects in `keys` that the policy holds.
  ghost function MarkedBy(store: Store, keys: set<Key>, policy: string): set<Key> {
    set k | k in keys && k in store && ManagedBy(AnnotationsOf(store[k]), policy)
  }

  // The objects in `keys` that are not as the policy wants them.
  ghost function Undesired(store: Store, keys: set<Key>, policy: string, active: bool): set<Key> {
    set k | k in keys && k in store && ManagedBy(AnnotationsOf(store[k]), policy) != active
  }

  lemma VisitMeaning(r: Resource, policy: string, active: bool)
    ensures ManagedBy(AnnotationsOf(Visit(r, policy, active)), policy) == active
    ensures ManagedBy(AnnotationsOf(r), policy) == active ==> Visit(r, policy, active) == r
    ensures LabelsOf(Visit(r, policy, active)) == LabelsOf(r)
    ensures Visit(r, policy, active).AppObject? == r.AppObject?
  {
    hide Mark, Unmark;
    match r
    case AppObject(app) =>
      MarkMeaning(app.annotations, ORIGINAL_AUTOSYNC, ArgoApplication.Encode(ArgoApplication.AutoSync(app)), policy);
    case FluxResource(flux) =>
      MarkMeaning(flux.annotations, ORIGINAL_SUSPEND, FormatBool(FluxObject.Suspended(flux)), policy);
  }

  // After a pass the objects still not as wanted are exactly those that were not and whose update failed.
  lemma UndesiredAfter(store: Store, keys: set<Key>, failing: set<Key>, policy: string, active: bool)
    ensures Undesired(After(store, keys, failing, policy, active), keys, policy, active)
         == Undesired(store, keys, policy, active) * failing
  {
    hide Visit, ManagedBy;
    var store' := After(store, keys, failing, policy, active);
    forall k | k in keys && k in store
      ensures k in Undesired(store', keys, policy, active) <==> k in Undesired(store, keys, policy, active) * failing
    {
      VisitMeaning(store[k], policy, active);
    }
  }

  // Visiting one set of objects and then a disjoint one is visiting their union.
  lemma AfterUnion(store: Store, a: set<Key>, b: set<Key>, failing: set<Key>, policy: string, active: bool)
    requires a !! b
    ensures After(After(store, a, failing, policy, active), b, failing, policy, active)
         == After(store, a + b, failing, policy, active)
  {}

  /* Selection */

  // The objects of one kind in the given namespaces whose labels the selector accepts.
  ghost function Selected(server: Server, store: Store, kind: Kind, nss: set<string>, sel: LabelSelector): set<Key> {
    set k | k in server.order && k in store && k.kind == kind && k.namespace in nss && Selects(sel, LabelsOf(store[k]))
  }

  // A visit never changes what is selected.
  lemma SelectionStays(server: Server, store: Store, keys: set<Key>, policy: string, active: bool,
                       kind: Kind, nss: set<string>, sel: LabelSelector)
    ensures Selected(server, After(store, keys, server.failing, policy, active), kind, nss, sel)
         == Selected(server, store, kind, nss, sel)
  {
    hide Visit, Selects;
    var store' := After(store, keys, server.failing, policy, active);
    forall k | k in store
      ensures LabelsOf(store'[k]) == LabelsOf(store[k])
    {
      VisitMeaning(store[k], policy, active);
    }
  }

  function OutcomeOf(server: Server, kind: Kind, ns: string): ListOutcome {
    if (kind, ns) in server.outcomes then server.outcomes[(kind, ns)] else Listed
  }

  ghost predicate WellFormed(server: Server, store: Store) {
    && (forall i, j :: 0 <= i < j < |server.order| ==> server.order[i] != server.order[j])
    && (forall k :: k in server.order ==> k in store)
    && (forall k :: k in store ==> (k.kind.ApplicationKind? <==> store[k].AppObject?))
    && (server.namespaces.Some? ==>
          forall i, j :: 0 <= i < j < |server.namespaces.value| ==>
            server.namespaces.value[i].name != server.namespaces.value[j].name)
  }
}
