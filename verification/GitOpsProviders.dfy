/** A whole GitOps reconcile: namespaces, the two providers, and the paused count. */
module GitOpsProviders {
  import opened GitOpsPass
  import opened GitOpsReconciler
  import opened Policies
  import opened Wrappers

  /* Namespaces */

  function Names(nss: seq<Namespace>, sel: LabelSelector): seq<string>
    decreases |nss|
  {
    if |nss| == 0 then []
    else
      var n := |nss| - 1;
      Names(nss[..n], sel) + if Selects(sel, nss[n].labels) then [nss[n].name] else []
  }

  function MatchingNamespaces(server: Server, sel: LabelSelector): Result<seq<string>, GitOpsError> {
    if !SelectorParses(sel) then Err(InvalidSelector)
    else if server.namespaces.None? then Err(ListNamespacesFailed)
    else Ok(Names(server.namespaces.value, sel))
  }

  // Some namespace of this name has labels that the selector accepts.
  ghost predicate Matches(nss: seq<Namespace>, sel: LabelSelector, name: string) {
    exists i :: 0 <= i < |nss| && nss[i].name == name && Selects(sel, nss[i].labels)
  }

  lemma MatchesSplit(nss: seq<Namespace>, sel: LabelSelector, name: string)
    ensures Matches(nss, sel, name) <==>
              var n := |nss| - 1;
              n >= 0 && (Matches(nss[..n], sel, name) || (nss[n].name == name && Selects(sel, nss[n].labels)))
  {
    hide Selects;
    if |nss| > 0 {
      var front := nss[..|nss| - 1];
      assert forall i :: 0 <= i < |front| ==> front[i] == nss[i];
      if Matches(front, sel, name) {
        var i :| 0 <= i < |front| && front[i].name == name && Selects(sel, front[i].labels);
        assert nss[i].name == name;
      }
    }
  }

  lemma {:induction false} NamesMatch(nss: seq<Namespace>, sel: LabelSelector, name: string)
    ensures name in Names(nss, sel) <==> Matches(nss, sel, name)
    decreases |nss|
  {
    hide Selects, Matches;
    MatchesSplit(nss, sel, name);
    if |nss| > 0 {
      NamesMatch(nss[..|nss| - 1], sel, name);
    }
  }

  // The names are distinct and exactly those of matching namespaces.
  lemma {:induction false} NamesAre(nss: seq<Namespace>, sel: LabelSelector)
    requires forall i, j :: 0 <= i < j < |nss| ==> nss[i].name != nss[j].name
    ensures Distinct(Names(nss, sel))
    ensures forall x :: x in Names(nss, sel) <==> Matches(nss, sel, x)
    decreases |nss|
  {
    hide Selects;
    forall x
      ensures x in Names(nss, sel) <==> Matches(nss, sel, x)
    {
      NamesMatch(nss, sel, x);
    }
    if |nss| > 0 {
      var n := |nss| - 1;
      NamesAre(nss[..n], sel);
      assert !Matches(nss[..n], sel, nss[n].name);
    }
  }

  method ListMatchingNamespaces(c: Client, sel: LabelSelector) returns (r: Result<seq<string>, GitOpsError>)
    ensures r == MatchingNamespaces(c.server, sel)
  {
    if sel.Some? && !sel.value.parses {
      return Err(InvalidSelector);
    }
    if c.server.namespaces.None? {
      return Err(ListNamespacesFailed);
    }
    var nss, names := c.server.namespaces.value, [];
    for i := 0 to |nss|
      invariant names == Names(nss[..i], sel)
    {
      assert nss[..i + 1][..i] == nss[..i];
      if Selects(sel, nss[i].labels) {
        names := names + [nss[i].name];
      }
    }
    assert nss[..|nss|] == nss;
    return Ok(names);
  }

  /* What a pass gets to, fails on, and counts */

  ghost function ArgoKeys(server: Server, store: Store, spec: Option<ArgoSpec>): set<Key> {
    if spec.None? || MatchingNamespaces(server, spec.value.namespaceSelector).Err? then {}
    else
      var nss := MatchingNamespaces(server, spec.value.namespaceSelector).value;
      ResourceKeys(server, store, ApplicationKind, nss, spec.value.applicationSelector)
  }

  function ArgoError(server: Server, spec: Option<ArgoSpec>): Option<GitOpsError> {
    if spec.None? then None
    else
      match MatchingNamespaces(server, spec.value.namespaceSelector)
      case Err(e) => Some(e)
      case Ok(nss) => ResourceError(server, ApplicationKind, nss, spec.value.applicationSelector)
  }

  ghost function KustomizationKeys(server: Server, store: Store, spec: Option<FluxSpec>): set<Key> {
    if spec.None? || MatchingNamespaces(server, spec.value.namespaceSelector).Err? then {}
    else
      var nss := MatchingNamespaces(server, spec.value.namespaceSelector).value;
      ResourceKeys(server, store, KustomizationKind, nss, spec.value.kustomizationSelector)
  }

  // HelmReleases are not reached once the Kustomizations have failed.
  ghost function HelmReleaseKeys(server: Server, store: Store, spec: Option<FluxSpec>): set<Key> {
    if spec.None? || MatchingNamespaces(server, spec.value.namespaceSelector).Err? then {}
    else
      var nss := MatchingNamespaces(server, spec.value.namespaceSelector).value;
      if ResourceError(server, KustomizationKind, nss, spec.value.kustomizationSelector).Some? then {}
      else ResourceKeys(server, store, HelmReleaseKind, nss, spec.value.helmReleaseSelector)
  }

  function FluxError(server: Server, spec: Option<FluxSpec>): Option<GitOpsError> {
    if spec.None? then None
    else
      match MatchingNamespaces(server, spec.value.namespaceSelector)
      case Err(e) => Some(e)
      case Ok(nss) =>
        var e := ResourceError(server, KustomizationKind, nss, spec.value.kustomizationSelector);
        if e.Some? then e else ResourceError(server, HelmReleaseKind, nss, spec.value.helmReleaseSelector)
  }

  ghost function ArgoCount(server: Server, before: Store, after: Store, spec: Option<ArgoSpec>, policy: string): nat {
    if spec.None? || MatchingNamespaces(server, spec.value.namespaceSelector).Err? then 0
    else
      var nss := MatchingNamespaces(server, spec.value.namespaceSelector).value;
      KindCount(server, before, after, ApplicationKind, nss, spec.value.applicationSelector, policy)
  }

  // A failure drops the count of its own kind and of what comes after.
  ghost function FluxCount(server: Server, before: Store, after: Store, spec: Option<FluxSpec>, policy: string): nat {
    if spec.None? || MatchingNamespaces(server, spec.value.namespaceSelector).Err? then 0
    else
      var nss := MatchingNamespaces(server, spec.value.namespaceSelector).value;
      var kSel, hSel := spec.value.kustomizationSelector, spec.value.helmReleaseSelector;
      if ResourceError(server, KustomizationKind, nss, kSel).Some? then 0
      else
        KindCount(server, before, after, KustomizationKind, nss, kSel, policy)
        + if ResourceError(server, HelmReleaseKind, nss, hSel).Some? then 0
          else KindCount(server, before, after, HelmReleaseKind, nss, hSel, policy)
  }

  // All list calls for one kind succeed.
  predicate AllListed(server: Server, kind: Kind, nss: seq<string>, sel: LabelSelector) {
    SelectorParses(sel) && Reach(server, kind, nss) == |nss|
  }

  predicate ArgoListed(server: Server, spec: Option<ArgoSpec>) {
    spec.Some? ==>
      var nss := MatchingNamespaces(server, spec.value.namespaceSelector);
      nss.Ok? && AllListed(server, ApplicationKind, nss.value, spec.value.applicationSelector)
  }

  predicate FluxListed(server: Server, spec: Option<FluxSpec>) {
    spec.Some? ==>
      var nss := MatchingNamespaces(server, spec.value.namespaceSelector);
      && nss.Ok?
      && AllListed(server, KustomizationKind, nss.value, spec.value.kustomizationSelector)
      && AllListed(server, HelmReleaseKind, nss.value, spec.value.helmReleaseSelector)
  }

  lemma NamespacesDistinct(server: Server, store: Store, sel: LabelSelector)
    requires WellFormed(server, store) && MatchingNamespaces(server, sel).Ok?
    ensures Distinct(MatchingNamespaces(server, sel).value)
  {
    NamesAre(server.namespaces.value, sel);
  }

  lemma ListedMeansNoError(server: Server, kind: Kind, nss: seq<string>, sel: LabelSelector)
    requires AllListed(server, kind, nss, sel)
    ensures StoppedBy(server, kind, nss).Listed? && ResourceError(server, kind, nss, sel).None?
  {}

  /* The providers */

  method ReconcileArgoCD(c: Client, spec: Option<ArgoSpec>, policy: string, active: bool)
    returns (n: nat, err: Option<GitOpsError>)
    requires WellFormed(c.server, c.store)
    modifies c
    ensures var keys := ArgoKeys(c.server, old(c.store), spec);
            && c.store == After(old(c.store), keys, c.server.failing, policy, active)
            && c.writes == old(c.writes) + |Undesired(old(c.store), keys, policy, active) - c.server.failing|
            && n == (if active then ArgoCount(c.server, old(c.store), c.store, spec, policy) else 0)
            && (ArgoListed(c.server, spec) ==> n == if active then |MarkedBy(c.store, keys, policy)| else 0)
    ensures err == ArgoError(c.server, spec)
    ensures ArgoListed(c.server, spec) ==> err.None?
  {
    hide After, Undesired, MarkedBy, ResourceKeys, StoppedBy, AllListed, MatchingNamespaces, WellFormed;
    NothingVisited(c.store, c.server.failing, policy, active);
    if spec.None? {
      return 0, None;
    }
    var nss := ListMatchingNamespaces(c, spec.value.namespaceSelector);
    if nss.Err? {
      return 0, Some(nss.error);
    }
    NamespacesDistinct(c.server, c.store, spec.value.namespaceSelector);
    if AllListed(c.server, ApplicationKind, nss.value, spec.value.applicationSelector) {
      ListedMeansNoError(c.server, ApplicationKind, nss.value, spec.value.applicationSelector);
    }
    n, err := ReconcileResources(c, ApplicationKind, spec.value.applicationSelector, nss.value, policy, active);
  }

  // The two Flux kinds cannot overlap, so two passes are one pass over both.
  lemma TwoKinds(server: Server, before: Store, kind: Kind, kind': Kind, nss: seq<string>,
                 sel: LabelSelector, sel': LabelSelector, policy: string, active: bool)
    requires kind != kind' && WellFormed(server, before)
    ensures var a, b := ResourceKeys(server, before, kind, nss, sel), ResourceKeys(server, before, kind', nss, sel');
            var store, store' := After(before, a, server.failing, policy, active), After(before, a + b, server.failing, policy, active);
            && a !! b && WellFormed(server, store)
            && ResourceKeys(server, store, kind', nss, sel') == b
            && After(store, b, server.failing, policy, active) == store'
            && MarkedBy(store', a, policy) == MarkedBy(store, a, policy)
            && |MarkedBy(store', a + b, policy)| == |MarkedBy(store, a, policy)| + |MarkedBy(store', b, policy)|
            && |Undesired(before, a + b, policy, active) - server.failing|
               == |Undesired(before, a, policy, active) - server.failing| + |Undesired(store, b, policy, active) - server.failing|
  {
    hide After, Undesired, MarkedBy, WellFormed, Reach, Selects;
    ReachWithin(server, kind', nss);
    var a, b := ResourceKeys(server, before, kind, nss, sel), ResourceKeys(server, before, kind', nss, sel');
    SelectionStays(server, before, a, policy, active, kind', Elements(nss[..Reach(server, kind', nss)]), sel');
    MoreKeys(before, a, b, server.failing, policy, active);
    WellFormedStays(server, before, a, policy, active);
  }

  lemma FluxListedMeans(server: Server, spec: Option<FluxSpec>, nss: seq<string>)
    requires spec.Some? && MatchingNamespaces(server, spec.value.namespaceSelector) == Ok(nss)
    ensures FluxListed(server, spec) ==>
              && StoppedBy(server, KustomizationKind, nss).Listed?
              && ResourceError(server, KustomizationKind, nss, spec.value.kustomizationSelector).None?
              && StoppedBy(server, HelmReleaseKind, nss).Listed?
              && ResourceError(server, HelmReleaseKind, nss, spec.value.helmReleaseSelector).None?
  {
    hide MatchingNamespaces, Reach;
    if FluxListed(server, spec) {
      ListedMeansNoError(server, KustomizationKind, nss, spec.value.kustomizationSelector);
      ListedMeansNoError(server, HelmReleaseKind, nss, spec.value.helmReleaseSelector);
    }
  }

  // The count of one kind depends on what it gets to and on the marks it finds there.
  lemma KindCountStays(server: Server, before: Store, after: Store, before': Store, after': Store, kind: Kind, nss: seq<string>,
                       sel: LabelSelector, policy: string)
    requires ResourceKeys(server, before, kind, nss, sel) == ResourceKeys(server, before', kind, nss, sel)
    requires var keys := ResourceKeys(server, before, kind, nss, sel); MarkedBy(after, keys, policy) == MarkedBy(after', keys, policy)
    ensures KindCount(server, before, after, kind, nss, sel, policy) == KindCount(server, before', after', kind, nss, sel, policy)
  {
    hide ResourceKeys, MarkedBy, StoppedBy;
  }

  // Without a missing CRD the count is that of the marks.
  lemma KindCountIs(server: Server, before: Store, after: Store, kind: Kind, nss: seq<string>, sel: LabelSelector, policy: string)
    requires !StoppedBy(server, kind, nss).NoMatch?
    ensures KindCount(server, before, after, kind, nss, sel, policy) == |MarkedBy(after, ResourceKeys(server, before, kind, nss, sel), policy)|
  {}

  lemma NoFluxKeys(server: Server, store: Store, spec: Option<FluxSpec>)
    requires spec.None? || MatchingNamespaces(server, spec.value.namespaceSelector).Err?
    ensures KustomizationKeys(server, store, spec) + HelmReleaseKeys(server, store, spec) == {}
    ensures !(spec.Some? && FluxListed(server, spec))
  {}

  // A failure of the Kustomizations drops their count, one of the HelmReleases drops only its own.
  method ReconcileFlux(c: Client, spec: Option<FluxSpec>, policy: string, active: bool)
    returns (n: nat, err: Option<GitOpsError>)
    requires WellFormed(c.server, c.store)
    modifies c
    ensures var keys := KustomizationKeys(c.server, old(c.store), spec) + HelmReleaseKeys(c.server, old(c.store), spec);
            && c.store == After(old(c.store), keys, c.server.failing, policy, active)
            && c.writes == old(c.writes) + |Undesired(old(c.store), keys, policy, active) - c.server.failing|
            && n == (if active then FluxCount(c.server, old(c.store), c.store, spec, policy) else 0)
            && (FluxListed(c.server, spec) ==> n == if active then |MarkedBy(c.store, keys, policy)| else 0)
    ensures err == FluxError(c.server, spec)
    ensures FluxListed(c.server, spec) ==> err.None?
  {
    hide After, Undesired, MarkedBy, ResourceKeys, StoppedBy, FluxListed, MatchingNamespaces, WellFormed, ResourceError, KindCount;
    ghost var before := c.store;
    NothingVisited(c.store, c.server.failing, policy, active);
    if spec.None? {
      NoFluxKeys(c.server, before, spec);
      return 0, None;
    }
    var nss := ListMatchingNamespaces(c, spec.value.namespaceSelector);
    if nss.Err? {
      NoFluxKeys(c.server, before, spec);
      return 0, Some(nss.error);
    }
    NamespacesDistinct(c.server, c.store, spec.value.namespaceSelector);
    ghost var kSel, hSel := spec.value.kustomizationSelector, spec.value.helmReleaseSelector;
    FluxListedMeans(c.server, spec, nss.value);
    TwoKinds(c.server, before, KustomizationKind, HelmReleaseKind, nss.value, kSel, hSel, policy, active);
    n := 0;
    var total;
    total, err := ReconcileResources(c, KustomizationKind, spec.value.kustomizationSelector, nss.value, policy, active);
    if err.Some? {
      assert KustomizationKeys(c.server, before, spec) + HelmReleaseKeys(c.server, before, spec)
          == KustomizationKeys(c.server, before, spec);
      return n, err;
    }
    n := n + total;
    ghost var halfway := c.store;
    total, err := ReconcileResources(c, HelmReleaseKind, spec.value.helmReleaseSelector, nss.value, policy, active);
    KindCountStays(c.server, before, halfway, before, c.store, KustomizationKind, nss.value, kSel, policy);
    KindCountStays(c.server, halfway, c.store, before, c.store, HelmReleaseKind, nss.value, hSel, policy);
    if FluxListed(c.server, spec) {
      KindCountIs(c.server, before, c.store, KustomizationKind, nss.value, kSel, policy);
      KindCountIs(c.server, before, c.store, HelmReleaseKind, nss.value, hSel, policy);
    }
    if err.Some? {
      return n, err;
    }
    n := n + total;
    return n, None;
  }

  /* Both providers */

  datatype ReconcileResult = ReconcileResult(pausedCount: nat, errors: seq<(Provider, GitOpsError)>)

  // Every object the reconcile of this policy gets to.
  ghost function ArgoPassKeys(server: Server, store: Store, gitops: Option<GitOpsSpec>): set<Key> {
    if gitops.Some? && gitops.value.enabled && ArgoCD in gitops.value.providers
    then ArgoKeys(server, store, gitops.value.argocd) else {}
  }

  ghost function FluxPassKeys(server: Server, store: Store, gitops: Option<GitOpsSpec>): set<Key> {
    if gitops.Some? && gitops.value.enabled && Flux in gitops.value.providers
    then KustomizationKeys(server, store, gitops.value.flux) + HelmReleaseKeys(server, store, gitops.value.flux) else {}
  }

  ghost function PassKeys(server: Server, store: Store, gitops: Option<GitOpsSpec>): set<Key> {
    ArgoPassKeys(server, store, gitops) + FluxPassKeys(server, store, gitops)
  }

  // All list calls of the pass succeed.
  predicate EverythingListed(server: Server, gitops: Option<GitOpsSpec>) {
    gitops.Some? && gitops.value.enabled ==>
      ArgoAllListed(server, gitops.value) && FluxAllListed(server, gitops.value)
  }

  function ProviderErrors(server: Server, gitops: Option<GitOpsSpec>): seq<(Provider, GitOpsError)> {
    if gitops.None? || !gitops.value.enabled then []
    else
      var a := if ArgoCD in gitops.value.providers then ArgoError(server, gitops.value.argocd) else None;
      var f := if Flux in gitops.value.providers then FluxError(server, gitops.value.flux) else None;
      (if a.Some? then [(ArgoCD, a.value)] else []) + (if f.Some? then [(Flux, f.value)] else [])
  }

  ghost function ArgoPassCount(server: Server, before: Store, after: Store, gitops: GitOpsSpec, policy: string): nat {
    if ArgoCD in gitops.providers then ArgoCount(server, before, after, gitops.argocd, policy) else 0
  }

  ghost function FluxPassCount(server: Server, before: Store, after: Store, gitops: GitOpsSpec, policy: string): nat {
    if Flux in gitops.providers then FluxCount(server, before, after, gitops.flux, policy) else 0
  }

  // What a pass counts, whatever fails on the way.
  ghost function PassCount(server: Server, before: Store, after: Store, gitops: Option<GitOpsSpec>, policy: string): nat {
    if gitops.None? || !gitops.value.enabled then 0
    else ArgoPassCount(server, before, after, gitops.value, policy) + FluxPassCount(server, before, after, gitops.value, policy)
  }

  // The two halves of a pass do not disturb each other's counts.
  lemma ArgoCountStays(server: Server, before: Store, store: Store, after: Store, gitops: GitOpsSpec, policy: string)
    requires gitops.enabled
    requires var keys := ArgoPassKeys(server, before, Some(gitops)); MarkedBy(store, keys, policy) == MarkedBy(after, keys, policy)
    ensures ArgoPassCount(server, before, after, gitops, policy) == ArgoPassCount(server, before, store, gitops, policy)
  {
    hide MarkedBy, MatchingNamespaces, ResourceKeys, StoppedBy;
  }

  lemma FluxCountStays(server: Server, before: Store, keys: set<Key>, after: Store, gitops: GitOpsSpec, policy: string, active: bool)
    ensures FluxPassCount(server, After(before, keys, server.failing, policy, active), after, gitops, policy)
         == FluxPassCount(server, before, after, gitops, policy)
  {
    hide After, MarkedBy, MatchingNamespaces, ResourceKeys, StoppedBy, ResourceError;
    if gitops.flux.Some? && MatchingNamespaces(server, gitops.flux.value.namespaceSelector).Ok? {
      var nss := MatchingNamespaces(server, gitops.flux.value.namespaceSelector).value;
      KindKeysStay(server, before, keys, KustomizationKind, nss, gitops.flux.value.kustomizationSelector, policy, active);
      KindKeysStay(server, before, keys, HelmReleaseKind, nss, gitops.flux.value.helmReleaseSelector, policy, active);
    }
  }

  // What a pass over one kind gets to does not depend on what other passes have done.
  lemma KindKeysStay(server: Server, before: Store, keys: set<Key>, kind: Kind, nss: seq<string>, sel: LabelSelector,
                     policy: string, active: bool)
    ensures ResourceKeys(server, After(before, keys, server.failing, policy, active), kind, nss, sel)
         == ResourceKeys(server, before, kind, nss, sel)
  {
    hide After, Selected;
    ReachWithin(server, kind, nss);
    SelectionStays(server, before, keys, policy, active, kind, Elements(nss[..Reach(server, kind, nss)]), sel);
  }

  lemma KeyKinds(server: Server, store: Store, gitops: Option<GitOpsSpec>)
    ensures forall k :: k in ArgoPassKeys(server, store, gitops) ==> k.kind == ApplicationKind
    ensures forall k :: k in FluxPassKeys(server, store, gitops) ==> k.kind != ApplicationKind
    ensures ArgoPassKeys(server, store, gitops) !! FluxPassKeys(server, store, gitops)
  {
    hide MatchingNamespaces, ResourceError, Reach, Selects;
  }

  lemma FluxKeysStay(server: Server, before: Store, keys: set<Key>, gitops: Option<GitOpsSpec>, policy: string, active: bool)
    ensures FluxPassKeys(server, After(before, keys, server.failing, policy, active), gitops) == FluxPassKeys(server, before, gitops)
  {
    hide After, MatchingNamespaces, ResourceError, ResourceKeys;
    if gitops.Some? && gitops.value.flux.Some? {
      var spec := gitops.value.flux.value;
      var nss := MatchingNamespaces(server, spec.namespaceSelector);
      if nss.Ok? {
        KindKeysStay(server, before, keys, KustomizationKind, nss.value, spec.kustomizationSelector, policy, active);
        KindKeysStay(server, before, keys, HelmReleaseKind, nss.value, spec.helmReleaseSelector, policy, active);
      }
    }
  }

  lemma ArgoKeysStay(server: Server, before: Store, keys: set<Key>, gitops: Option<GitOpsSpec>, policy: string, active: bool)
    ensures ArgoPassKeys(server, After(before, keys, server.failing, policy, active), gitops) == ArgoPassKeys(server, before, gitops)
  {
    hide After, MatchingNamespaces, ResourceKeys;
    if gitops.Some? && gitops.value.argocd.Some? {
      var spec := gitops.value.argocd.value;
      var nss := MatchingNamespaces(server, spec.namespaceSelector);
      if nss.Ok? {
        KindKeysStay(server, before, keys, ApplicationKind, nss.value, spec.applicationSelector, policy, active);
      }
    }
  }

  // No visit changes what a policy gets to.
  lemma PassKeysStay(server: Server, before: Store, keys: set<Key>, gitops: Option<GitOpsSpec>, policy: string, active: bool)
    ensures PassKeys(server, After(before, keys, server.failing, policy, active), gitops) == PassKeys(server, before, gitops)
  {
    hide After, ArgoPassKeys, FluxPassKeys;
    ArgoKeysStay(server, before, keys, gitops, policy, active);
    FluxKeysStay(server, before, keys, gitops, policy, active);
  }

  lemma ProvidersDisjoint(server: Server, before: Store, gitops: Option<GitOpsSpec>, policy: string, active: bool)
    requires WellFormed(server, before)
    ensures var a, f := ArgoPassKeys(server, before, gitops), FluxPassKeys(server, before, gitops);
            var store, store' := After(before, a, server.failing, policy, active), After(before, a + f, server.failing, policy, active);
            && WellFormed(server, store)
            && FluxPassKeys(server, store, gitops) == f
            && After(store, f, server.failing, policy, active) == store'
            && MarkedBy(store', a, policy) == MarkedBy(store, a, policy)
            && |MarkedBy(store', a + f, policy)| == |MarkedBy(store, a, policy)| + |MarkedBy(store', f, policy)|
            && |Undesired(before, a + f, policy, active) - server.failing|
               == |Undesired(before, a, policy, active) - server.failing| + |Undesired(store, f, policy, active) - server.failing|
  {
    hide After, Undesired, MarkedBy, WellFormed, ArgoPassKeys, FluxPassKeys;
    var a, f := ArgoPassKeys(server, before, gitops), FluxPassKeys(server, before, gitops);
    KeyKinds(server, before, gitops);
    FluxKeysStay(server, before, a, gitops, policy, active);
    MoreKeys(before, a, f, server.failing, policy, active);
    WellFormedStays(server, before, a, policy, active);
  }

  predicate ArgoAllListed(server: Server, gitops: GitOpsSpec) {
    ArgoCD in gitops.providers ==> ArgoListed(server, gitops.argocd)
  }

  predicate FluxAllListed(server: Server, gitops: GitOpsSpec) {
    Flux in gitops.providers ==> FluxListed(server, gitops.flux)
  }

  method ReconcileArgoProvider(c: Client, gitops: GitOpsSpec, policy: string, active: bool)
    returns (n: nat, err: Option<GitOpsError>)
    requires WellFormed(c.server, c.store) && gitops.enabled
    modifies c
    ensures var keys := ArgoPassKeys(c.server, old(c.store), Some(gitops));
            && c.store == After(old(c.store), keys, c.server.failing, policy, active)
            && c.writes == old(c.writes) + |Undesired(old(c.store), keys, policy, active) - c.server.failing|
            && n == (if active then ArgoPassCount(c.server, old(c.store), c.store, gitops, policy) else 0)
            && (ArgoAllListed(c.server, gitops) ==> err.None? && n == if active then |MarkedBy(c.store, keys, policy)| else 0)
    ensures err == if ArgoCD in gitops.providers then ArgoError(c.server, gitops.argocd) else None
  {
    hide After, Undesired, MarkedBy, ArgoKeys, WellFormed, ArgoListed, ArgoError, ArgoCount;
    NothingVisited(c.store, c.server.failing, policy, active);
    n, err := 0, None;
    if ArgoCD in gitops.providers {
      n, err := ReconcileArgoCD(c, gitops.argocd, policy, active);
    }
  }

  method ReconcileFluxProvider(c: Client, gitops: GitOpsSpec, policy: string, active: bool)
    returns (n: nat, err: Option<GitOpsError>)
    requires WellFormed(c.server, c.store) && gitops.enabled
    modifies c
    ensures var keys := FluxPassKeys(c.server, old(c.store), Some(gitops));
            && c.store == After(old(c.store), keys, c.server.failing, policy, active)
            && c.writes == old(c.writes) + |Undesired(old(c.store), keys, policy, active) - c.server.failing|
            && n == (if active then FluxPassCount(c.server, old(c.store), c.store, gitops, policy) else 0)
            && (FluxAllListed(c.server, gitops) ==> err.None? && n == if active then |MarkedBy(c.store, keys, policy)| else 0)
    ensures err == if Flux in gitops.providers then FluxError(c.server, gitops.flux) else None
  {
    hide After, Undesired, MarkedBy, KustomizationKeys, HelmReleaseKeys, WellFormed, FluxListed, FluxError, FluxCount;
    NothingVisited(c.store, c.server.failing, policy, active);
    n, err := 0, None;
    if Flux in gitops.providers {
      n, err := ReconcileFlux(c, gitops.flux, policy, active);
    }
  }

  // Pauses (active) or resumes everything the spec names. Whatever subset of the updates fails, when
  // all lists succeed the count is exactly the number of objects that now carry this policy's mark.
  method Reconcile(c: Client, gitops: Option<GitOpsSpec>, policy: string, active: bool) returns (r: ReconcileResult)
    requires WellFormed(c.server, c.store)
    modifies c
    ensures var keys := PassKeys(c.server, old(c.store), gitops);
            && c.store == After(old(c.store), keys, c.server.failing, policy, active)
            && c.writes == old(c.writes) + |Undesired(old(c.store), keys, policy, active) - c.server.failing|
            && r.pausedCount == (if active then PassCount(c.server, old(c.store), c.store, gitops, policy) else 0)
            && (EverythingListed(c.server, gitops) ==>
                  r.pausedCount == (if active then |MarkedBy(c.store, keys, policy)| else 0) && r.errors == [])
    ensures r.errors == ProviderErrors(c.server, gitops)
    ensures WellFormed(c.server, c.store)
  {
    hide After, Undesired, MarkedBy, ArgoPassKeys, FluxPassKeys, WellFormed,
      ArgoAllListed, FluxAllListed, ArgoError, FluxError, ArgoPassCount, FluxPassCount;
    ghost var before := c.store;
    ProvidersDisjoint(c.server, before, gitops, policy, active);
    WellFormedStays(c.server, before, PassKeys(c.server, before, gitops), policy, active);
    if gitops.None? || !gitops.value.enabled {
      NoKeys(c.server, before, gitops);
      NothingVisited(before, c.server.failing, policy, active);
      return ReconcileResult(0, []);
    }
    r := ReconcileResult(0, []);
    var n, err := ReconcileArgoProvider(c, gitops.value, policy, active);
    if err.Some? {
      r := r.(errors := r.errors + [(ArgoCD, err.value)]);
    }
    r := r.(pausedCount := r.pausedCount + n);
    ghost var argoDone := c.store;
    n, err := ReconcileFluxProvider(c, gitops.value, policy, active);
    if err.Some? {
      r := r.(errors := r.errors + [(Flux, err.value)]);
    }
    r := r.(pausedCount := r.pausedCount + n);
    ArgoCountStays(c.server, before, argoDone, c.store, gitops.value, policy);
    FluxCountStays(c.server, before, ArgoPassKeys(c.server, before, gitops), c.store, gitops.value, policy, active);
  }

  lemma NoKeys(server: Server, store: Store, gitops: Option<GitOpsSpec>)
    requires gitops.None? || !gitops.value.enabled
    ensures PassKeys(server, store, gitops) == {}
  {}

  /* What the pass keys are when every list succeeds */

  ghost predicate InNamespaces(server: Server, sel: LabelSelector, ns: string) {
    server.namespaces.Some? && Matches(server.namespaces.value, sel, ns)
  }

  // The object is one that the spec names: provider, namespace and object selector.
  ghost predicate Named(server: Server, store: Store, spec: GitOpsSpec, k: Key)
    requires k in store
  {
    match k.kind
    case ApplicationKind =>
      && ArgoCD in spec.providers && spec.argocd.Some?
      && InNamespaces(server, spec.argocd.value.namespaceSelector, k.namespace)
      && Selects(spec.argocd.value.applicationSelector, LabelsOf(store[k]))
    case KustomizationKind =>
      && Flux in spec.providers && spec.flux.Some?
      && InNamespaces(server, spec.flux.value.namespaceSelector, k.namespace)
      && Selects(spec.flux.value.kustomizationSelector, LabelsOf(store[k]))
    case HelmReleaseKind =>
      && Flux in spec.providers && spec.flux.Some?
      && InNamespaces(server, spec.flux.value.namespaceSelector, k.namespace)
      && Selects(spec.flux.value.helmReleaseSelector, LabelsOf(store[k]))
  }

  lemma KindKeysAre(server: Server, store: Store, kind: Kind, nsSel: LabelSelector, sel: LabelSelector, k: Key)
    requires WellFormed(server, store) && MatchingNamespaces(server, nsSel).Ok?
    requires AllListed(server, kind, MatchingNamespaces(server, nsSel).value, sel)
    requires k in server.order
    ensures k in ResourceKeys(server, store, kind, MatchingNamespaces(server, nsSel).value, sel) <==>
            k.kind == kind && InNamespaces(server, nsSel, k.namespace) && Selects(sel, LabelsOf(store[k]))
  {
    hide Selects, Reach;
    NamesAre(server.namespaces.value, nsSel);
    var nss := MatchingNamespaces(server, nsSel).value;
    assert nss[..|nss|] == nss;
  }

  // With every list call successful, a pass gets to exactly the objects that the spec names.
  lemma PassKeysAreNamed(server: Server, store: Store, spec: GitOpsSpec, k: Key)
    requires WellFormed(server, store) && spec.enabled && EverythingListed(server, Some(spec))
    requires k in server.order
    ensures k in PassKeys(server, store, Some(spec)) <==> Named(server, store, spec, k)
  {
    hide ResourceKeys, AllListed, MatchingNamespaces, InNamespaces, ResourceError;
    if ArgoCD in spec.providers && spec.argocd.Some? {
      var a := spec.argocd.value;
      KindKeysAre(server, store, ApplicationKind, a.namespaceSelector, a.applicationSelector, k);
    }
    if Flux in spec.providers && spec.flux.Some? {
      var f := spec.flux.value;
      KindKeysAre(server, store, KustomizationKind, f.namespaceSelector, f.kustomizationSelector, k);
      KindKeysAre(server, store, HelmReleaseKind, f.namespaceSelector, f.helmReleaseSelector, k);
      ListedMeansNoError(server, KustomizationKind, MatchingNamespaces(server, f.namespaceSelector).value, f.kustomizationSelector);
    }
  }
}
