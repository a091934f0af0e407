/** What a GitOps reconcile gets to, reports and counts when selectors do not parse, lists fail or a CRD
    is missing. */
module GitOpsFailures {
  import opened GitOpsPass
  import opened GitOpsProviders
  import opened GitOpsReconciler
  import opened Policies
  import opened Wrappers

  /* One kind */

  // The first list that does not succeed ends like this.
  ghost predicate FirstEnds(server: Server, kind: Kind, nss: seq<string>, outcome: ListOutcome) {
    exists i :: 0 <= i < |nss| && OutcomeOf(server, kind, nss[i]) == outcome
                && forall j :: 0 <= j < i ==> OutcomeOf(server, kind, nss[j]).Listed?
  }

  // Some list fails outright, and all before it succeed.
  ghost predicate ListsFail(server: Server, kind: Kind, nss: seq<string>) {
    FirstEnds(server, kind, nss, ListFailed)
  }

  // Some list finds the CRD missing, and all before it succeed.
  ghost predicate CrdMissing(server: Server, kind: Kind, nss: seq<string>) {
    FirstEnds(server, kind, nss, NoMatch)
  }

  // The lists of this namespace and of all before it succeed.
  ghost predicate ListedUpTo(server: Server, kind: Kind, nss: seq<string>, ns: string) {
    exists i :: 0 <= i < |nss| && nss[i] == ns && forall j :: 0 <= j <= i ==> OutcomeOf(server, kind, nss[j]).Listed?
  }

  lemma {:induction false} ReachIs(server: Server, kind: Kind, nss: seq<string>)
    ensures var n := Reach(server, kind, nss);
            && n <= |nss| && (forall j :: 0 <= j < n ==> OutcomeOf(server, kind, nss[j]).Listed?)
            && (n < |nss| ==> !OutcomeOf(server, kind, nss[n]).Listed?)
    decreases |nss|
  {
    hide OutcomeOf;
    if |nss| > 0 && OutcomeOf(server, kind, nss[0]).Listed? {
      ReachIs(server, kind, nss[1..]);
      assert forall j :: 1 <= j < |nss| ==> nss[j] == nss[1..][j - 1];
    }
  }

  lemma StoppedByIff(server: Server, kind: Kind, nss: seq<string>)
    ensures StoppedBy(server, kind, nss).ListFailed? <==> ListsFail(server, kind, nss)
    ensures StoppedBy(server, kind, nss).NoMatch? <==> CrdMissing(server, kind, nss)
    ensures !(ListsFail(server, kind, nss) && CrdMissing(server, kind, nss))
  {
    hide OutcomeOf, Reach;
    ReachWithin(server, kind, nss);
    ReachIs(server, kind, nss);
  }

  // The error of the pass over one kind.
  lemma ResourceErrorIs(server: Server, kind: Kind, nss: seq<string>, sel: LabelSelector)
    ensures ResourceError(server, kind, nss, sel) ==
              if sel.Some? && !sel.value.parses then Some(InvalidSelector)
              else if ListsFail(server, kind, nss) then Some(ListObjectsFailed)
              else None
  {
    hide StoppedBy, ListsFail, CrdMissing;
    StoppedByIff(server, kind, nss);
  }

  // The selector accepts the labels of the object, whatever its kind.
  predicate Accepts(sel: LabelSelector, r: Resource) {
    match r
    case AppObject(app) => Selects(sel, app.labels)
    case FluxResource(flux) => Selects(sel, flux.labels)
  }

  // What it gets to: the selected objects of the namespaces before the first list that does not succeed.
  lemma ResourceKeysAre(server: Server, store: Store, kind: Kind, nss: seq<string>, sel: LabelSelector, k: Key)
    ensures k in ResourceKeys(server, store, kind, nss, sel) <==>
              && k in server.order && k in store && k.kind == kind && Accepts(sel, store[k])
              && ListedUpTo(server, kind, nss, k.namespace)
  {
    hide OutcomeOf, Reach, Selects;
    ReachWithin(server, kind, nss);
    ReachIs(server, kind, nss);
    var n := Reach(server, kind, nss);
    if k.namespace in nss[..n] {
      var i :| 0 <= i < n && nss[..n][i] == k.namespace;
      assert nss[i] == k.namespace;
    }
  }

  // What it counts: nothing if the CRD is missing, else the marks on all it got to.
  lemma KindCountIs(server: Server, before: Store, after: Store, kind: Kind, nss: seq<string>, sel: LabelSelector, policy: string)
    ensures KindCount(server, before, after, kind, nss, sel, policy) ==
              if CrdMissing(server, kind, nss) then 0
              else |MarkedBy(after, ResourceKeys(server, before, kind, nss, sel), policy)|
  {
    hide StoppedBy, ListsFail, CrdMissing, MarkedBy, ResourceKeys;
    StoppedByIff(server, kind, nss);
  }

  /* The namespaces */

  lemma MatchingNamespacesIs(server: Server, sel: LabelSelector)
    ensures var r := MatchingNamespaces(server, sel);
            && (r == Err(InvalidSelector) <==> sel.Some? && !sel.value.parses)
            && (r == Err(ListNamespacesFailed) <==> SelectorParses(sel) && server.namespaces.None?)
            && (r.Ok? <==> SelectorParses(sel) && server.namespaces.Some?)
            && (r.Ok? ==> forall name :: name in r.value <==> Matches(server.namespaces.value, sel, name))
  {
    hide Matches, Names;
    if server.namespaces.Some? {
      forall name
        ensures name in Names(server.namespaces.value, sel) <==> Matches(server.namespaces.value, sel, name)
      {
        NamesMatch(server.namespaces.value, sel, name);
      }
    }
  }

  /* The errors of a whole reconcile */

  // The provider is at work: GitOps is on, the provider is listed and has a spec.
  predicate ArgoOn(spec: GitOpsSpec) {
    spec.enabled && ArgoCD in spec.providers && spec.argocd.Some?
  }

  predicate FluxOn(spec: GitOpsSpec) {
    spec.enabled && Flux in spec.providers && spec.flux.Some?
  }

  // The namespaces that a selector yields, when it does.
  function NamespacesOf(server: Server, sel: LabelSelector): seq<string> {
    match MatchingNamespaces(server, sel)
    case Ok(nss) => nss
    case Err(_) => []
  }

  // At most one error for each provider, that of Argo CD first.
  lemma ErrorsAre(server: Server, spec: GitOpsSpec)
    ensures var argo, flux := ArgoError(server, spec.argocd), FluxError(server, spec.flux);
            && (forall e :: (ArgoCD, e) in ProviderErrors(server, Some(spec)) <==> ArgoOn(spec) && argo == Some(e))
            && (forall e :: (Flux, e) in ProviderErrors(server, Some(spec)) <==> FluxOn(spec) && flux == Some(e))
            && |ProviderErrors(server, Some(spec))|
               == (if ArgoOn(spec) && argo.Some? then 1 else 0) + (if FluxOn(spec) && flux.Some? then 1 else 0)
            && (|ProviderErrors(server, Some(spec))| == 2 ==> ProviderErrors(server, Some(spec))[0].0 == ArgoCD)
    ensures ProviderErrors(server, None) == []
  {
    hide MatchingNamespaces, ResourceError;
  }

  // When the reconcile of the Applications fails, and how.
  lemma ArgoFailsIff(server: Server, spec: GitOpsSpec)
    requires ArgoOn(spec)
    ensures var a, errors := spec.argocd.value, ProviderErrors(server, Some(spec));
            var nss := NamespacesOf(server, a.namespaceSelector);
            && ((ArgoCD, InvalidSelector) in errors <==>
                  !SelectorParses(a.namespaceSelector) || (server.namespaces.Some? && !SelectorParses(a.applicationSelector)))
            && ((ArgoCD, ListNamespacesFailed) in errors <==> SelectorParses(a.namespaceSelector) && server.namespaces.None?)
            && ((ArgoCD, ListObjectsFailed) in errors <==>
                  && SelectorParses(a.namespaceSelector) && server.namespaces.Some? && SelectorParses(a.applicationSelector)
                  && ListsFail(server, ApplicationKind, nss))
  {
    hide MatchingNamespaces, ResourceError, ProviderErrors, ListsFail;
    var a := spec.argocd.value;
    ErrorsAre(server, spec);
    MatchingNamespacesIs(server, a.namespaceSelector);
    ResourceErrorIs(server, ApplicationKind, NamespacesOf(server, a.namespaceSelector), a.applicationSelector);
  }

  // The Kustomizations let the HelmReleases have their turn.
  ghost predicate KustomizationsPass(server: Server, f: FluxSpec) {
    SelectorParses(f.kustomizationSelector) && !ListsFail(server, KustomizationKind, NamespacesOf(server, f.namespaceSelector))
  }

  // When the reconcile of the Flux objects fails, and how: on the Kustomizations, or else on the HelmReleases.
  lemma FluxFailsIff(server: Server, spec: GitOpsSpec)
    requires FluxOn(spec)
    ensures var f, errors := spec.flux.value, ProviderErrors(server, Some(spec));
            var nss := NamespacesOf(server, f.namespaceSelector);
            var listed := SelectorParses(f.namespaceSelector) && server.namespaces.Some?;
            && ((Flux, InvalidSelector) in errors <==>
                  || !SelectorParses(f.namespaceSelector)
                  || (listed && !SelectorParses(f.kustomizationSelector))
                  || (listed && KustomizationsPass(server, f) && !SelectorParses(f.helmReleaseSelector)))
            && ((Flux, ListNamespacesFailed) in errors <==> SelectorParses(f.namespaceSelector) && server.namespaces.None?)
            && ((Flux, ListObjectsFailed) in errors <==>
                  || (listed && SelectorParses(f.kustomizationSelector) && ListsFail(server, KustomizationKind, nss))
                  || (&& listed && KustomizationsPass(server, f) && SelectorParses(f.helmReleaseSelector)
                      && ListsFail(server, HelmReleaseKind, nss)))
  {
    hide MatchingNamespaces, ResourceError, ProviderErrors, ListsFail;
    var f := spec.flux.value;
    var nss := NamespacesOf(server, f.namespaceSelector);
    ErrorsAre(server, spec);
    MatchingNamespacesIs(server, f.namespaceSelector);
    ResourceErrorIs(server, KustomizationKind, nss, f.kustomizationSelector);
    ResourceErrorIs(server, HelmReleaseKind, nss, f.helmReleaseSelector);
  }

  /* What a whole reconcile gets to */

  // The namespace selector parses and the namespaces can be listed.
  predicate NamespacesListed(server: Server, sel: LabelSelector) {
    SelectorParses(sel) && server.namespaces.Some?
  }

  // Exactly these: selected, in a namespace that is listed in time, and for a HelmRelease not after
  // a failure of the Kustomizations. A missing CRD is no failure.
  ghost predicate GotTo(server: Server, store: Store, spec: GitOpsSpec, k: Key)
    requires k in store
  {
    match k.kind
    case ApplicationKind =>
      && ArgoOn(spec)
      && var a := spec.argocd.value;
      && NamespacesListed(server, a.namespaceSelector) && Accepts(a.applicationSelector, store[k])
      && ListedUpTo(server, ApplicationKind, NamespacesOf(server, a.namespaceSelector), k.namespace)
    case KustomizationKind =>
      && FluxOn(spec)
      && var f := spec.flux.value;
      && NamespacesListed(server, f.namespaceSelector) && Accepts(f.kustomizationSelector, store[k])
      && ListedUpTo(server, KustomizationKind, NamespacesOf(server, f.namespaceSelector), k.namespace)
    case HelmReleaseKind =>
      && FluxOn(spec)
      && var f := spec.flux.value;
      && NamespacesListed(server, f.namespaceSelector) && Accepts(f.helmReleaseSelector, store[k])
      && ListedUpTo(server, HelmReleaseKind, NamespacesOf(server, f.namespaceSelector), k.namespace)
      && KustomizationsPass(server, f)
  }

  lemma PassKeysAre(server: Server, store: Store, spec: GitOpsSpec, k: Key)
    requires k in server.order && k in store
    ensures k in PassKeys(server, store, Some(spec)) <==> GotTo(server, store, spec, k)
  {
    hide MatchingNamespaces, ResourceKeys, ResourceError, ListsFail, ListedUpTo, Accepts;
    if spec.argocd.Some? {
      var a := spec.argocd.value;
      MatchingNamespacesIs(server, a.namespaceSelector);
      ResourceKeysAre(server, store, ApplicationKind, NamespacesOf(server, a.namespaceSelector), a.applicationSelector, k);
    }
    if spec.flux.Some? {
      var f := spec.flux.value;
      var nss := NamespacesOf(server, f.namespaceSelector);
      MatchingNamespacesIs(server, f.namespaceSelector);
      ResourceKeysAre(server, store, KustomizationKind, nss, f.kustomizationSelector, k);
      ResourceKeysAre(server, store, HelmReleaseKind, nss, f.helmReleaseSelector, k);
      ResourceErrorIs(server, KustomizationKind, nss, f.kustomizationSelector);
    }
  }

  // After a failed list of Kustomizations every HelmRelease is as it was.
  lemma HelmReleasesUntouched(server: Server, store: Store, spec: GitOpsSpec, policy: string, active: bool, k: Key)
    requires k in store && k.kind == HelmReleaseKind
    requires FluxOn(spec) ==> ListsFail(server, KustomizationKind, NamespacesOf(server, spec.flux.value.namespaceSelector))
    ensures After(store, PassKeys(server, store, Some(spec)), server.failing, policy, active)[k] == store[k]
  {
    hide ListsFail, MatchingNamespaces;
    if k in server.order {
      PassKeysAre(server, store, spec, k);
    }
  }

  // After a missing Kustomization CRD the HelmReleases have their turn all the same.
  lemma HelmReleasesStillVisited(server: Server, store: Store, spec: GitOpsSpec, policy: string, active: bool, k: Key)
    requires k in server.order && k in store && k.kind == HelmReleaseKind && k !in server.failing && FluxOn(spec)
    requires var f := spec.flux.value;
             var nss := NamespacesOf(server, f.namespaceSelector);
             && NamespacesListed(server, f.namespaceSelector) && SelectorParses(f.kustomizationSelector)
             && CrdMissing(server, KustomizationKind, nss)
             && Accepts(f.helmReleaseSelector, store[k]) && ListedUpTo(server, HelmReleaseKind, nss, k.namespace)
    ensures After(store, PassKeys(server, store, Some(spec)), server.failing, policy, active)[k] == Visit(store[k], policy, active)
  {
    hide ListsFail, CrdMissing, MatchingNamespaces, Visit, ListedUpTo, Accepts;
    PassKeysAre(server, store, spec, k);
    StoppedByIff(server, KustomizationKind, NamespacesOf(server, spec.flux.value.namespaceSelector));
  }

  /* What a whole reconcile counts */

  // Applications: the marks on all it got to, but none if the CRD is missing.
  lemma ArgoCountIs(server: Server, before: Store, after: Store, spec: GitOpsSpec, policy: string)
    requires ArgoOn(spec) && NamespacesListed(server, spec.argocd.value.namespaceSelector)
    ensures ArgoPassCount(server, before, after, spec, policy) ==
              if CrdMissing(server, ApplicationKind, NamespacesOf(server, spec.argocd.value.namespaceSelector)) then 0
              else |MarkedBy(after, ArgoPassKeys(server, before, Some(spec)), policy)|
  {
    hide MatchingNamespaces, CrdMissing, KindCount, MarkedBy, ResourceKeys;
    var a := spec.argocd.value;
    MatchingNamespacesIs(server, a.namespaceSelector);
    KindCountIs(server, before, after, ApplicationKind, NamespacesOf(server, a.namespaceSelector), a.applicationSelector, policy);
  }

  // Flux: nothing once the Kustomizations have failed; then theirs, and those of the HelmReleases unless
  // these fail; and none of a kind whose CRD is missing.
  lemma FluxCountIs(server: Server, before: Store, after: Store, spec: GitOpsSpec, policy: string)
    requires FluxOn(spec) && NamespacesListed(server, spec.flux.value.namespaceSelector)
    ensures var f := spec.flux.value;
            var nss := NamespacesOf(server, f.namespaceSelector);
            var ks, hs := ResourceKeys(server, before, KustomizationKind, nss, f.kustomizationSelector),
                          ResourceKeys(server, before, HelmReleaseKind, nss, f.helmReleaseSelector);
            FluxPassCount(server, before, after, spec, policy) ==
              if !KustomizationsPass(server, f) then 0
              else (if CrdMissing(server, KustomizationKind, nss) then 0 else |MarkedBy(after, ks, policy)|)
                   + (if !SelectorParses(f.helmReleaseSelector) || ListsFail(server, HelmReleaseKind, nss)
                         || CrdMissing(server, HelmReleaseKind, nss)
                      then 0 else |MarkedBy(after, hs, policy)|)
  {
    hide MatchingNamespaces, ListsFail, CrdMissing, KindCount, MarkedBy, ResourceKeys, ResourceError;
    var f := spec.flux.value;
    var nss := NamespacesOf(server, f.namespaceSelector);
    MatchingNamespacesIs(server, f.namespaceSelector);
    ResourceErrorIs(server, KustomizationKind, nss, f.kustomizationSelector);
    ResourceErrorIs(server, HelmReleaseKind, nss, f.helmReleaseSelector);
    KindCountIs(server, before, after, KustomizationKind, nss, f.kustomizationSelector, policy);
    KindCountIs(server, before, after, HelmReleaseKind, nss, f.helmReleaseSelector, policy);
  }
}
