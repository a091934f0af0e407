/** The GitOps reconciler: the client, one object in hand, the list loops and the two providers. */
module GitOpsReconciler {
  import opened GitOpsAnnotations
  import opened GitOpsPass
  import opened Policies
  import opened Wrappers
  import ArgoApplication
  import FluxObject

  ghost predicate Distinct<T>(s: seq<T>) {
    forall i, j :: 0 <= i < j < |s| ==> s[i] != s[j]
  }

  ghost function Elements<T>(s: seq<T>): set<T> {
    set x | x in s
  }

  // The Kubernetes client: reads see the store, an update of a refused object changes nothing.
  class Client {
    const server: Server
    var store: Store
    var writes: nat // successful updates so far

    constructor (server: Server, store: Store)
      ensures this.server == server && this.store == store && writes == 0
    {
      this.server := server;
      this.store := store;
      this.writes := 0;
    }

    method Update(key: Key, r: Resource) returns (ok: bool)
      modifies this
      ensures ok <==> key !in server.failing
      ensures store == if ok then old(store)[key := r] else old(store)
      ensures writes == old(writes) + if ok then 1 else 0
    {
      ok := key !in server.failing;
      if ok {
        store := store[key := r];
        writes := writes + 1;
      }
    }

    // List calls return the matching objects once each, in the server's order.
    method List(kind: Kind, ns: string, sel: LabelSelector) returns (outcome: ListOutcome, keys: seq<Key>)
      requires WellFormed(server, store)
      ensures outcome == OutcomeOf(server, kind, ns)
      ensures outcome.Listed? ==> Distinct(keys) && Elements(keys) == Selected(server, store, kind, {ns}, sel)
    {
      outcome, keys := OutcomeOf(server, kind, ns), [];
      for i := 0 to |server.order|
        invariant forall k :: k in keys <==>
                    k in server.order[..i] && k.kind == kind && k.namespace == ns && Selects(sel, LabelsOf(store[k]))
        invariant Distinct(keys)
      {
        var k := server.order[i];
        assert k !in server.order[..i];
        if k.kind == kind && k.namespace == ns && Selects(sel, LabelsOf(store[k])) {
          keys := keys + [k];
        }
      }
    }
  }

  /* One object in hand */

  // A decoded Flux object: edited in place, stored only by an update.
  class FluxItem {
    const key: Key
    const labels: Labels
    const rest: string
    var annotations: Annotations
    var suspend: FluxObject.SuspendField

    constructor (key: Key, o: FluxObject.Flux)
      ensures this.key == key && Content() == o
    {
      this.key := key;
      this.labels := o.labels;
      this.rest := o.rest;
      this.annotations := o.annotations;
      this.suspend := o.suspend;
    }

    function Content(): FluxObject.Flux
      reads this
    {
      FluxObject.Flux(labels, annotations, suspend, rest)
    }
  }

  class AppItem {
    const key: Key
    const labels: Labels
    const rest: string
    var annotations: Annotations
    var automated: ArgoApplication.AutomatedField

    constructor (key: Key, o: ArgoApplication.Application)
      ensures this.key == key && Content() == o
    {
      this.key := key;
      this.labels := o.labels;
      this.rest := o.rest;
      this.annotations := o.annotations;
      this.automated := o.automated;
    }

    function Content(): ArgoApplication.Application
      reads this
    {
      ArgoApplication.Application(labels, annotations, automated, rest)
    }
  }

  // The object is not yet as the policy wants it, so an update is due.
  predicate Due(r: Resource, policy: string, active: bool) {
    ManagedBy(AnnotationsOf(r), policy) != active
  }

  lemma AfterOne(store: Store, k: Key, failing: set<Key>, policy: string, active: bool)
    requires k in store
    ensures After(store, {k}, failing, policy, active)
         == if Due(store[k], policy, active) && k !in failing then store[k := Visit(store[k], policy, active)] else store
  {
    hide Visit, ManagedBy;
    VisitMeaning(store[k], policy, active);
  }

  method ReconcileFluxObject(c: Client, obj: FluxItem, policy: string, active: bool)
    returns (suspended: bool, failed: bool)
    requires obj.key in c.store && c.store[obj.key] == FluxResource(obj.Content())
    modifies c, obj
    ensures c.store == After(old(c.store), {obj.key}, c.server.failing, policy, active)
    ensures failed <==> Due(old(c.store)[obj.key], policy, active) && obj.key in c.server.failing
    ensures suspended <==> active && !failed
    ensures c.writes == old(c.writes) + if Due(old(c.store)[obj.key], policy, active) && !failed then 1 else 0
  {
    hide ManagedBy, After;
    AfterOne(c.store, obj.key, c.server.failing, policy, active);
    var managedByUs := ManagedBy(obj.annotations, policy);
    ghost var was := obj.Content();
    if active && !managedByUs {
      var original := obj.suspend.Flag? && obj.suspend.value;
      obj.annotations := obj.annotations[ORIGINAL_SUSPEND := FormatBool(original)];
      obj.annotations := obj.annotations[MANAGED := MANAGED_VALUE];
      obj.annotations := obj.annotations[MANAGED_BY_POLICY := policy];
      obj.suspend := FluxObject.Flag(true);
      assert obj.Content() == FluxObject.Visit(was, policy, active);
      var ok := c.Update(obj.key, FluxResource(obj.Content()));
      return ok, !ok;
    } else if !active && managedByUs {
      var parsed := FluxObject.ParseBool(Get(obj.annotations, ORIGINAL_SUSPEND));
      var original := false;
      if parsed.Some? {
        original := parsed.value;
      }
      obj.suspend := FluxObject.Flag(original);
      obj.annotations := obj.annotations - {MANAGED};
      obj.annotations := obj.annotations - {MANAGED_BY_POLICY};
      obj.annotations := obj.annotations - {ORIGINAL_SUSPEND};
      assert obj.annotations == Unmark(was.annotations, ORIGINAL_SUSPEND);
      assert obj.Content() == FluxObject.Visit(was, policy, active);
      var ok := c.Update(obj.key, FluxResource(obj.Content()));
      return false, !ok;
    }
    return active, false;
  }

  method ReconcileArgoCDApp(c: Client, app: AppItem, policy: string, active: bool)
    returns (paused: bool, failed: bool)
    requires app.key in c.store && c.store[app.key] == AppObject(app.Content())
    modifies c, app
    ensures c.store == After(old(c.store), {app.key}, c.server.failing, policy, active)
    ensures failed <==> Due(old(c.store)[app.key], policy, active) && app.key in c.server.failing
    ensures paused <==> active && !failed
    ensures c.writes == old(c.writes) + if Due(old(c.store)[app.key], policy, active) && !failed then 1 else 0
  {
    hide ManagedBy, After;
    AfterOne(c.store, app.key, c.server.failing, policy, active);
    var managedByUs := ManagedBy(app.annotations, policy);
    ghost var was := app.Content();
    if active && !managedByUs {
      if app.automated.Automated? {
        app.annotations := app.annotations[ORIGINAL_AUTOSYNC := ArgoApplication.EncodeSettings(app.automated.settings)];
      } else {
        app.annotations := app.annotations[ORIGINAL_AUTOSYNC := "null"];
      }
      app.annotations := app.annotations[MANAGED := MANAGED_VALUE];
      app.annotations := app.annotations[MANAGED_BY_POLICY := policy];
      app.automated := ArgoApplication.Absent;
      assert app.Content() == ArgoApplication.Visit(was, policy, active);
      var ok := c.Update(app.key, AppObject(app.Content()));
      return ok, !ok;
    } else if !active && managedByUs {
      var originalJson := Get(app.annotations, ORIGINAL_AUTOSYNC);
      if originalJson != "" && originalJson != "null" {
        var parsed := ArgoApplication.DecodeSettings(originalJson);
        if parsed.Some? {
          app.automated := ArgoApplication.Automated(parsed.value);
        }
      }
      app.annotations := app.annotations - {MANAGED};
      app.annotations := app.annotations - {MANAGED_BY_POLICY};
      app.annotations := app.annotations - {ORIGINAL_AUTOSYNC};
      assert app.annotations == Unmark(was.annotations, ORIGINAL_AUTOSYNC);
      assert app.Content() == ArgoApplication.Visit(was, policy, active);
      var ok := c.Update(app.key, AppObject(app.Content()));
      return false, !ok;
    }
    return active, false;
  }

  /* Loops */

  // Objects held and objects wanted otherwise, over one more object.
  lemma OneMore(before: Store, keys: set<Key>, k: Key, failing: set<Key>, policy: string, active: bool)
    requires k !in keys && k in before
    ensures var store, more := After(before, keys, failing, policy, active), keys + {k};
            && store[k] == before[k]
            && After(store, {k}, failing, policy, active) == After(before, more, failing, policy, active)
            && Undesired(before, more, policy, active) - failing
               == (Undesired(before, keys, policy, active) - failing)
                  + (if Due(before[k], policy, active) && k !in failing then {k} else {})
    ensures active ==>
              var more := keys + {k};
              MarkedBy(After(before, more, failing, policy, active), more, policy)
              == MarkedBy(After(before, keys, failing, policy, active), keys, policy)
                 + (if Due(before[k], policy, active) && k in failing then {} else {k})
  {
    hide Visit, ManagedBy;
    AfterUnion(before, keys, {k}, failing, policy, active);
    VisitMeaning(before[k], policy, active);
  }

  method ReconcileObject(c: Client, k: Key, policy: string, active: bool) returns (held: bool, failed: bool)
    requires k in c.store
    modifies c
    ensures c.store == After(old(c.store), {k}, c.server.failing, policy, active)
    ensures failed <==> Due(old(c.store)[k], policy, active) && k in c.server.failing
    ensures held <==> active && !failed
    ensures c.writes == old(c.writes) + if Due(old(c.store)[k], policy, active) && !failed then 1 else 0
  {
    hide After, Due;
    if c.store[k].AppObject? {
      var app := new AppItem(k, c.store[k].app);
      held, failed := ReconcileArgoCDApp(c, app, policy, active);
    } else {
      var obj := new FluxItem(k, c.store[k].flux);
      held, failed := ReconcileFluxObject(c, obj, policy, active);
    }
  }

  // The items of one list response, best effort: a failed object is logged and skipped.
  method ReconcileItems(c: Client, keys: seq<Key>, policy: string, active: bool) returns (total: nat)
    requires Distinct(keys) && Elements(keys) <= c.store.Keys
    modifies c
    ensures c.store == After(old(c.store), Elements(keys), c.server.failing, policy, active)
    ensures total == if active then |MarkedBy(c.store, Elements(keys), policy)| else 0
    ensures c.writes == old(c.writes) + |Undesired(old(c.store), Elements(keys), policy, active) - c.server.failing|
  {
    hide After, Undesired, MarkedBy, Due, Visit;
    total := 0;
    ghost var before, failing := c.store, c.server.failing;
    NothingVisited(before, failing, policy, active);
    assert Elements(keys[..0]) == {};
    for i := 0 to |keys|
      invariant c.store == After(before, Elements(keys[..i]), failing, policy, active)
      invariant c.store.Keys == before.Keys
      invariant total == if active then |MarkedBy(c.store, Elements(keys[..i]), policy)| else 0
      invariant c.writes == old(c.writes) + |Undesired(before, Elements(keys[..i]), policy, active) - failing|
    {
      var k := keys[i];
      ghost var done := Elements(keys[..i]);
      assert Elements(keys[..i + 1]) == done + {k};
      assert k in Elements(keys);
      OneMore(before, done, k, failing, policy, active);
      UndesiredWithin(before, done, policy, active);
      MarkedWithin(c.store, done, policy);
      KeysStay(c.store, {k}, failing, policy, active);
      var held, failed := ReconcileObject(c, k, policy, active);
      if !failed && held {
        total := total + 1;
      }
    }
    assert keys[..|keys|] == keys;
  }

  lemma NothingVisited(store: Store, failing: set<Key>, policy: string, active: bool)
    ensures After(store, {}, failing, policy, active) == store
    ensures MarkedBy(store, {}, policy) == {} == Undesired(store, {}, policy, active)
  {}

  lemma KeysStay(store: Store, keys: set<Key>, failing: set<Key>, policy: string, active: bool)
    ensures After(store, keys, failing, policy, active).Keys == store.Keys
  {}

  lemma KindStays(store: Store, keys: set<Key>, k: Key, failing: set<Key>, policy: string, active: bool)
    requires k in store
    ensures k in After(store, keys, failing, policy, active)
    ensures After(store, keys, failing, policy, active)[k].AppObject? == store[k].AppObject?
  {
    VisitMeaning(store[k], policy, active);
  }

  lemma UndesiredWithin(store: Store, keys: set<Key>, policy: string, active: bool)
    ensures Undesired(store, keys, policy, active) <= keys
  {}

  lemma MarkedWithin(store: Store, keys: set<Key>, policy: string)
    ensures MarkedBy(store, keys, policy) <= keys
  {}

  // How many of the namespaces are listed before a list call fails or finds no CRD.
  function Reach(server: Server, kind: Kind, nss: seq<string>): nat
    decreases |nss|
  {
    if |nss| == 0 || !OutcomeOf(server, kind, nss[0]).Listed? then 0 else 1 + Reach(server, kind, nss[1..])
  }

  lemma {:induction false} ReachWithin(server: Server, kind: Kind, nss: seq<string>)
    ensures Reach(server, kind, nss) <= |nss|
    ensures Reach(server, kind, nss) == |nss| <==>
            forall i :: 0 <= i < |nss| ==> OutcomeOf(server, kind, nss[i]).Listed?
    decreases |nss|
  {
    hide OutcomeOf;
    if |nss| > 0 {
      ReachWithin(server, kind, nss[1..]);
      assert forall i :: 1 <= i < |nss| ==> nss[i] == nss[1..][i - 1];
    }
  }

  // The objects of one kind that a pass gets to.
  ghost function ResourceKeys(server: Server, store: Store, kind: Kind, nss: seq<string>, sel: LabelSelector): set<Key> {
    ReachWithin(server, kind, nss);
    Selected(server, store, kind, Elements(nss[..Reach(server, kind, nss)]), sel)
  }

  predicate SelectorParses(sel: LabelSelector) {
    sel.Some? ==> sel.value.parses
  }

  // The list call that stopped the pass over one kind, if any.
  function StoppedBy(server: Server, kind: Kind, nss: seq<string>): ListOutcome {
    ReachWithin(server, kind, nss);
    var n := Reach(server, kind, nss);
    if n < |nss| then OutcomeOf(server, kind, nss[n]) else Listed
  }

  function ResourceError(server: Server, kind: Kind, nss: seq<string>, sel: LabelSelector): Option<GitOpsError> {
    if !SelectorParses(sel) then Some(InvalidSelector)
    else if StoppedBy(server, kind, nss).ListFailed? then Some(ListObjectsFailed)
    else None
  }

  // What the pass over one kind counts: all it marked, but nothing if a CRD turns out to be missing.
  ghost function KindCount(server: Server, before: Store, after: Store, kind: Kind, nss: seq<string>, sel: LabelSelector,
                           policy: string): nat {
    if StoppedBy(server, kind, nss).NoMatch? then 0
    else |MarkedBy(after, ResourceKeys(server, before, kind, nss, sel), policy)|
  }

  // One more batch of objects, none of them visited before.
  lemma MoreKeys(before: Store, done: set<Key>, more: set<Key>, failing: set<Key>, policy: string, active: bool)
    requires done !! more
    ensures var store, store' := After(before, done, failing, policy, active), After(before, done + more, failing, policy, active);
            && After(store, more, failing, policy, active) == store'
            && MarkedBy(store', done + more, policy) == MarkedBy(store, done, policy) + MarkedBy(store', more, policy)
            && MarkedBy(store', done, policy) == MarkedBy(store, done, policy)
            && MarkedBy(store, done, policy) !! MarkedBy(store', more, policy)
            && Undesired(before, done + more, policy, active) - failing
               == (Undesired(before, done, policy, active) - failing) + (Undesired(store, more, policy, active) - failing)
            && (Undesired(before, done, policy, active) - failing) !! (Undesired(store, more, policy, active) - failing)
  {
    hide Visit, ManagedBy;
    AfterUnion(before, done, more, failing, policy, active);
  }

  lemma WellFormedStays(server: Server, store: Store, keys: set<Key>, policy: string, active: bool)
    requires WellFormed(server, store)
    ensures WellFormed(server, After(store, keys, server.failing, policy, active))
  {
    hide Visit;
    forall k | k in store
      ensures After(store, keys, server.failing, policy, active)[k].AppObject? == store[k].AppObject?
    {
      KindStays(store, keys, k, server.failing, policy, active);
    }
  }

  lemma SelectedSplits(server: Server, store: Store, kind: Kind, nss: set<string>, ns: string, sel: LabelSelector)
    requires ns !in nss
    ensures Selected(server, store, kind, nss + {ns}, sel)
         == Selected(server, store, kind, nss, sel) + Selected(server, store, kind, {ns}, sel)
    ensures Selected(server, store, kind, nss, sel) !! Selected(server, store, kind, {ns}, sel)
    ensures Selected(server, store, kind, {ns}, sel) <= store.Keys
  {
    hide Selects;
  }

  lemma NothingSelected(server: Server, store: Store, kind: Kind, nss: seq<string>, sel: LabelSelector)
    ensures Selected(server, store, kind, {}, sel) == {}
    ensures !SelectorParses(sel) ==> ResourceKeys(server, store, kind, nss, sel) == {}
  {}

  // What one more listed namespace adds to a pass over one kind.
  lemma OneMoreNamespace(server: Server, before: Store, kind: Kind, nss: seq<string>, i: nat, sel: LabelSelector,
                         policy: string, active: bool)
    requires Distinct(nss) && i < |nss| && WellFormed(server, before)
    ensures var done := Selected(server, before, kind, Elements(nss[..i]), sel);
            var all := Selected(server, before, kind, Elements(nss[..i + 1]), sel);
            var store := After(before, done, server.failing, policy, active);
            var store' := After(before, all, server.failing, policy, active);
            var more := Selected(server, store, kind, {nss[i]}, sel);
            && more <= store.Keys && WellFormed(server, store')
            && After(store, more, server.failing, policy, active) == store'
            && |MarkedBy(store', all, policy)| == |MarkedBy(store, done, policy)| + |MarkedBy(store', more, policy)|
            && |Undesired(before, all, policy, active) - server.failing|
               == |Undesired(before, done, policy, active) - server.failing|
                  + |Undesired(store, more, policy, active) - server.failing|
  {
    hide After, Undesired, MarkedBy, Selected, WellFormed;
    var done := Selected(server, before, kind, Elements(nss[..i]), sel);
    var more := Selected(server, before, kind, {nss[i]}, sel);
    assert nss[i] !in Elements(nss[..i]) && Elements(nss[..i + 1]) == Elements(nss[..i]) + {nss[i]};
    SelectedSplits(server, before, kind, Elements(nss[..i]), nss[i], sel);
    SelectionStays(server, before, done, policy, active, kind, {nss[i]}, sel);
    KeysStay(before, done, server.failing, policy, active);
    MoreKeys(before, done, more, server.failing, policy, active);
    WellFormedStays(server, before, done + more, policy, active);
  }

  // The first i namespaces are done: store, count and writes so far.
  ghost predicate Progress(server: Server, before: Store, kind: Kind, nss: seq<string>, i: nat, sel: LabelSelector,
                           policy: string, active: bool, store: Store, n: nat, written: nat)
    requires i <= |nss|
  {
    var done := Selected(server, before, kind, Elements(nss[..i]), sel);
    && store == After(before, done, server.failing, policy, active)
    && n == (if active then |MarkedBy(store, done, policy)| else 0)
    && written == |Undesired(before, done, policy, active) - server.failing|
  }

  lemma NoProgress(server: Server, before: Store, kind: Kind, nss: seq<string>, sel: LabelSelector, policy: string, active: bool)
    ensures Progress(server, before, kind, nss, 0, sel, policy, active, before, 0, 0)
  {
    hide After, MarkedBy, Undesired;
    NothingVisited(before, server.failing, policy, active);
    NothingSelected(server, before, kind, nss, sel);
    assert Elements(nss[..0]) == {};
  }

  lemma MoreProgress(server: Server, before: Store, kind: Kind, nss: seq<string>, i: nat, sel: LabelSelector,
                     policy: string, active: bool, store: Store, n: nat, written: nat, store': Store, n': nat, written': nat)
    requires Distinct(nss) && i < |nss| && WellFormed(server, before)
    requires Progress(server, before, kind, nss, i, sel, policy, active, store, n, written)
    requires var more := Selected(server, store, kind, {nss[i]}, sel);
             && store' == After(store, more, server.failing, policy, active)
             && n' == (if active then |MarkedBy(store', more, policy)| else 0)
             && written' == |Undesired(store, more, policy, active) - server.failing|
    ensures Progress(server, before, kind, nss, i + 1, sel, policy, active, store', n + n', written + written')
    ensures WellFormed(server, store')
  {
    hide After, Undesired, MarkedBy, Selected, WellFormed, Distinct;
    OneMoreNamespace(server, before, kind, nss, i, sel, policy, active);
  }

  // Where the pass over this kind ends, its progress is the result.
  lemma ProgressEnds(server: Server, before: Store, kind: Kind, nss: seq<string>, i: nat, sel: LabelSelector,
                     policy: string, active: bool, store: Store, n: nat, written: nat)
    requires i == Reach(server, kind, nss) && i <= |nss|
    requires Progress(server, before, kind, nss, i, sel, policy, active, store, n, written)
    ensures var keys := ResourceKeys(server, before, kind, nss, sel);
            && store == After(before, keys, server.failing, policy, active)
            && written == |Undesired(before, keys, policy, active) - server.failing|
            && (!StoppedBy(server, kind, nss).NoMatch? ==>
                  n == if active then KindCount(server, before, store, kind, nss, sel, policy) else 0)
  {
    hide After, Undesired, MarkedBy, Selected, Reach;
  }

  lemma SelectedWithin(server: Server, store: Store, kind: Kind, nss: set<string>, sel: LabelSelector)
    ensures Selected(server, store, kind, nss, sel) <= store.Keys
  {}

  // All objects of one kind, namespace by namespace: Applications, Kustomizations or HelmReleases.
  method ReconcileResources(c: Client, kind: Kind, sel: LabelSelector, nss: seq<string>, policy: string, active: bool)
    returns (n: nat, err: Option<GitOpsError>)
    requires WellFormed(c.server, c.store) && Distinct(nss)
    modifies c
    ensures var keys := ResourceKeys(c.server, old(c.store), kind, nss, sel);
            && c.store == After(old(c.store), keys, c.server.failing, policy, active)
            && c.writes == old(c.writes) + |Undesired(old(c.store), keys, policy, active) - c.server.failing|
            && n == if active then KindCount(c.server, old(c.store), c.store, kind, nss, sel, policy) else 0
    ensures err == ResourceError(c.server, kind, nss, sel)
  {
    hide After, Undesired, MarkedBy, Selected, OutcomeOf, WellFormed, Distinct, Progress, ResourceKeys;
    ghost var before, server := c.store, c.server;
    NoProgress(server, before, kind, nss, sel, policy, active);
    if sel.Some? && !sel.value.parses {
      NothingVisited(before, server.failing, policy, active);
      NothingSelected(server, before, kind, nss, sel);
      return 0, Some(InvalidSelector);
    }
    n := 0;
    ReachWithin(server, kind, nss);
    assert nss[0..] == nss;
    for i := 0 to |nss|
      invariant Reach(server, kind, nss) == i + Reach(server, kind, nss[i..])
      invariant WellFormed(server, c.store) && c.writes >= old(c.writes)
      invariant Progress(server, before, kind, nss, i, sel, policy, active, c.store, n, c.writes - old(c.writes))
    {
      var ns := nss[i];
      assert nss[i..][1..] == nss[i + 1..] && nss[i..][0] == ns;
      var outcome, keys := c.List(kind, ns, sel);
      if outcome.NoMatch? {
        ProgressEnds(server, before, kind, nss, i, sel, policy, active, c.store, n, c.writes - old(c.writes));
        return 0, None;
      }
      if outcome.ListFailed? {
        ProgressEnds(server, before, kind, nss, i, sel, policy, active, c.store, n, c.writes - old(c.writes));
        return n, Some(ListObjectsFailed);
      }
      ghost var store, written := c.store, c.writes - old(c.writes);
      SelectedWithin(server, store, kind, {ns}, sel);
      var listed := ReconcileItems(c, keys, policy, active);
      MoreProgress(server, before, kind, nss, i, sel, policy, active, store, n, written,
                   c.store, listed, c.writes - old(c.writes) - written);
      n := n + listed;
    }
    ProgressEnds(server, before, kind, nss, |nss|, sel, policy, active, c.store, n, c.writes - old(c.writes));
    return n, None;
  }
}
