/** One pass of a policy over the CronJobs it targets: stops at the first failed update. */
module CronJobPass {
  import opened CronJobOwnership
  import opened GitOpsAnnotations
  import GitOpsPass
  import opened Policies
  import opened Wrappers
  import GitOpsProviders
  import GitOpsReconciler

  datatype CronKey = CronKey(namespace: string, name: string)

  type CronStore = map<CronKey, Cron>

  // The API server during one pass: enumeration order, namespaces (None is a failed list),
  // namespaces whose CronJob list fails, and CronJobs that refuse to be updated.
  datatype CronServer = CronServer(
    order: seq<CronKey>,
    namespaces: Option<seq<GitOpsPass.Namespace>>,
    listFails: set<string>,
    failing: set<CronKey>)

  datatype CronError = ListNamespacesFailed | ListCronJobsFailed(namespace: string) | UpdateFailed(key: CronKey)

  /* The objects a pass visits */

  // Successful visits to every object in `keys`.
  ghost function VisitAll(store: CronStore, keys: set<CronKey>, policy: string, want: bool): CronStore {
    map k | k in store :: if k in keys then CronJobOwnership.Visit(store[k], policy, want) else store[k]
  }

  // The objects in `keys` that the policy may and still has to change.
  ghost function Pending(store: CronStore, keys: set<CronKey>, policy: string, want: bool): set<CronKey> {
    set k | k in keys && k in store && Due(store[k], policy, want)
  }

  // The first object on the list whose update is due and fails.
  function Stop(store: CronStore, agenda: seq<CronKey>, failing: set<CronKey>, policy: string, want: bool): (n: nat)
    requires forall k :: k in agenda ==> k in store
    ensures n <= |agenda|
    decreases |agenda|
  {
    if |agenda| == 0 || (agenda[0] in failing && Due(store[agenda[0]], policy, want)) then 0
    else 1 + Stop(store, agenda[1..], failing, policy, want)
  }

  // The selected CronJobs of one namespace, in the server's order.
  function Listing(order: seq<CronKey>, store: CronStore, ns: string, sel: LabelSelector): seq<CronKey>
    requires forall k :: k in order ==> k in store
    decreases |order|
  {
    if |order| == 0 then []
    else
      var n := |order| - 1;
      var k := order[n];
      Listing(order[..n], store, ns, sel)
      + if k.namespace == ns && Selects(sel, store[k].labels) then [k] else []
  }

  lemma {:induction false} ListingIs(order: seq<CronKey>, store: CronStore, ns: string, sel: LabelSelector)
    requires forall k :: k in order ==> k in store
    requires GitOpsReconciler.Distinct(order)
    ensures GitOpsReconciler.Distinct(Listing(order, store, ns, sel))
    ensures forall k :: k in Listing(order, store, ns, sel) <==>
              k in order && k.namespace == ns && Selects(sel, store[k].labels)
    decreases |order|
  {
    hide Selects;
    if |order| > 0 {
      var n := |order| - 1;
      ListingIs(order[..n], store, ns, sel);
      assert order[n] !in order[..n];
      assert order == order[..n] + [order[n]];
    }
  }

  lemma {:induction false} StopWithin(store: CronStore, agenda: seq<CronKey>, failing: set<CronKey>, policy: string, want: bool)
    requires forall k :: k in agenda ==> k in store
    ensures forall i :: 0 <= i < Stop(store, agenda, failing, policy, want) ==>
              !(agenda[i] in failing && Due(store[agenda[i]], policy, want))
    ensures var n := Stop(store, agenda, failing, policy, want);
            n < |agenda| ==> agenda[n] in failing && Due(store[agenda[n]], policy, want)
    decreases |agenda|
  {
    hide Due;
    if |agenda| > 0 && !(agenda[0] in failing && Due(store[agenda[0]], policy, want)) {
      StopWithin(store, agenda[1..], failing, policy, want);
      assert forall i :: 1 <= i < |agenda| ==> agenda[i] == agenda[1..][i - 1];
    }
  }

  // Stop is the only index with that property.
  lemma StopIs(store: CronStore, agenda: seq<CronKey>, failing: set<CronKey>, policy: string, want: bool, n: nat)
    requires forall k :: k in agenda ==> k in store
    requires n <= |agenda|
    requires forall i :: 0 <= i < n ==> !(agenda[i] in failing && Due(store[agenda[i]], policy, want))
    requires n < |agenda| ==> agenda[n] in failing && Due(store[agenda[n]], policy, want)
    ensures Stop(store, agenda, failing, policy, want) == n
  {
    hide Due, Stop;
    StopWithin(store, agenda, failing, policy, want);
  }

  /* The client and the loops */

  class CronClient {
    const server: CronServer
    var store: CronStore
    var writes: nat // successful updates so far

    constructor (server: CronServer, store: CronStore)
      ensures this.server == server && this.store == store && writes == 0
    {
      this.server := server;
      this.store := store;
      this.writes := 0;
    }

    method Update(key: CronKey, o: Cron) returns (ok: bool)
      modifies this
      ensures ok <==> key !in server.failing
      ensures store == if ok then old(store)[key := o] else old(store)
      ensures writes == old(writes) + if ok then 1 else 0
    {
      ok := key !in server.failing;
      if ok {
        store := store[key := o];
        writes := writes + 1;
      }
    }

    method List(ns: string, sel: LabelSelector) returns (r: Result<seq<CronKey>, CronError>)
      requires forall k :: k in server.order ==> k in store
      ensures r == if ns in server.listFails then Err(ListCronJobsFailed(ns)) else Ok(Listing(server.order, store, ns, sel))
    {
      if ns in server.listFails {
        return Err(ListCronJobsFailed(ns));
      }
      var keys := [];
      for i := 0 to |server.order|
        invariant keys == Listing(server.order[..i], store, ns, sel)
      {
        assert server.order[..i + 1][..i] == server.order[..i];
        var k := server.order[i];
        if k.namespace == ns && Selects(sel, store[k].labels) {
          keys := keys + [k];
        }
      }
      assert server.order[..|server.order|] == server.order;
      return Ok(keys);
    }
  }

  // A decoded CronJob: edited in place, stored only by an update.
  class CronItem {
    const key: CronKey
    const labels: Labels
    const rest: string
    var annotations: Annotations
    var suspend: Option<bool>

    constructor (key: CronKey, o: Cron)
      ensures this.key == key && Content() == o
    {
      this.key := key;
      this.labels := o.labels;
      this.rest := o.rest;
      this.annotations := o.annotations;
      this.suspend := o.suspend;
    }

    function Content(): Cron
      reads this
    {
      Cron(labels, annotations, suspend, rest)
    }
  }

  // The loop body: notes owner and original on the local copy even when nothing is stored.
  method UpdateCronJob(c: CronClient, cron: CronItem, policy: string, want: bool) returns (failed: bool)
    requires cron.key in c.store && c.store[cron.key] == cron.Content()
    modifies c, cron
    ensures failed <==> Due(old(c.store)[cron.key], policy, want) && cron.key in c.server.failing
    ensures c.store == if failed then old(c.store) else VisitAll(old(c.store), {cron.key}, policy, want)
    ensures c.writes == old(c.writes) + if Due(old(c.store)[cron.key], policy, want) && !failed then 1 else 0
  {
    VisitOne(c.store, cron.key, policy, want);
    hide VisitAll;
    ghost var was := cron.Content();
    var managedBy := Get(cron.annotations, MANAGED_BY);
    if managedBy == "" {
      cron.annotations := cron.annotations[ORIGINAL_SUSPEND := FormatBool(cron.suspend.Some? && cron.suspend.value)];
      cron.annotations := cron.annotations[MANAGED_BY := policy];
    } else if managedBy != policy {
      return false;
    }
    if cron.suspend.None? || cron.suspend.value != want {
      cron.suspend := Some(want);
      assert cron.Content() == CronJobOwnership.Visit(was, policy, want);
      var ok := c.Update(cron.key, cron.Content());
      return !ok;
    }
    return false;
  }

  lemma VisitOne(store: CronStore, k: CronKey, policy: string, want: bool)
    requires k in store
    ensures VisitAll(store, {k}, policy, want)
         == if Due(store[k], policy, want) then store[k := CronJobOwnership.Visit(store[k], policy, want)] else store
  {}

  // A second visit finds nothing to do.
  lemma VisitIsIdempotent(o: Cron, policy: string, want: bool)
    ensures !Due(CronJobOwnership.Visit(o, policy, want), policy, want)
    ensures CronJobOwnership.Visit(o, policy, want).labels == o.labels
    ensures !Due(o, policy, want) ==> CronJobOwnership.Visit(o, policy, want) == o
  {
    hide Claimed;
    ClaimedMeaning(o.annotations, o.suspend, policy);
  }

  // Visiting one set and then another is visiting their union.
  lemma VisitMore(store: CronStore, done: set<CronKey>, more: set<CronKey>, policy: string, want: bool)
    ensures var store' := VisitAll(store, done, policy, want);
            && VisitAll(store', more, policy, want) == VisitAll(store, done + more, policy, want)
            && Pending(store, done + more, policy, want) == Pending(store, done, policy, want) + Pending(store', more, policy, want)
            && Pending(store, done, policy, want) !! Pending(store', more, policy, want)
            && store'.Keys == store.Keys
            && (forall k :: k in store && k !in done ==> store'[k] == store[k])
  {
    hide CronJobOwnership.Visit, Due;
    forall k | k in store
      ensures !Due(CronJobOwnership.Visit(store[k], policy, want), policy, want)
      ensures CronJobOwnership.Visit(CronJobOwnership.Visit(store[k], policy, want), policy, want)
           == CronJobOwnership.Visit(store[k], policy, want)
    {
      VisitIsIdempotent(store[k], policy, want);
      VisitIsIdempotent(CronJobOwnership.Visit(store[k], policy, want), policy, want);
    }
  }

  // The CronJobs of one list response, up to the first failed update.
  method UpdateListed(c: CronClient, keys: seq<CronKey>, policy: string, want: bool) returns (err: Option<CronError>)
    requires GitOpsReconciler.Distinct(keys) && forall k :: k in keys ==> k in c.store
    modifies c
    ensures var n := Stop(old(c.store), keys, c.server.failing, policy, want);
            && c.store == VisitAll(old(c.store), GitOpsReconciler.Elements(keys[..n]), policy, want)
            && c.writes == old(c.writes) + |Pending(old(c.store), GitOpsReconciler.Elements(keys[..n]), policy, want)|
            && err == if n < |keys| then Some(UpdateFailed(keys[n])) else None
  {
    hide VisitAll, Pending, Due, Stop;
    ghost var before, failing := c.store, c.server.failing;
    NothingVisited(before, policy, want);
    assert GitOpsReconciler.Elements(keys[..0]) == {};
    for i := 0 to |keys|
      invariant c.store == VisitAll(before, GitOpsReconciler.Elements(keys[..i]), policy, want)
      invariant c.store.Keys == before.Keys
      invariant c.writes == old(c.writes) + |Pending(before, GitOpsReconciler.Elements(keys[..i]), policy, want)|
      invariant forall j :: 0 <= j < i ==> !(keys[j] in failing && Due(before[keys[j]], policy, want))
    {
      var k := keys[i];
      ghost var done := GitOpsReconciler.Elements(keys[..i]);
      assert GitOpsReconciler.Elements(keys[..i + 1]) == done + {k} && k !in done;
      VisitMore(before, done, {k}, policy, want);
      PendingOne(c.store, k, policy, want);
      var cron := new CronItem(k, c.store[k]);
      var failed := UpdateCronJob(c, cron, policy, want);
      if failed {
        StopIs(before, keys, failing, policy, want, i);
        return Some(UpdateFailed(k));
      }
      VisitMore(before, done + {k}, {}, policy, want);
    }
    StopIs(before, keys, failing, policy, want, |keys|);
    assert keys[..|keys|] == keys;
    return None;
  }

  lemma NothingVisited(store: CronStore, policy: string, want: bool)
    ensures VisitAll(store, {}, policy, want) == store
    ensures Pending(store, {}, policy, want) == {}
  {}

  lemma PendingOne(store: CronStore, k: CronKey, policy: string, want: bool)
    requires k in store
    ensures Pending(store, {k}, policy, want) == if Due(store[k], policy, want) then {k} else {}
  {}

  /* The whole pass */

  ghost predicate OrderInStore(server: CronServer, store: CronStore) {
    GitOpsReconciler.Distinct(server.order) && forall k :: k in server.order ==> k in store
  }

  // The objects of one listed namespace that are visited before the pass stops.
  ghost function VisitedIn(server: CronServer, store: CronStore, ns: string, sel: LabelSelector, policy: string, want: bool): set<CronKey>
    requires OrderInStore(server, store)
  {
    ListingIs(server.order, store, ns, sel);
    var keys := Listing(server.order, store, ns, sel);
    GitOpsReconciler.Elements(keys[..Stop(store, keys, server.failing, policy, want)])
  }

  // The failure, if any, that ends the pass in this namespace.
  ghost function FailureIn(server: CronServer, store: CronStore, ns: string, sel: LabelSelector, policy: string, want: bool): Option<CronError>
    requires OrderInStore(server, store)
  {
    ListingIs(server.order, store, ns, sel);
    var keys := Listing(server.order, store, ns, sel);
    var n := Stop(store, keys, server.failing, policy, want);
    if ns in server.listFails then Some(ListCronJobsFailed(ns))
    else if n < |keys| then Some(UpdateFailed(keys[n]))
    else None
  }

  lemma OrderStays(server: CronServer, store: CronStore, keys: set<CronKey>, policy: string, want: bool)
    requires OrderInStore(server, store)
    ensures OrderInStore(server, VisitAll(store, keys, policy, want))
  {}

  // Namespace by namespace, to the end or to the first failure.
  ghost function Visited(server: CronServer, store: CronStore, nss: seq<string>, sel: LabelSelector, policy: string, want: bool): set<CronKey>
    requires OrderInStore(server, store)
    decreases |nss|
  {
    if |nss| == 0 || nss[0] in server.listFails then {}
    else
      var now := VisitedIn(server, store, nss[0], sel, policy, want);
      OrderStays(server, store, now, policy, want);
      if FailureIn(server, store, nss[0], sel, policy, want).Some? then now
      else now + Visited(server, VisitAll(store, now, policy, want), nss[1..], sel, policy, want)
  }

  ghost function Failure(server: CronServer, store: CronStore, nss: seq<string>, sel: LabelSelector, policy: string, want: bool): Option<CronError>
    requires OrderInStore(server, store)
    decreases |nss|
  {
    if |nss| == 0 then None
    else
      var now, failure := VisitedIn(server, store, nss[0], sel, policy, want), FailureIn(server, store, nss[0], sel, policy, want);
      OrderStays(server, store, now, policy, want);
      if failure.Some? then failure
      else Failure(server, VisitAll(store, now, policy, want), nss[1..], sel, policy, want)
  }

  // The namespaces whose CronJobs the pass lists; none if the policy does not target CronJobs.
  function Targeted(server: CronServer, target: TargetSpec): seq<string> {
    if server.namespaces.None? || CronJob !in target.kinds then []
    else GitOpsProviders.Names(server.namespaces.value, target.namespaceSelector)
  }

  // A CronJob is targeted exactly when namespaces can be listed, the policy's kinds include CronJobs, and
  // its namespace and its own labels match.
  lemma TargetedIff(server: CronServer, store: CronStore, target: TargetSpec, k: CronKey)
    requires k in server.order && k in store
    ensures k in SelectedCron(server, store, Targeted(server, target), target.objectSelector) <==>
              && server.namespaces.Some? && CronJob in target.kinds
              && (exists i :: 0 <= i < |server.namespaces.value| && server.namespaces.value[i].name == k.namespace
                              && Selects(target.namespaceSelector, server.namespaces.value[i].labels))
              && Selects(target.objectSelector, store[k].labels)
  {
    hide Selects;
    if server.namespaces.Some? {
      GitOpsProviders.NamesMatch(server.namespaces.value, target.namespaceSelector, k.namespace);
    }
  }

  method UpdateCronJobsForPolicy(c: CronClient, target: TargetSpec, policy: string, want: bool) returns (err: Option<CronError>)
    requires OrderInStore(c.server, c.store)
    modifies c
    ensures var nss, sel := Targeted(c.server, target), target.objectSelector;
            var keys := Visited(c.server, old(c.store), nss, sel, policy, want);
            && c.store == VisitAll(old(c.store), keys, policy, want)
            && c.writes == old(c.writes) + |Pending(old(c.store), keys, policy, want)|
            && err == if c.server.namespaces.None? then Some(ListNamespacesFailed)
                      else Failure(c.server, old(c.store), nss, sel, policy, want)
    ensures CronJob !in target.kinds ==> c.store == old(c.store) && c.writes == old(c.writes)
    ensures OrderInStore(c.server, c.store)
  {
    hide VisitAll, Pending, Stop, OrderInStore, Selects;
    ghost var before, server := c.store, c.server;
    NothingVisited(before, policy, want);
    if c.server.namespaces.None? {
      return Some(ListNamespacesFailed);
    }
    var matching := [];
    var namespaces := c.server.namespaces.value;
    for i := 0 to |namespaces|
      invariant matching == GitOpsProviders.Names(namespaces[..i], target.namespaceSelector)
      invariant c.store == before && c.writes == old(c.writes)
    {
      assert namespaces[..i + 1][..i] == namespaces[..i];
      if Selects(target.namespaceSelector, namespaces[i].labels) {
        matching := matching + [namespaces[i].name];
      }
    }
    assert namespaces[..|namespaces|] == namespaces;
    if CronJob !in target.kinds {
      return None;
    }
    err := UpdateNamespaces(c, matching, target.objectSelector, policy, want);
  }

  // The outer loop.
  method UpdateNamespaces(c: CronClient, nss: seq<string>, sel: LabelSelector, policy: string, want: bool) returns (err: Option<CronError>)
    requires OrderInStore(c.server, c.store)
    modifies c
    ensures var keys := Visited(c.server, old(c.store), nss, sel, policy, want);
            && c.store == VisitAll(old(c.store), keys, policy, want)
            && c.writes == old(c.writes) + |Pending(old(c.store), keys, policy, want)|
    ensures err == Failure(c.server, old(c.store), nss, sel, policy, want)
    ensures OrderInStore(c.server, c.store)
  {
    hide VisitAll, Pending, Stop, Due, Listing;
    ghost var before, server, done := c.store, c.server, {};
    NothingVisited(before, policy, want);
    assert nss[0..] == nss;
    for i := 0 to |nss|
      invariant OrderInStore(server, c.store)
      invariant c.store == VisitAll(before, done, policy, want)
      invariant c.writes == old(c.writes) + |Pending(before, done, policy, want)|
      invariant Visited(server, before, nss, sel, policy, want)
             == done + Visited(server, c.store, nss[i..], sel, policy, want)
      invariant Failure(server, before, nss, sel, policy, want)
             == Failure(server, c.store, nss[i..], sel, policy, want)
    {
      var ns := nss[i];
      assert nss[i..][1..] == nss[i + 1..] && nss[i..][0] == ns;
      ghost var now := VisitedIn(server, c.store, ns, sel, policy, want);
      ListingIs(server.order, c.store, ns, sel);
      VisitMore(before, done, now, policy, want);
      OrderStays(server, c.store, now, policy, want);
      var listed := c.List(ns, sel);
      if listed.Err? {
        return Some(listed.error);
      }
      err := UpdateListed(c, listed.value, policy, want);
      done := done + now;
      if err.Some? {
        return;
      }
    }
    return None;
  }

  /* What a pass achieves */

  // Everything the policy selects in the given namespaces.
  ghost function SelectedCron(server: CronServer, store: CronStore, nss: seq<string>, sel: LabelSelector): set<CronKey> {
    set k | k in server.order && k in store && k.namespace in nss && Selects(sel, store[k].labels)
  }

  lemma SelectionStays(server: CronServer, store: CronStore, keys: set<CronKey>, policy: string, want: bool,
                       nss: seq<string>, sel: LabelSelector)
    ensures SelectedCron(server, VisitAll(store, keys, policy, want), nss, sel) == SelectedCron(server, store, nss, sel)
  {
    hide CronJobOwnership.Visit, Selects;
    forall k | k in store
      ensures CronJobOwnership.Visit(store[k], policy, want).labels == store[k].labels
    {
      VisitIsIdempotent(store[k], policy, want);
    }
  }

  // A pass visits only what it selects.
  lemma {:induction false} VisitedIsSelected(server: CronServer, store: CronStore, nss: seq<string>, sel: LabelSelector, policy: string, want: bool)
    requires OrderInStore(server, store)
    ensures Visited(server, store, nss, sel, policy, want) <= SelectedCron(server, store, nss, sel)
    decreases |nss|
  {
    hide VisitAll, Selects, Due, Stop, Listing;
    if |nss| > 0 {
      var ns, rest := nss[0], nss[1..];
      var now := VisitedIn(server, store, ns, sel, policy, want);
      ListingIs(server.order, store, ns, sel);
      OrderStays(server, store, now, policy, want);
      VisitedIsSelected(server, VisitAll(store, now, policy, want), rest, sel, policy, want);
      SelectionStays(server, store, now, policy, want, rest, sel);
    }
  }

  // No list call fails, and nothing that is selected refuses to be updated.
  ghost predicate NoFailures(server: CronServer, store: CronStore, nss: seq<string>, sel: LabelSelector) {
    server.failing !! SelectedCron(server, store, nss, sel) && forall ns :: ns in nss ==> ns !in server.listFails
  }

  lemma NothingStops(server: CronServer, store: CronStore, ns: string, sel: LabelSelector, policy: string, want: bool)
    requires OrderInStore(server, store) && NoFailures(server, store, [ns], sel)
    ensures FailureIn(server, store, ns, sel, policy, want).None?
    ensures VisitedIn(server, store, ns, sel, policy, want) == SelectedCron(server, store, [ns], sel)
  {
    hide Selects, Due, Stop, Listing;
    var keys := Listing(server.order, store, ns, sel);
    ListingIs(server.order, store, ns, sel);
    StopWithin(store, keys, server.failing, policy, want);
    assert keys[..|keys|] == keys;
  }

  // Without failures a pass visits everything it selects, and reports none.
  lemma {:induction false} EverythingVisited(server: CronServer, store: CronStore, nss: seq<string>, sel: LabelSelector, policy: string, want: bool)
    requires OrderInStore(server, store) && NoFailures(server, store, nss, sel)
    ensures Visited(server, store, nss, sel, policy, want) == SelectedCron(server, store, nss, sel)
    ensures Failure(server, store, nss, sel, policy, want).None?
    decreases |nss|
  {
    hide VisitAll, SelectedCron, VisitedIn, FailureIn;
    SelectionSplits(server, store, nss, sel);
    if |nss| > 0 {
      var ns, rest := nss[0], nss[1..];
      var now := VisitedIn(server, store, ns, sel, policy, want);
      NothingStops(server, store, ns, sel, policy, want);
      OrderStays(server, store, now, policy, want);
      SelectionStays(server, store, now, policy, want, rest, sel);
      EverythingVisited(server, VisitAll(store, now, policy, want), rest, sel, policy, want);
    }
  }

  lemma SelectionSplits(server: CronServer, store: CronStore, nss: seq<string>, sel: LabelSelector)
    ensures SelectedCron(server, store, nss, sel)
         == if |nss| == 0 then {} else SelectedCron(server, store, [nss[0]], sel) + SelectedCron(server, store, nss[1..], sel)
  {
    hide Selects;
    assert |nss| > 0 ==> nss == [nss[0]] + nss[1..];
  }

  // A pass fails exactly when some list fails or some selected CronJob that is due refuses its update.
  lemma {:induction false} FailureIff(server: CronServer, store: CronStore, nss: seq<string>, sel: LabelSelector, policy: string, want: bool)
    requires OrderInStore(server, store)
    ensures Failure(server, store, nss, sel, policy, want).Some? <==>
              || (exists i :: 0 <= i < |nss| && nss[i] in server.listFails)
              || (exists k :: k in SelectedCron(server, store, nss, sel) && Refuses(server, store, k, policy, want))
    decreases |nss|
  {
    hide VisitAll, Selects, VisitedIn, FailureIn, SelectedCron, Refuses;
    SelectionSplits(server, store, nss, sel);
    if |nss| > 0 {
      var ns, rest := nss[0], nss[1..];
      var now := VisitedIn(server, store, ns, sel, policy, want);
      FailureInIff(server, store, ns, sel, policy, want);
      OrderStays(server, store, now, policy, want);
      var after := VisitAll(store, now, policy, want);
      if FailureIn(server, store, ns, sel, policy, want).None? {
        FailureIff(server, after, rest, sel, policy, want);
        SelectionStays(server, store, now, policy, want, rest, sel);
        forall k | k in SelectedCron(server, store, rest, sel)
          ensures Refuses(server, after, k, policy, want) <==> Refuses(server, store, k, policy, want)
        {
          RefusalStays(server, store, ns, sel, policy, want, k);
        }
        assert forall i :: 0 <= i < |rest| ==> rest[i] == nss[i + 1];
      }
    }
  }

  // The update of this CronJob is due and would fail.
  ghost predicate Refuses(server: CronServer, store: CronStore, k: CronKey, policy: string, want: bool) {
    k in server.failing && k in store && Due(store[k], policy, want)
  }

  lemma FailureInIff(server: CronServer, store: CronStore, ns: string, sel: LabelSelector, policy: string, want: bool)
    requires OrderInStore(server, store)
    ensures FailureIn(server, store, ns, sel, policy, want).Some? <==>
              ns in server.listFails || exists k :: k in SelectedCron(server, store, [ns], sel) && Refuses(server, store, k, policy, want)
  {
    hide Selects, Due, Stop, Listing;
    var keys := Listing(server.order, store, ns, sel);
    ListingIs(server.order, store, ns, sel);
    StopWithin(store, keys, server.failing, policy, want);
    assert forall k :: k in SelectedCron(server, store, [ns], sel) <==> k in keys;
    var n := Stop(store, keys, server.failing, policy, want);
    if n < |keys| {
      assert Refuses(server, store, keys[n], policy, want);
    }
  }

  // Where a pass over one namespace succeeds, it leaves every refusal as it was.
  lemma RefusalStays(server: CronServer, store: CronStore, ns: string, sel: LabelSelector, policy: string, want: bool, k: CronKey)
    requires OrderInStore(server, store) && FailureIn(server, store, ns, sel, policy, want).None?
    ensures var after := VisitAll(store, VisitedIn(server, store, ns, sel, policy, want), policy, want);
            Refuses(server, after, k, policy, want) <==> Refuses(server, store, k, policy, want)
  {
    hide Selects, Stop, Listing, FailureIn;
    FailureInIff(server, store, ns, sel, policy, want);
    VisitedInIsSelected(server, store, ns, sel, policy, want);
    if k in store {
      VisitIsIdempotent(store[k], policy, want);
    }
  }

  lemma VisitedInIsSelected(server: CronServer, store: CronStore, ns: string, sel: LabelSelector, policy: string, want: bool)
    requires OrderInStore(server, store)
    ensures VisitedIn(server, store, ns, sel, policy, want) <= SelectedCron(server, store, [ns], sel)
  {
    hide Selects, Stop;
    ListingIs(server.order, store, ns, sel);
  }

  // And then it stops: once a namespace fails, on its list or on an update, nothing is visited in any
  // namespace that only comes later.
  lemma {:induction false} PassStops(server: CronServer, store: CronStore, nss: seq<string>, sel: LabelSelector, policy: string, want: bool,
                                     i: nat, k: CronKey)
    requires OrderInStore(server, store) && i < |nss| && k.namespace !in nss[..i + 1]
    requires nss[i] in server.listFails
             || exists bad :: bad in SelectedCron(server, store, [nss[i]], sel) && Refuses(server, store, bad, policy, want)
    ensures k !in Visited(server, store, nss, sel, policy, want)
    decreases |nss|
  {
    hide VisitAll, Selects, VisitedIn, FailureIn, Refuses;
    var ns, rest := nss[0], nss[1..];
    var now := VisitedIn(server, store, ns, sel, policy, want);
    FailureInIff(server, store, ns, sel, policy, want);
    VisitedInIsSelected(server, store, ns, sel, policy, want);
    OrderStays(server, store, now, policy, want);
    assert nss[..i + 1][0] == ns;
    if i > 0 && FailureIn(server, store, ns, sel, policy, want).None? {
      var after := VisitAll(store, now, policy, want);
      assert rest[..i] == nss[1..i + 1] && forall x :: x in rest[..i] ==> x in nss[..i + 1];
      SelectionStays(server, store, now, policy, want, [nss[i]], sel);
      forall bad
        ensures Refuses(server, after, bad, policy, want) <==> Refuses(server, store, bad, policy, want)
      {
        RefusalStays(server, store, ns, sel, policy, want, bad);
      }
      PassStops(server, after, rest, sel, policy, want, i - 1, k);
    }
  }

  // Convergence: what is pending among the selected never grows, and shrinks by one per write.
  lemma CronPassMakesProgress(store: CronStore, selected: set<CronKey>, visited: set<CronKey>, policy: string, want: bool)
    requires visited <= selected
    ensures var store' := VisitAll(store, visited, policy, want);
            && Pending(store', selected, policy, want) == Pending(store, selected, policy, want) - visited
            && |Pending(store', selected, policy, want)|
               == |Pending(store, selected, policy, want)| - |Pending(store, visited, policy, want)|
  {
    hide VisitAll, Pending, Due;
    VisitMore(store, visited, selected, policy, want);
    PendingWithin(store, visited, selected, policy, want);
    assert visited + selected == selected;
  }

  lemma PendingWithin(store: CronStore, visited: set<CronKey>, selected: set<CronKey>, policy: string, want: bool)
    requires visited <= selected
    ensures Pending(store, visited, policy, want) == Pending(store, selected, policy, want) * visited
  {}

  // Once nothing fails, one pass leaves nothing pending, and further passes of the policy, failing or
  // not, change nothing.
  lemma CronPassConverges(server: CronServer, store: CronStore, nss: seq<string>, sel: LabelSelector, policy: string, want: bool,
                          keys: set<CronKey>)
    requires OrderInStore(server, store) && NoFailures(server, store, nss, sel)
    requires keys <= SelectedCron(server, store, nss, sel)
    ensures var store' := VisitAll(store, Visited(server, store, nss, sel, policy, want), policy, want);
            && Pending(store', SelectedCron(server, store, nss, sel), policy, want) == {}
            && VisitAll(store', keys, policy, want) == store'
            && Pending(store', keys, policy, want) == {}
  {
    hide VisitAll, Pending, SelectedCron, Visited;
    var selected := SelectedCron(server, store, nss, sel);
    EverythingVisited(server, store, nss, sel, policy, want);
    CronPassMakesProgress(store, selected, selected, policy, want);
    VisitMore(store, selected, keys, policy, want);
    PendingWithin(VisitAll(store, selected, policy, want), keys, selected, policy, want);
    PendingWithin(store, selected, selected, policy, want);
    assert selected + keys == selected;
  }

  /* Interleavings */

  // One pass: whose, what it wants, and which objects it processed successfully.
  datatype CronPass = CronPass(policy: string, want: bool, visited: set<CronKey>)

  ghost function StoreRun(store: CronStore, passes: seq<CronPass>): CronStore
    decreases |passes|
  {
    if |passes| == 0 then store
    else
      var n := |passes| - 1;
      VisitAll(StoreRun(store, passes[..n]), passes[n].visited, passes[n].policy, passes[n].want)
  }

  // The passes as one object sees them; a pass that does not get to it leaves it alone.
  ghost function StepsOf(k: CronKey, passes: seq<CronPass>): seq<CronStep>
    decreases |passes|
  {
    if |passes| == 0 then []
    else
      var n := |passes| - 1;
      StepsOf(k, passes[..n]) + [CronStep(passes[n].policy, passes[n].want, k in passes[n].visited)]
  }

  lemma {:induction false} StepsAre(k: CronKey, passes: seq<CronPass>)
    ensures |StepsOf(k, passes)| == |passes|
    ensures forall i :: 0 <= i < |passes| ==>
              StepsOf(k, passes)[i] == CronStep(passes[i].policy, passes[i].want, k in passes[i].visited)
    decreases |passes|
  {
    if |passes| > 0 {
      StepsAre(k, passes[..|passes| - 1]);
    }
  }

  // In any interleaving of passes every CronJob runs on its own: what the store holds for it is the
  // object-level run of the passes as it saw them, and nothing appears or disappears.
  lemma {:induction false} CronJobsRunIndependently(store: CronStore, passes: seq<CronPass>, k: CronKey)
    requires k in store
    ensures StoreRun(store, passes).Keys == store.Keys
    ensures StoreRun(store, passes)[k] == Run(store[k], StepsOf(k, passes))
    decreases |passes|
  {
    hide CronJobOwnership.Visit;
    if |passes| > 0 {
      var n := |passes| - 1;
      CronJobsRunIndependently(store, passes[..n], k);
      assert StepsOf(k, passes)[..|StepsOf(k, passes)| - 1] == StepsOf(k, passes[..n]);
    }
  }

  // Over any interleaving of passes, for every CronJob the user created unowned: either no processed pass
  // ever wanted anything else than the user's value and the object is untouched; or the first that did
  // owns it for ever, and suspend is what the owner's last processed pass wanted.
  lemma StoreOwnership(store: CronStore, passes: seq<CronPass>, k: CronKey) returns (first: nat, last: nat)
    requires k in store && Get(store[k].annotations, MANAGED_BY) == ""
    requires forall i :: 0 <= i < |passes| ==> passes[i].policy != ""
    ensures k in StoreRun(store, passes)
    ensures var o, e, steps := store[k], StoreRun(store, passes)[k], StepsOf(k, passes);
            || (e == o && forall i :: 0 <= i < |steps| ==> !Claims(o, steps[i]))
            || (FirstClaim(o, steps, first) && LastOfOwner(steps, first, last)
                && e == o.(annotations := Claimed(o.annotations, o.suspend, steps[first].policy),
                           suspend := Some(steps[last].want)))
  {
    hide Run, StoreRun, StepsOf, Claimed, Claims, FirstClaim, LastOfOwner;
    var steps := StepsOf(k, passes);
    CronJobsRunIndependently(store, passes, k);
    StepsAre(k, passes);
    first, last := ClaimedOrNot(store[k], steps);
    if FirstClaim(store[k], steps, first) && LastOfOwner(steps, first, last) {
      OwnershipClosedForm(store[k], steps, first, last);
    } else {
      UnclaimedIsUntouched(store[k], steps);
    }
  }
}
