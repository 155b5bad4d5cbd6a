/**
 The ClusterExternalSecret reconciler: `Reconcile` and the helpers it calls on
 the API server, and `findObjectsForNamespace`, the mapping from a namespace
 event to the parents it wakes up. Each method is proved against the value
 model of the other modules: `ReconcileSpec` for a whole cycle, `RemoveAll`
 and `MatchAll` for its two loops, `FindRequests` for the fan-out.
 */
module Controller {
  import opened Types
  import opened Order
  import opened Cluster
  import opened Membership
  import opened Children
  import opened StatusReport
  import opened Events

  /** What one call of `Reconcile` returns and leaves in the store. */
  datatype Outcome = Outcome(result: CtrlResult, err: ReconcileError, parents: seq<Parent>, children: map<ChildKey, Child>)

  /** The requeue delay: the parent's refresh interval when it has one, the controller's default otherwise. */
  function RefreshInterval(p: Parent, requeueInterval: int): (d: int)
    ensures p.refreshInterval.Some? ==> d == p.refreshInterval.value
    ensures p.refreshInterval.None? ==> d == requeueInterval
  {
    p.refreshInterval.GetOr(requeueInterval)
  }

  /** The name of the children: `externalSecretName`, or the parent's own name when that is empty. */
  function ChildName(p: Parent): (name: string)
    ensures p.externalSecretName != "" ==> name == p.externalSecretName
    ensures p.externalSecretName == "" ==> name == p.name
  {
    if p.externalSecretName == "" then p.name else p.externalSecretName
  }

  /**
   One cycle on the store (`namespaces`, `parents`, `children`) with the calls
   in `faults` failing. A parent that cannot be read ends the cycle at once
   with no requeue and no error. A selector that does not convert and a
   failing namespace List end it with the refresh interval and the error, the
   deferred status patch then having nothing to write. Otherwise the removal
   pass and the pass over the selected namespaces run, and the status patch
   writes the new status unless it fails.
   */
  ghost function ReconcileSpec(namespaces: seq<Namespace>, parents: seq<Parent>, children: map<ChildKey, Child>,
                               req: Request, faults: set<Call>, requeueInterval: int): (out: Outcome)
    ensures |out.parents| == |parents|
    ensures forall j :: 0 <= j < |parents| ==> RequestFor(out.parents[j]) == RequestFor(parents[j])
    ensures out.err != Nil ==> out.parents == parents && out.children == children
  {
    var found := if GetParentCall in faults then None else ParentIndex(parents, req);
    match found
    case None => Outcome(CtrlResult(0), Nil, parents, children)
    case Some(i) =>
      var p := parents[i];
      var refresh := CtrlResult(RefreshInterval(p, requeueInterval));
      if !ValidSelector(p.namespaceSelector) then Outcome(refresh, InvalidSelector, parents, children)
      else if ListNamespacesCall in faults then Outcome(refresh, ListNamespacesFailed, parents, children)
      else
        var listed := Selected(namespaces, p.namespaceSelector);
        var o := Cycle(p, ChildName(p), listed, children, faults);
        var status := NextStatus(o, |listed|);
        Outcome(refresh, Nil, if PatchStatusCall in faults then parents else parents[i := p.(status := status)], o.children)
  }

  /**
   The exits of a cycle. A parent that is missing or cannot be read gives an
   empty result, no error and no change. Every other exit requeues after the
   refresh interval. An invalid selector and a failing List return their
   error and change nothing; a normal cycle returns no error.
   */
  lemma ReconcileExits(namespaces: seq<Namespace>, parents: seq<Parent>, children: map<ChildKey, Child>,
                       req: Request, faults: set<Call>, requeueInterval: int)
    ensures var out := ReconcileSpec(namespaces, parents, children, req, faults, requeueInterval);
      var found := ParentIndex(parents, req);
      && (GetParentCall in faults || found.None? ==> out == Outcome(CtrlResult(0), Nil, parents, children))
      && (GetParentCall !in faults && found.Some? ==>
            && out.result == CtrlResult(RefreshInterval(parents[found.value], requeueInterval))
            && (out.err == InvalidSelector <==> !ValidSelector(parents[found.value].namespaceSelector))
            && (out.err == ListNamespacesFailed <==>
                  ValidSelector(parents[found.value].namespaceSelector) && ListNamespacesCall in faults))
      && (out.err != Nil ==> out.parents == parents && out.children == children)
      && |out.parents| == |parents|
      && (forall j :: 0 <= j < |parents| && (found.None? || j != found.value) ==> out.parents[j] == parents[j])
  {
  }

  /**
   The status a normal cycle writes on its parent, when the patch goes
   through: only that parent's status changes; the provisioned namespaces are
   ascending, without repetition, exactly the selected namespaces whose child
   this parent may control and could write, none of them failed or removed;
   the failure list stands for the failure map; the condition counts the
   failures and the selected namespaces.
   */
  lemma ReconcileWritesStatus(namespaces: seq<Namespace>, parents: seq<Parent>, children: map<ChildKey, Child>,
                              req: Request, faults: set<Call>, requeueInterval: int, i: nat)
    requires NamesDistinct(namespaces)
    requires GetParentCall !in faults && ListNamespacesCall !in faults && PatchStatusCall !in faults
    requires ParentIndex(parents, req) == Some(i)
    requires ValidSelector(parents[i].namespaceSelector)
    ensures var out := ReconcileSpec(namespaces, parents, children, req, faults, requeueInterval);
      var p := parents[i];
      var listed := Selected(namespaces, p.namespaceSelector);
      var o := Cycle(p, ChildName(p), listed, children, faults);
      var s := out.parents[i].status;
      && out.err == Nil
      && out.parents == parents[i := p.(status := s)]
      && StrictlySortedBy(s.provisionedNamespaces, Identity)
      && (forall ns :: ns in s.provisionedNamespaces <==>
            ns in NameSet(listed) && SyncAt(children, p, ChildName(p), ns, faults).reason == "")
      && (forall ns :: ns in s.provisionedNamespaces ==> ns !in o.failed)
      && (forall ns :: ns in RemovedOf(p, listed) ==> ns !in s.provisionedNamespaces)
      && IsFailureList(s.failedNamespaces, o.failed)
      && s.condition == Some(Condition(|o.failed|, |listed|))
  {
    var p := parents[i];
    SelectedDistinct(namespaces, p.namespaceSelector);
    NextStatusOutcome(p, ChildName(p), Selected(namespaces, p.namespaceSelector), children, faults);
  }

  /** The status a cycle writes lists only listed namespaces as provisioned, so the next cycle removes nothing. */
  lemma NextCycleRemovesNothing(p: Parent, esName: string, listed: seq<Namespace>, children: map<ChildKey, Child>, faults: set<Call>)
    requires NamesDistinct(listed)
    ensures var o1 := Cycle(p, esName, listed, children, faults);
      RemovedOf(p.(status := NextStatus(o1, |listed|)), listed) == []
  {
    var o1 := Cycle(p, esName, listed, children, faults);
    CycleProvisioned(p, esName, listed, children, faults);
    SortedNames(o1.provisioned);
    RemovedEmpty(NameSet(listed), SortBy(o1.provisioned, Identity));
  }

  /** On what a cycle left, each listed namespace's step reports and leaves what it did the first time. */
  lemma NextCycleSameSteps(p: Parent, s: Status, esName: string, listed: seq<Namespace>, children: map<ChildKey, Child>, faults: set<Call>)
    requires NamesDistinct(listed)
    ensures var o1 := Cycle(p, esName, listed, children, faults);
      forall ns :: ns in NameSet(listed) ==>
        SyncAt(o1.children, p.(status := s), esName, ns, faults) == SyncAt(children, p, esName, ns, faults)
  {
    var o1 := Cycle(p, esName, listed, children, faults);
    CycleChildren(p, esName, listed, children, faults);
    forall ns | ns in NameSet(listed)
      ensures SyncAt(o1.children, p.(status := s), esName, ns, faults) == SyncAt(children, p, esName, ns, faults)
    {
      var cur := Lookup(children, KeyIn(ns, esName));
      SyncEffectStable(cur, p, ns, faults);
      var after := SyncEffect(cur, p, ns, faults).after;
      assert SyncEffect(after, p.(status := s), ns, faults) == SyncEffect(after, p, ns, faults);
    }
  }

  /** A second cycle leaves the store as the first one left it. */
  lemma NextCycleSameChildren(p: Parent, esName: string, listed: seq<Namespace>, children: map<ChildKey, Child>, faults: set<Call>)
    requires NamesDistinct(listed)
    ensures var o1 := Cycle(p, esName, listed, children, faults);
      var p2 := p.(status := NextStatus(o1, |listed|));
      Cycle(p2, esName, listed, o1.children, faults).children == o1.children
  {
    var o1 := Cycle(p, esName, listed, children, faults);
    var p2 := p.(status := NextStatus(o1, |listed|));
    var o2 := Cycle(p2, esName, listed, o1.children, faults);
    NextCycleRemovesNothing(p, esName, listed, children, faults);
    NextCycleSameSteps(p, p2.status, esName, listed, children, faults);
    CycleChildren(p2, esName, listed, o1.children, faults);
    CycleChildren(p, esName, listed, children, faults);
    forall k ensures Lookup(o2.children, k) == Lookup(o1.children, k) {
      if k.name == esName && k.namespace in NameSet(listed) {
        assert SyncAt(o1.children, p2, esName, k.namespace, faults) == SyncAt(children, p, esName, k.namespace, faults);
      }
    }
    LookupExtensional(o2.children, o1.children);
  }

  /** A second cycle provisions the namespaces the first one did. */
  lemma NextCycleSameProvisioned(p: Parent, esName: string, listed: seq<Namespace>, children: map<ChildKey, Child>, faults: set<Call>)
    requires NamesDistinct(listed)
    ensures var o1 := Cycle(p, esName, listed, children, faults);
      Cycle(p.(status := NextStatus(o1, |listed|)), esName, listed, o1.children, faults).provisioned == o1.provisioned
  {
    var o1 := Cycle(p, esName, listed, children, faults);
    var p2 := p.(status := NextStatus(o1, |listed|));
    NextCycleSameSteps(p, p2.status, esName, listed, children, faults);
    CycleProvisioned(p, esName, listed, children, faults);
    CycleProvisioned(p2, esName, listed, o1.children, faults);
    PassingLocal(o1.children, p2, children, p, esName, listed, faults);
  }

  /** A second cycle reports the failures of the listed namespaces again, and no failed removal. */
  lemma NextCycleFailures(p: Parent, esName: string, listed: seq<Namespace>, children: map<ChildKey, Child>, faults: set<Call>)
    requires NamesDistinct(listed)
    ensures var o1 := Cycle(p, esName, listed, children, faults);
      var o2 := Cycle(p.(status := NextStatus(o1, |listed|)), esName, listed, o1.children, faults);
      && (forall ns :: ns in o2.failed <==> ns in o1.failed && ns in NameSet(listed))
      && (forall ns :: ns in o2.failed ==> o2.failed[ns] == o1.failed[ns])
  {
    var o1 := Cycle(p, esName, listed, children, faults);
    var p2 := p.(status := NextStatus(o1, |listed|));
    NextCycleRemovesNothing(p, esName, listed, children, faults);
    NextCycleSameSteps(p, p2.status, esName, listed, children, faults);
    CycleFailed(p, esName, listed, children, faults);
    CycleFailed(p2, esName, listed, o1.children, faults);
  }

  /**
   A second cycle over the same namespaces, on what the first one left and
   with the same calls failing, changes nothing and provisions the same
   namespaces. It removes nothing: the status of the first cycle lists only
   selected namespaces as provisioned. A namespace whose removal failed in the
   first cycle is therefore reported once and never retried: it drops out of
   the failures while its child stays.
   */
  lemma SecondCycleSettles(p: Parent, esName: string, listed: seq<Namespace>, children: map<ChildKey, Child>, faults: set<Call>)
    requires NamesDistinct(listed)
    ensures var o1 := Cycle(p, esName, listed, children, faults);
      var p2 := p.(status := NextStatus(o1, |listed|));
      var o2 := Cycle(p2, esName, listed, o1.children, faults);
      && RemovedOf(p2, listed) == []
      && o2.children == o1.children
      && o2.provisioned == o1.provisioned
      && (forall ns :: ns in o2.failed <==> ns in o1.failed && ns in NameSet(listed))
      && (forall ns :: ns in o2.failed ==> o2.failed[ns] == o1.failed[ns])
  {
    var o1 := Cycle(p, esName, listed, children, faults);
    var p2 := p.(status := NextStatus(o1, |listed|));
    NextCycleRemovesNothing(p, esName, listed, children, faults);
    NextCycleSameChildren(p, esName, listed, children, faults);
    NextCycleFailures(p, esName, listed, children, faults);
    NextCycleSameProvisioned(p, esName, listed, children, faults);
  }

  /**
   When no removal failed, a second cycle writes the status the first one
   wrote: the same provisioned list, failure list and condition.
   */
  lemma SecondCycleSameStatus(p: Parent, esName: string, listed: seq<Namespace>, children: map<ChildKey, Child>, faults: set<Call>)
    requires NamesDistinct(listed)
    requires forall ns :: ns in RemovedOf(p, listed) ==> RemovalAt(children, esName, ns, faults).reason == ""
    ensures var o1 := Cycle(p, esName, listed, children, faults);
      var o2 := Cycle(p.(status := NextStatus(o1, |listed|)), esName, listed, o1.children, faults);
      NextStatus(o2, |listed|) == NextStatus(o1, |listed|)
  {
    NextCycleSameFailureMap(p, esName, listed, children, faults);
    NextCycleSameProvisioned(p, esName, listed, children, faults);
  }

  /** When no removal failed, a second cycle fails exactly where the first one did, for the same reasons. */
  lemma NextCycleSameFailureMap(p: Parent, esName: string, listed: seq<Namespace>, children: map<ChildKey, Child>, faults: set<Call>)
    requires NamesDistinct(listed)
    requires forall ns :: ns in RemovedOf(p, listed) ==> RemovalAt(children, esName, ns, faults).reason == ""
    ensures var o1 := Cycle(p, esName, listed, children, faults);
      Cycle(p.(status := NextStatus(o1, |listed|)), esName, listed, o1.children, faults).failed == o1.failed
  {
    var o1 := Cycle(p, esName, listed, children, faults);
    var o2 := Cycle(p.(status := NextStatus(o1, |listed|)), esName, listed, o1.children, faults);
    CycleFailed(p, esName, listed, children, faults);
    NextCycleFailures(p, esName, listed, children, faults);
    assert o2.failed.Keys == o1.failed.Keys;
  }

  /**
   Every removal a cycle on this store attempts succeeds. It holds trivially
   when the cycle ends before the removal pass.
   */
  ghost predicate RemovalsSucceed(namespaces: seq<Namespace>, parents: seq<Parent>, children: map<ChildKey, Child>,
                                  req: Request, faults: set<Call>)
  {
    var found := if GetParentCall in faults then None else ParentIndex(parents, req);
    found.Some? ==>
      var p := parents[found.value];
      forall ns :: ns in RemovedOf(p, Selected(namespaces, p.namespaceSelector)) ==>
        RemovalAt(children, ChildName(p), ns, faults).reason == ""
  }

  /**
   `Reconcile` run again on what it left, with the same calls failing and a
   status patch that goes through: the same result and error, the same
   children and, in every parent, the same provisioned namespaces. When no
   removal failed, the parents are the same too, so a settled cycle is a
   fixed point.
   */
  lemma ReconcileTwice(namespaces: seq<Namespace>, parents: seq<Parent>, children: map<ChildKey, Child>,
                       req: Request, faults: set<Call>, requeueInterval: int)
    requires NamesDistinct(namespaces)
    requires PatchStatusCall !in faults
    ensures var out1 := ReconcileSpec(namespaces, parents, children, req, faults, requeueInterval);
      var out2 := ReconcileSpec(namespaces, out1.parents, out1.children, req, faults, requeueInterval);
      && out2.result == out1.result && out2.err == out1.err
      && out2.children == out1.children
      && |out2.parents| == |out1.parents|
      && (forall j :: 0 <= j < |out1.parents| ==>
            out2.parents[j].status.provisionedNamespaces == out1.parents[j].status.provisionedNamespaces)
      && (RemovalsSucceed(namespaces, parents, children, req, faults) ==> out2.parents == out1.parents)
  {
    var found := if GetParentCall in faults then None else ParentIndex(parents, req);
    if found.Some? && ValidSelector(parents[found.value].namespaceSelector) && ListNamespacesCall !in faults {
      ReconcileTwiceNormal(namespaces, parents, children, req, faults, requeueInterval, found.value);
    }
  }

  /** `ReconcileTwice` on the path through both passes. */
  lemma ReconcileTwiceNormal(namespaces: seq<Namespace>, parents: seq<Parent>, children: map<ChildKey, Child>,
                             req: Request, faults: set<Call>, requeueInterval: int, i: nat)
    requires NamesDistinct(namespaces)
    requires GetParentCall !in faults && ListNamespacesCall !in faults && PatchStatusCall !in faults
    requires ParentIndex(parents, req) == Some(i)
    requires ValidSelector(parents[i].namespaceSelector)
    ensures var out1 := ReconcileSpec(namespaces, parents, children, req, faults, requeueInterval);
      var out2 := ReconcileSpec(namespaces, out1.parents, out1.children, req, faults, requeueInterval);
      && out2.result == out1.result && out2.err == out1.err
      && out2.children == out1.children
      && |out2.parents| == |out1.parents|
      && (forall j :: 0 <= j < |out1.parents| ==>
            out2.parents[j].status.provisionedNamespaces == out1.parents[j].status.provisionedNamespaces)
      && (RemovalsSucceed(namespaces, parents, children, req, faults) ==> out2.parents == out1.parents)
  {
    var p := parents[i];
    var listed := Selected(namespaces, p.namespaceSelector);
    var esName := ChildName(p);
    var o1 := Cycle(p, esName, listed, children, faults);
    var p2 := p.(status := NextStatus(o1, |listed|));
    var out1 := ReconcileSpec(namespaces, parents, children, req, faults, requeueInterval);
    assert out1.parents == parents[i := p2] && out1.children == o1.children;
    ParentIndexKeepsKey(parents, i, p2, req);
    SelectedDistinct(namespaces, p.namespaceSelector);
    SecondCycleSettles(p, esName, listed, children, faults);
    var o2 := Cycle(p2, esName, listed, o1.children, faults);
    var out2 := ReconcileSpec(namespaces, out1.parents, out1.children, req, faults, requeueInterval);
    assert out2.parents == out1.parents[i := p2.(status := NextStatus(o2, |listed|))];
    assert out2.children == o2.children;
    if RemovalsSucceed(namespaces, parents, children, req, faults) {
      SecondCycleSameStatus(p, esName, listed, children, faults);
      assert out1.parents[i := p2.(status := NextStatus(o2, |listed|))] == out1.parents;
    }
  }

  /** `Prepend(acc, o)`: the requests `acc` found so far, followed by those of a walk that may fail. */
  function Prepend(acc: seq<Request>, o: Option<seq<Request>>): Option<seq<Request>>
  {
    match o
    case None => None
    case Some(rest) => Some(acc + rest)
  }

  lemma PrependNil(o: Option<seq<Request>>)
    ensures Prepend([], o) == o
  {
    if o.Some? {
      assert [] + o.value == o.value;
    }
  }

  lemma PrependAppend(a: seq<Request>, b: seq<Request>, o: Option<seq<Request>>)
    ensures Prepend(a, Prepend(b, o)) == Prepend(a + b, o)
  {
    if o.Some? {
      assert a + (b + o.value) == (a + b) + o.value;
    }
  }

  /** One page of the walk, all of whose selectors convert: its matching requests, then the walk from the next page, if any. */
  lemma WalkPage(parents: seq<Parent>, labels: map<string, string>, token: nat, faults: set<Call>, page: Page, before: seq<Request>)
    requires token <= |parents| && ListParentsCall(token) !in faults
    requires page == PageOf(parents, PageLimit, token) && AllValid(page.items)
    ensures page.cont == 0 ==>
              Prepend(before, FanOutFrom(parents, labels, token, faults)) == Some(before + MatchingRequests(page.items, labels))
    ensures page.cont != 0 ==>
              Prepend(before, FanOutFrom(parents, labels, token, faults)) ==
              Prepend(before + MatchingRequests(page.items, labels), FanOutFrom(parents, labels, page.cont, faults))
  {
    if page.cont != 0 {
      PrependAppend(before, MatchingRequests(page.items, labels), FanOutFrom(parents, labels, page.cont, faults));
    }
  }

  /** A page with a selector that does not convert ends the walk with an error. */
  lemma WalkInvalidPage(parents: seq<Parent>, labels: map<string, string>, token: nat, faults: set<Call>, page: Page)
    requires token <= |parents|
    requires page == PageOf(parents, PageLimit, token) && !AllValid(page.items)
    ensures FanOutFrom(parents, labels, token, faults) == None
  {
  }

  /**
   The loop of `findObjectsForNamespace` over one page: a request for each
   parent whose selector matches, in page order, or `valid == false` at the
   first selector that does not convert.
   */
  method MatchPage(items: seq<Parent>, labels: map<string, string>) returns (valid: bool, matched: seq<Request>)
    ensures valid == AllValid(items)
    ensures valid ==> matched == MatchingRequests(items, labels)
  {
    matched := [];
    var i := 0;
    while i < |items|
      invariant 0 <= i <= |items|
      invariant matched == MatchingRequests(items[..i], labels)
      invariant AllValid(items[..i])
    {
      var ces := items[i];
      if !ValidSelector(ces.namespaceSelector) {
        return false, [];
      }
      MatchingRequestsPrefix(items, i, labels);
      AllValidPrefix(items, i);
      var hit := Matches(ces.namespaceSelector, labels);
      matched := matched + if hit then [RequestFor(ces)] else [];
      i := i + 1;
    }
    assert items[..i] == items;
    return true, matched;
  }

  /** The controller, with the client it talks to and its default requeue interval. */
  class Reconciler {
    const store: Store
    const requeueInterval: int

    constructor (store: Store, requeueInterval: int)
      ensures this.store == store && this.requeueInterval == requeueInterval
    {
      this.store := store;
      this.requeueInterval := requeueInterval;
    }

    /**
     `removeExternalSecret`: a child that is not found is done; a failed Get
     or an unowned child is reported; otherwise the child is deleted.
     */
    method RemoveExternalSecret(esName: string, namespace: string, faults: set<Call>) returns (reason: string)
      modifies store
      ensures var e := RemovalAt(old(store.children), esName, namespace, faults);
        reason == e.reason && store.children == Apply(old(store.children), KeyIn(namespace, esName), e.after)
      ensures store.namespaces == old(store.namespaces) && store.parents == old(store.parents)
    {
      var key := KeyIn(namespace, esName);
      ApplyLookup(store.children, key);
      var existingES, err := store.GetChildMetadata(key, GetChildCall(namespace) in faults);
      if err == NotFound {
        return "";
      }
      var result := CheckForError(err, existingES);
      if result != "" {
        return result;
      }
      var deleteErr := store.DeleteChild(key, DeleteChildCall(namespace) in faults);
      if deleteErr != Ok {
        return ErrFailedToDelete;
      }
      return "";
    }

    /**
     `removeOldNamespaces`: every namespace provisioned before and no longer
     selected is removed in turn, and the failures are collected by namespace.
     */
    method RemoveOldNamespaces(namespaceList: seq<Namespace>, esName: string, provisionedNamespaces: seq<string>,
                               faults: set<Call>) returns (failedNamespaces: map<string, string>)
      modifies store
      ensures var r := RemoveAll(old(store.children), esName, Removed(NameSet(namespaceList), provisionedNamespaces), faults);
        failedNamespaces == r.failed && store.children == r.children
      ensures store.namespaces == old(store.namespaces) && store.parents == old(store.parents)
    {
      failedNamespaces := map[];
      var removed := GetRemovedNamespaces(namespaceList, provisionedNamespaces);
      for i := 0 to |removed|
        invariant Removal(failedNamespaces, store.children) == RemoveAll(old(store.children), esName, removed[..i], faults)
        invariant store.namespaces == old(store.namespaces) && store.parents == old(store.parents)
      {
        assert removed[..i + 1][..i] == removed[..i];
        var namespace := removed[i];
        var result := RemoveExternalSecret(esName, namespace, faults);
        if result != "" {
          failedNamespaces := failedNamespaces[namespace := result];
        }
      }
      assert removed[..|removed|] == removed;
    }

    /**
     `resolveExternalSecret`: refuse a child another controller owns, build
     the child from the parent's template with the parent as controller, and
     create or update it.
     */
    method ResolveExternalSecret(p: Parent, existingES: ObjectMeta, namespace: string, esName: string,
                                 faults: set<Call>) returns (reason: string)
      modifies store
      ensures var e := ResolveEffect(old(Lookup(store.children, KeyIn(namespace, esName))), p, existingES, namespace, faults);
        reason == e.reason && store.children == Apply(old(store.children), KeyIn(namespace, esName), e.after)
      ensures store.namespaces == old(store.namespaces) && store.parents == old(store.parents)
    {
      var key := KeyIn(namespace, esName);
      ApplyLookup(store.children, key);
      if SetControllerReference(ControllerRefOf(p), existingES.ownerReferences).None? {
        return ErrSetCtrlReference;
      }
      var md := p.externalSecretMetadata;
      var externalSecret := Child(ObjectMeta([], md.labels, md.annotations), p.externalSecretSpec);
      var owners := SetControllerReference(ControllerRefOf(p), externalSecret.meta.ownerReferences);
      if owners.None? {
        return ErrSetCtrlReference;
      }
      externalSecret := externalSecret.(meta := externalSecret.meta.(ownerReferences := owners.value));
      var ok := store.CreateOrUpdateChild(key, externalSecret, p.externalSecretSpec,
                                          ReadChildCall(namespace) in faults, WriteChildCall(namespace) in faults);
      if !ok {
        return ErrCreatingOrUpdating;
      }
      return "";
    }

    /**
     `Reconcile`: read the parent, convert its selector, list the selected
     namespaces, run the removal pass and the pass over the selected
     namespaces, then build the status; the deferred status patch runs at
     every exit after the parent was read.
     */
    method Reconcile(req: Request, faults: set<Call>) returns (res: CtrlResult, err: ReconcileError)
      modifies store
      ensures var out := ReconcileSpec(old(store.namespaces), old(store.parents), old(store.children), req, faults, requeueInterval);
        && res == out.result && err == out.err
        && store.parents == out.parents && store.children == out.children
      ensures store.namespaces == old(store.namespaces)
    {
      var getErr, found := store.GetParent(req, GetParentCall in faults);
      if getErr != Ok {
        return CtrlResult(0), Nil;
      }
      var ces := found.value;
      ghost var idx := ParentIndex(store.parents, req).value;

      var refreshInt := requeueInterval;
      if ces.refreshInterval.Some? {
        refreshInt := ces.refreshInterval.value;
      }

      if !ValidSelector(ces.namespaceSelector) {
        var _ := store.PatchStatus(req, ces.status, PatchStatusCall in faults);
        assert old(store.parents)[idx := ces.(status := ces.status)] == old(store.parents);
        return CtrlResult(refreshInt), InvalidSelector;
      }

      var listErr, namespaceList := store.ListNamespaces(ces.namespaceSelector, ListNamespacesCall in faults);
      if listErr != Ok {
        var _ := store.PatchStatus(req, ces.status, PatchStatusCall in faults);
        assert old(store.parents)[idx := ces.(status := ces.status)] == old(store.parents);
        return CtrlResult(refreshInt), ListNamespacesFailed;
      }

      var esName := ces.externalSecretName;
      if esName == "" {
        esName := ces.name;
      }

      var failedNamespaces := RemoveOldNamespaces(namespaceList, esName, ces.status.provisionedNamespaces, faults);
      ghost var start := Matching([], failedNamespaces, store.children);
      var provisionedNamespaces: seq<string> := [];

      for i := 0 to |namespaceList|
        invariant Matching(provisionedNamespaces, failedNamespaces, store.children)
               == MatchAll(start, ces, esName, namespaceList[..i], faults)
        invariant store.namespaces == old(store.namespaces) && store.parents == old(store.parents)
      {
        MatchAllPrefix(start, ces, esName, namespaceList, i, faults);
        var namespace := namespaceList[i];
        var key := KeyIn(namespace.name, esName);
        ApplyLookup(store.children, key);
        var existingES, getChildErr := store.GetChildMetadata(key, GetChildCall(namespace.name) in faults);
        var result := CheckForError(getChildErr, existingES);
        if result != "" {
          failedNamespaces := failedNamespaces[namespace.name := result];
        } else {
          result := ResolveExternalSecret(ces, existingES, namespace.name, esName, faults);
          if result != "" {
            failedNamespaces := failedNamespaces[namespace.name := result];
          } else {
            provisionedNamespaces := provisionedNamespaces + [namespace.name];
          }
        }
      }
      assert namespaceList[..|namespaceList|] == namespaceList;

      var condition := NewCondition(failedNamespaces, |namespaceList|);
      var failures := ToNamespaceFailures(failedNamespaces);
      var sorted := SortBy(provisionedNamespaces, Identity);
      var status := Status(sorted, failures, Some(condition));
      var _ := store.PatchStatus(req, status, PatchStatusCall in faults);
      return CtrlResult(refreshInt), Nil;
    }

    /**
     `findObjectsForNamespace`: list the parents page by page and collect a
     request for each parent whose selector matches the namespace's labels; a
     failing List or a selector that does not convert gives the empty list.
     */
    method FindObjectsForNamespace(namespaceLabels: Labels, faults: set<Call>) returns (requests: seq<Request>)
      ensures requests == FindRequests(store.parents, LabelSet(namespaceLabels), faults)
    {
      var labels := LabelSet(namespaceLabels);
      var token: nat := 0;
      requests := [];
      PrependNil(FanOutFrom(store.parents, labels, 0, faults));
      while true
        invariant token <= |store.parents|
        invariant FanOutFrom(store.parents, labels, 0, faults)
               == Prepend(requests, FanOutFrom(store.parents, labels, token, faults))
        decreases |store.parents| - token
      {
        var listErr, page := store.ListParents(PageLimit, token, ListParentsCall(token) in faults);
        if listErr != Ok {
          return [];
        }
        ghost var before := requests;
        var valid, matched := MatchPage(page.items, labels);
        if !valid {
          WalkInvalidPage(store.parents, labels, token, faults, page);
          return [];
        }
        requests := requests + matched;
        WalkPage(store.parents, labels, token, faults, page, before);
        if page.cont == 0 {
          break;
        }
        token := page.cont;
      }
    }
  }
}
