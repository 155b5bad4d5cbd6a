/**
 What one reconcile cycle does to the child ExternalSecrets, stated on values:
 the classifier of a fetched child (`checkForError`), the removal of the child
 from one namespace (`removeExternalSecret`), the create-or-update of the child
 in one namespace (`resolveExternalSecret`), the removal pass
 (`removeOldNamespaces`), the pass over the matched namespaces (the loop of
 `Reconcile`) and the cycle made of the two.

 A per-namespace step only ever looks at and changes the store entry under its
 own key (namespace, child name); it is written on that entry, an
 `Option<Child>`, and the passes apply it to the store.
 */
module Children {
  import opened Types
  import opened Cluster
  import opened Membership
  import opened Order

  /**
   `checkForError`: a failed fetch, a child that nobody owns, or nothing wrong.
   A child with any owner reference at all passes, whoever the owner is.
   */
  function CheckForError(getError: ApiError, existing: ObjectMeta): (reason: string)
    ensures reason == ErrGetExistingES <==> getError == Failed
    ensures reason == ErrSecretAlreadyExists <==> getError == Ok && |existing.ownerReferences| == 0
    ensures reason == "" <==> getError == NotFound || (getError == Ok && |existing.ownerReferences| > 0)
  {
    if getError.Failed? then ErrGetExistingES
    else if !getError.NotFound? && |existing.ownerReferences| == 0 then ErrSecretAlreadyExists
    else ""
  }

  /** The failure reason of a namespace ("" when it succeeded) and the entry it leaves behind. */
  datatype Effect = Effect(reason: string, after: Option<Child>)

  /** `removeExternalSecret` on the entry `cur` under (ns, child name). */
  function RemoveEffect(cur: Option<Child>, ns: string, faults: set<Call>): (e: Effect)
    ensures GetChildCall(ns) in faults ==> e == Effect(ErrGetExistingES, cur)
    ensures GetChildCall(ns) !in faults && cur.None? ==> e == Effect("", None)
    ensures GetChildCall(ns) !in faults && cur.Some? && |cur.value.meta.ownerReferences| == 0
            ==> e == Effect(ErrSecretAlreadyExists, cur)
    ensures GetChildCall(ns) !in faults && cur.Some? && |cur.value.meta.ownerReferences| > 0
            ==> e == if DeleteChildCall(ns) in faults then Effect(ErrFailedToDelete, cur) else Effect("", None)
    ensures e.reason != "" ==> e.after == cur
    ensures e.reason == "" ==> e.after.None?
  {
    var got := MetaGet(cur, GetChildCall(ns) in faults);
    if got.err == NotFound then Effect("", cur)
    else
      var result := CheckForError(got.err, got.meta);
      if result != "" then Effect(result, cur)
      else if DeleteChildCall(ns) in faults then Effect(ErrFailedToDelete, cur)
      else Effect("", None)
  }

  /** Removing again what was just removed changes nothing and reports the same. */
  lemma RemoveEffectIdempotent(cur: Option<Child>, ns: string, faults: set<Call>)
    ensures var e := RemoveEffect(cur, ns, faults); RemoveEffect(e.after, ns, faults) == e
  {
  }

  /** The parent may become the controller of an object with these owners. */
  predicate CanControl(p: Parent, owners: seq<OwnerRef>)
  {
    ControllerOf(owners).None? || SameObject(ControllerOf(owners).value, ControllerRefOf(p))
  }

  /** The child a parent creates: its labels, annotations and spec, and the parent as controller. */
  function NewChild(p: Parent): Child
  {
    Child(ObjectMeta([ControllerRefOf(p)], p.externalSecretMetadata.labels, p.externalSecretMetadata.annotations),
          p.externalSecretSpec)
  }

  /**
   `resolveExternalSecret`: the ownership test on the fetched metadata, then a
   create-or-update whose mutate function sets only the spec. The labels,
   annotations and controller reference built for the child reach the store
   only when it is created.
   */
  function ResolveEffect(cur: Option<Child>, p: Parent, existing: ObjectMeta, ns: string, faults: set<Call>): (e: Effect)
    ensures e.reason == ErrSetCtrlReference <==> !CanControl(p, existing.ownerReferences)
    ensures e.reason == ErrCreatingOrUpdating <==>
              CanControl(p, existing.ownerReferences)
              && (ReadChildCall(ns) in faults || (WriteChildCall(ns) in faults && !(cur.Some? && cur.value.spec == p.externalSecretSpec)))
    ensures e.reason == "" <==>
              CanControl(p, existing.ownerReferences) && ReadChildCall(ns) !in faults
              && (WriteChildCall(ns) !in faults || (cur.Some? && cur.value.spec == p.externalSecretSpec))
    ensures e.reason == "" || e.reason == ErrSetCtrlReference || e.reason == ErrCreatingOrUpdating
    ensures e.reason != "" ==> e.after == cur
    ensures e.reason == "" ==> e.after.Some? && e.after.value.spec == p.externalSecretSpec
    ensures e.reason == "" && cur.None? ==> e.after == Some(NewChild(p))
    ensures e.reason == "" && cur.Some? ==> e.after == Some(cur.value.(spec := p.externalSecretSpec))
  {
    match SetControllerReference(ControllerRefOf(p), existing.ownerReferences)
    case None => Effect(ErrSetCtrlReference, cur)
    case Some(_) =>
      var md := p.externalSecretMetadata;
      var desired := Child(ObjectMeta([], md.labels, md.annotations), p.externalSecretSpec);
      match SetControllerReference(ControllerRefOf(p), desired.meta.ownerReferences)
      case None => Effect(ErrSetCtrlReference, cur)
      case Some(owners) =>
        var obj := desired.(meta := desired.meta.(ownerReferences := owners));
        var w := CreateOrUpdate(cur, obj, p.externalSecretSpec, ReadChildCall(ns) in faults, WriteChildCall(ns) in faults);
        if w.ok then Effect("", w.after) else Effect(ErrCreatingOrUpdating, cur)
  }

  /**
   One matched namespace in `Reconcile`: fetch the child's metadata, classify
   it, then resolve. An unowned child and a child another controller owns are
   never touched; on success the child holds the parent's template.
   */
  function SyncEffect(cur: Option<Child>, p: Parent, ns: string, faults: set<Call>): (e: Effect)
    ensures e.reason != "" ==> e.after == cur
    ensures e.reason == "" ==> e.after.Some? && e.after.value.spec == p.externalSecretSpec
    ensures e.reason == "" && cur.None? ==> e.after == Some(NewChild(p))
    ensures e.reason == "" && cur.Some? ==> e.after == Some(cur.value.(spec := p.externalSecretSpec))
    ensures GetChildCall(ns) in faults ==> e.reason == ErrGetExistingES
    ensures GetChildCall(ns) !in faults && cur.Some? && |cur.value.meta.ownerReferences| == 0
            ==> e == Effect(ErrSecretAlreadyExists, cur)
    ensures GetChildCall(ns) !in faults && cur.Some? && !CanControl(p, cur.value.meta.ownerReferences)
            ==> e == Effect(ErrSetCtrlReference, cur)
    ensures e.reason == "" <==>
              && GetChildCall(ns) !in faults
              && (cur.None? || (|cur.value.meta.ownerReferences| > 0 && CanControl(p, cur.value.meta.ownerReferences)))
              && ReadChildCall(ns) !in faults
              && (WriteChildCall(ns) !in faults || (cur.Some? && cur.value.spec == p.externalSecretSpec))
    ensures e.reason == ErrCreatingOrUpdating <==>
              && GetChildCall(ns) !in faults
              && (cur.None? || (|cur.value.meta.ownerReferences| > 0 && CanControl(p, cur.value.meta.ownerReferences)))
              && (ReadChildCall(ns) in faults || (WriteChildCall(ns) in faults && !(cur.Some? && cur.value.spec == p.externalSecretSpec)))
  {
    var got := MetaGet(cur, GetChildCall(ns) in faults);
    var result := CheckForError(got.err, got.meta);
    if result != "" then Effect(result, cur)
    else ResolveEffect(cur, p, got.meta, ns, faults)
  }

  /** Once a namespace succeeded, the next cycle finds nothing to change and succeeds again. */
  lemma SyncEffectIdempotent(cur: Option<Child>, p: Parent, ns: string, faults: set<Call>)
    requires SyncEffect(cur, p, ns, faults).reason == ""
    ensures var e := SyncEffect(cur, p, ns, faults); SyncEffect(e.after, p, ns, faults) == e
  {
    var e := SyncEffect(cur, p, ns, faults);
    var c := e.after.value;
    if cur.None? {
      assert ControllerOf(c.meta.ownerReferences) == Some(ControllerRefOf(p));
    } else {
      assert c.meta == cur.value.meta;
    }
  }

  /**
   Running the step again on the entry it left behind reports the same and
   leaves the same: a success stays a success, and a failure, which touched
   nothing, fails again the same way.
   */
  lemma SyncEffectStable(cur: Option<Child>, p: Parent, ns: string, faults: set<Call>)
    ensures var e := SyncEffect(cur, p, ns, faults); SyncEffect(e.after, p, ns, faults) == e
  {
    if SyncEffect(cur, p, ns, faults).reason == "" {
      SyncEffectIdempotent(cur, p, ns, faults);
    }
  }

  /** The child key of the parent in a namespace. */
  function KeyIn(ns: string, esName: string): ChildKey
  {
    ChildKey(ns, esName)
  }

  /** `RemoveEffect` on the store entry of a namespace. */
  function RemovalAt(children: map<ChildKey, Child>, esName: string, ns: string, faults: set<Call>): Effect
  {
    RemoveEffect(Lookup(children, KeyIn(ns, esName)), ns, faults)
  }

  /** `SyncEffect` on the store entry of a namespace. */
  function SyncAt(children: map<ChildKey, Child>, p: Parent, esName: string, ns: string, faults: set<Call>): Effect
  {
    SyncEffect(Lookup(children, KeyIn(ns, esName)), p, ns, faults)
  }

  // ----- the removal pass -----

  datatype Removal = Removal(failed: map<string, string>, children: map<ChildKey, Child>)

  /** `removeOldNamespaces` over the removed list, left to right. */
  function RemoveAll(children: map<ChildKey, Child>, esName: string, removed: seq<string>, faults: set<Call>): (r: Removal)
    decreases |removed|
  {
    if removed == [] then Removal(map[], children)
    else
      var prev := RemoveAll(children, esName, removed[..|removed| - 1], faults);
      var ns := removed[|removed| - 1];
      var e := RemovalAt(prev.children, esName, ns, faults);
      Removal(if e.reason != "" then prev.failed[ns := e.reason] else prev.failed,
              Apply(prev.children, KeyIn(ns, esName), e.after))
  }

  /**
   The entry of a namespace after the removal pass: as its removal leaves it
   when the namespace is in the list (once or several times), untouched
   otherwise.
   */
  lemma {:induction false} RemoveAllEntry(children: map<ChildKey, Child>, esName: string, removed: seq<string>, faults: set<Call>, ns: string)
    ensures Lookup(RemoveAll(children, esName, removed, faults).children, KeyIn(ns, esName)) ==
              if ns in removed then RemovalAt(children, esName, ns, faults).after else Lookup(children, KeyIn(ns, esName))
    decreases |removed|
  {
    if removed != [] {
      var init := removed[..|removed| - 1];
      var last := removed[|removed| - 1];
      assert removed == init + [last];
      RemoveAllEntry(children, esName, init, faults, ns);
      if last == ns && ns in init {
        RemoveEffectIdempotent(Lookup(children, KeyIn(ns, esName)), ns, faults);
      }
    }
  }

  /** A namespace listed several times is removed as if it were listed once. */
  lemma RemoveAllStep(children: map<ChildKey, Child>, esName: string, init: seq<string>, faults: set<Call>, ns: string)
    ensures RemovalAt(RemoveAll(children, esName, init, faults).children, esName, ns, faults) == RemovalAt(children, esName, ns, faults)
  {
    RemoveAllEntry(children, esName, init, faults, ns);
    if ns in init {
      RemoveEffectIdempotent(Lookup(children, KeyIn(ns, esName)), ns, faults);
    }
  }

  /** Only the children of removed namespaces change, each as its removal says. */
  lemma {:induction false} RemoveAllChildren(children: map<ChildKey, Child>, esName: string, removed: seq<string>, faults: set<Call>)
    ensures forall k :: Lookup(RemoveAll(children, esName, removed, faults).children, k) ==
              if k.name == esName && k.namespace in removed
              then RemoveEffect(Lookup(children, k), k.namespace, faults).after
              else Lookup(children, k)
    decreases |removed|
  {
    if removed != [] {
      var init := removed[..|removed| - 1];
      var ns := removed[|removed| - 1];
      assert removed == init + [ns];
      RemoveAllChildren(children, esName, init, faults);
      RemoveAllStep(children, esName, init, faults, ns);
    }
  }

  /**
   Every removed namespace is attempted whatever happened to the ones before,
   and exactly the failing ones are in the map, each with its reason.
   */
  lemma {:induction false} RemoveAllFailed(children: map<ChildKey, Child>, esName: string, removed: seq<string>, faults: set<Call>)
    ensures var o := RemoveAll(children, esName, removed, faults);
      && (forall ns :: ns in o.failed <==> ns in removed && RemovalAt(children, esName, ns, faults).reason != "")
      && (forall ns :: ns in o.failed ==> o.failed[ns] == RemovalAt(children, esName, ns, faults).reason)
    decreases |removed|
  {
    if removed != [] {
      var init := removed[..|removed| - 1];
      var ns := removed[|removed| - 1];
      assert removed == init + [ns];
      RemoveAllFailed(children, esName, init, faults);
      RemoveAllStep(children, esName, init, faults, ns);
    }
  }

  /**
   The removal pass attempts every removed namespace whatever happened to the
   ones before; exactly the failing ones are in the map, each with its reason;
   and only the children of removed namespaces change, as their removal says.
   */
  lemma RemoveAllOutcome(children: map<ChildKey, Child>, esName: string, removed: seq<string>, faults: set<Call>)
    ensures var o := RemoveAll(children, esName, removed, faults);
      && (forall ns :: ns in o.failed <==> ns in removed && RemovalAt(children, esName, ns, faults).reason != "")
      && (forall ns :: ns in o.failed ==> o.failed[ns] == RemovalAt(children, esName, ns, faults).reason)
      && (forall k :: Lookup(o.children, k) ==
            if k.name == esName && k.namespace in removed
            then RemoveEffect(Lookup(children, k), k.namespace, faults).after
            else Lookup(children, k))
  {
    RemoveAllFailed(children, esName, removed, faults);
    RemoveAllChildren(children, esName, removed, faults);
  }

  // ----- the pass over the matched namespaces -----

  datatype Matching = Matching(provisioned: seq<string>, failed: map<string, string>, children: map<ChildKey, Child>)

  /** The loop of `Reconcile` over the listed namespaces, from the state `start`. */
  function MatchAll(start: Matching, p: Parent, esName: string, items: seq<Namespace>, faults: set<Call>): (r: Matching)
    decreases |items|
  {
    if items == [] then start
    else
      var prev := MatchAll(start, p, esName, items[..|items| - 1], faults);
      var ns := items[|items| - 1].name;
      var e := SyncAt(prev.children, p, esName, ns, faults);
      if e.reason != "" then Matching(prev.provisioned, prev.failed[ns := e.reason], prev.children)
      else Matching(prev.provisioned + [ns], prev.failed, Apply(prev.children, KeyIn(ns, esName), e.after))
  }

  /** The pass over the first `i + 1` namespaces: the pass over the first `i`, then one step on the next. */
  lemma MatchAllPrefix(start: Matching, p: Parent, esName: string, items: seq<Namespace>, i: nat, faults: set<Call>)
    requires i < |items|
    ensures var prev := MatchAll(start, p, esName, items[..i], faults);
      var ns := items[i].name;
      var e := SyncAt(prev.children, p, esName, ns, faults);
      MatchAll(start, p, esName, items[..i + 1], faults) ==
        if e.reason != "" then Matching(prev.provisioned, prev.failed[ns := e.reason], prev.children)
        else Matching(prev.provisioned + [ns], prev.failed, Apply(prev.children, KeyIn(ns, esName), e.after))
  {
    assert items[..i + 1][..i] == items[..i];
  }

  /** The names of the listed namespaces that succeed on the store `children`, in list order. */
  function Passing(children: map<ChildKey, Child>, p: Parent, esName: string, items: seq<Namespace>, faults: set<Call>): (r: seq<string>)
    ensures forall x :: x in r <==> x in NameSet(items) && SyncAt(children, p, esName, x, faults).reason == ""
    decreases |items|
  {
    if items == [] then []
    else
      var ns := items[|items| - 1].name;
      Passing(children, p, esName, items[..|items| - 1], faults)
        + if SyncAt(children, p, esName, ns, faults).reason == "" then [ns] else []
  }

  lemma {:induction false} PassingDistinct(children: map<ChildKey, Child>, p: Parent, esName: string, items: seq<Namespace>, faults: set<Call>)
    requires NamesDistinct(items)
    ensures KeysDistinct(Passing(children, p, esName, items, faults), Identity)
    decreases |items|
  {
    if items != [] {
      var init := items[..|items| - 1];
      var ns := items[|items| - 1].name;
      assert NamesDistinct(init);
      PassingDistinct(children, p, esName, init, faults);
      assert ns !in NameSet(init);
    }
  }

  /** Passing depends on the store and the parent only through the outcomes of the listed namespaces. */
  lemma {:induction false} PassingLocal(c1: map<ChildKey, Child>, p1: Parent, c2: map<ChildKey, Child>, p2: Parent,
                                        esName: string, items: seq<Namespace>, faults: set<Call>)
    requires forall ns :: ns in NameSet(items) ==> SyncAt(c1, p1, esName, ns, faults).reason == SyncAt(c2, p2, esName, ns, faults).reason
    ensures Passing(c1, p1, esName, items, faults) == Passing(c2, p2, esName, items, faults)
    decreases |items|
  {
    if items != [] {
      var init := items[..|items| - 1];
      assert forall ns :: ns in NameSet(init) ==> ns in NameSet(items);
      PassingLocal(c1, p1, c2, p2, esName, init, faults);
      assert items[|items| - 1].name in NameSet(items);
    }
  }

  /** The entry of a namespace that is not listed is left as it was. */
  lemma {:induction false} MatchAllUntouched(start: Matching, p: Parent, esName: string, items: seq<Namespace>, faults: set<Call>, ns: string)
    requires ns !in NameSet(items)
    ensures Lookup(MatchAll(start, p, esName, items, faults).children, KeyIn(ns, esName)) == Lookup(start.children, KeyIn(ns, esName))
    decreases |items|
  {
    if items != [] {
      var init := items[..|items| - 1];
      assert items[|items| - 1].name in NameSet(items);
      assert forall x :: x in NameSet(init) ==> x in NameSet(items);
      MatchAllUntouched(start, p, esName, init, faults, ns);
    }
  }

  /** Over distinct namespaces, only the children of the listed namespaces change, each as its step says. */
  lemma {:induction false} MatchAllChildren(start: Matching, p: Parent, esName: string, items: seq<Namespace>, faults: set<Call>)
    requires NamesDistinct(items)
    ensures forall k :: Lookup(MatchAll(start, p, esName, items, faults).children, k) ==
              if k.name == esName && k.namespace in NameSet(items)
              then SyncEffect(Lookup(start.children, k), p, k.namespace, faults).after
              else Lookup(start.children, k)
    decreases |items|
  {
    if items != [] {
      var init := items[..|items| - 1];
      var ns := items[|items| - 1].name;
      assert NamesDistinct(init);
      MatchAllChildren(start, p, esName, init, faults);
      assert ns !in NameSet(init);
      MatchAllUntouched(start, p, esName, init, faults, ns);
      assert forall x :: x in NameSet(items) <==> x in NameSet(init) || x == ns;
    }
  }

  /** Over distinct namespaces, the successes are appended in list order. */
  lemma {:induction false} MatchAllProvisioned(start: Matching, p: Parent, esName: string, items: seq<Namespace>, faults: set<Call>)
    requires NamesDistinct(items)
    ensures MatchAll(start, p, esName, items, faults).provisioned == start.provisioned + Passing(start.children, p, esName, items, faults)
    decreases |items|
  {
    if items != [] {
      var init := items[..|items| - 1];
      var ns := items[|items| - 1].name;
      assert NamesDistinct(init);
      MatchAllProvisioned(start, p, esName, init, faults);
      assert ns !in NameSet(init);
      MatchAllUntouched(start, p, esName, init, faults, ns);
      var prev := MatchAll(start, p, esName, init, faults);
      assert SyncAt(prev.children, p, esName, ns, faults) == SyncAt(start.children, p, esName, ns, faults);
    }
  }

  /** Over distinct namespaces, the failures go into the map with their reasons, next to the failures of `start`. */
  lemma {:induction false} MatchAllFailed(start: Matching, p: Parent, esName: string, items: seq<Namespace>, faults: set<Call>)
    requires NamesDistinct(items)
    requires forall ns :: ns in start.failed ==> ns !in NameSet(items)
    ensures var o := MatchAll(start, p, esName, items, faults);
      && (forall ns :: ns in o.failed <==>
            ns in start.failed || (ns in NameSet(items) && SyncAt(start.children, p, esName, ns, faults).reason != ""))
      && (forall ns :: ns in o.failed ==>
            o.failed[ns] == if ns in NameSet(items) then SyncAt(start.children, p, esName, ns, faults).reason else start.failed[ns])
    decreases |items|
  {
    if items != [] {
      var init := items[..|items| - 1];
      var ns := items[|items| - 1].name;
      assert NamesDistinct(init);
      assert forall x :: x in NameSet(items) <==> x in NameSet(init) || x == ns;
      MatchAllFailed(start, p, esName, init, faults);
      assert ns !in NameSet(init);
      MatchAllUntouched(start, p, esName, init, faults, ns);
      var prev := MatchAll(start, p, esName, init, faults);
      assert SyncAt(prev.children, p, esName, ns, faults) == SyncAt(start.children, p, esName, ns, faults);
    }
  }

  /**
   Over distinct namespaces, each one is handled once on its own entry: the
   successes are appended in list order, the failures go into the map with
   their reasons, and only the children of the listed namespaces change.
   */
  lemma MatchAllOutcome(start: Matching, p: Parent, esName: string, items: seq<Namespace>, faults: set<Call>)
    requires NamesDistinct(items)
    requires forall ns :: ns in start.failed ==> ns !in NameSet(items)
    ensures var o := MatchAll(start, p, esName, items, faults);
      && o.provisioned == start.provisioned + Passing(start.children, p, esName, items, faults)
      && (forall ns :: ns in o.failed <==>
            ns in start.failed || (ns in NameSet(items) && SyncAt(start.children, p, esName, ns, faults).reason != ""))
      && (forall ns :: ns in o.failed ==>
            o.failed[ns] == if ns in NameSet(items) then SyncAt(start.children, p, esName, ns, faults).reason else start.failed[ns])
      && (forall k :: Lookup(o.children, k) ==
            if k.name == esName && k.namespace in NameSet(items)
            then SyncEffect(Lookup(start.children, k), p, k.namespace, faults).after
            else Lookup(start.children, k))
  {
    MatchAllChildren(start, p, esName, items, faults);
    MatchAllProvisioned(start, p, esName, items, faults);
    MatchAllFailed(start, p, esName, items, faults);
  }

  // ----- one cycle -----

  /** The namespaces to clean up: provisioned last cycle and not listed now. */
  function RemovedOf(p: Parent, listed: seq<Namespace>): seq<string>
  {
    Removed(NameSet(listed), p.status.provisionedNamespaces)
  }

  /** The removal pass, then the pass over the listed namespaces starting from its failures. */
  function Cycle(p: Parent, esName: string, listed: seq<Namespace>, children: map<ChildKey, Child>, faults: set<Call>): (o: Matching)
  {
    var r := RemoveAll(children, esName, RemovedOf(p, listed), faults);
    MatchAll(Matching([], r.failed, r.children), p, esName, listed, faults)
  }

  /** The removal pass leaves the entries of the listed namespaces as they were. */
  lemma RemovalSparesListed(p: Parent, esName: string, listed: seq<Namespace>, children: map<ChildKey, Child>, faults: set<Call>)
    ensures var r := RemoveAll(children, esName, RemovedOf(p, listed), faults);
      forall ns :: ns in NameSet(listed) ==> SyncAt(r.children, p, esName, ns, faults) == SyncAt(children, p, esName, ns, faults)
  {
    var r := RemoveAll(children, esName, RemovedOf(p, listed), faults);
    forall ns | ns in NameSet(listed)
      ensures SyncAt(r.children, p, esName, ns, faults) == SyncAt(children, p, esName, ns, faults)
    {
      RemoveAllEntry(children, esName, RemovedOf(p, listed), faults, ns);
    }
  }

  /** The provisioned list of a cycle: the listed namespaces that pass on the store as found, in list order, once each. */
  lemma CycleProvisioned(p: Parent, esName: string, listed: seq<Namespace>, children: map<ChildKey, Child>, faults: set<Call>)
    requires NamesDistinct(listed)
    ensures var o := Cycle(p, esName, listed, children, faults);
      && o.provisioned == Passing(children, p, esName, listed, faults)
      && KeysDistinct(o.provisioned, Identity)
  {
    var r := RemoveAll(children, esName, RemovedOf(p, listed), faults);
    MatchAllProvisioned(Matching([], r.failed, r.children), p, esName, listed, faults);
    RemovalSparesListed(p, esName, listed, children, faults);
    PassingLocal(r.children, p, children, p, esName, listed, faults);
    PassingDistinct(children, p, esName, listed, faults);
  }

  /** The failure map of a cycle: failed removals and failed listed namespaces, each with its reason. */
  lemma CycleFailed(p: Parent, esName: string, listed: seq<Namespace>, children: map<ChildKey, Child>, faults: set<Call>)
    requires NamesDistinct(listed)
    ensures var o := Cycle(p, esName, listed, children, faults);
      var removed := RemovedOf(p, listed);
      && (forall ns :: ns in o.failed <==>
            (ns in removed && RemovalAt(children, esName, ns, faults).reason != "")
            || (ns in NameSet(listed) && SyncAt(children, p, esName, ns, faults).reason != ""))
      && (forall ns :: ns in o.failed ==>
            o.failed[ns] == if ns in NameSet(listed) then SyncAt(children, p, esName, ns, faults).reason
                            else RemovalAt(children, esName, ns, faults).reason)
  {
    var r := RemoveAll(children, esName, RemovedOf(p, listed), faults);
    RemoveAllFailed(children, esName, RemovedOf(p, listed), faults);
    MatchAllFailed(Matching([], r.failed, r.children), p, esName, listed, faults);
    RemovalSparesListed(p, esName, listed, children, faults);
  }

  /** The store after a cycle: listed namespaces as their step leaves them, removed ones as their removal does. */
  lemma CycleChildren(p: Parent, esName: string, listed: seq<Namespace>, children: map<ChildKey, Child>, faults: set<Call>)
    requires NamesDistinct(listed)
    ensures var o := Cycle(p, esName, listed, children, faults);
      var removed := RemovedOf(p, listed);
      forall k :: Lookup(o.children, k) ==
            if k.name == esName && k.namespace in NameSet(listed)
            then SyncEffect(Lookup(children, k), p, k.namespace, faults).after
            else if k.name == esName && k.namespace in removed
            then RemoveEffect(Lookup(children, k), k.namespace, faults).after
            else Lookup(children, k)
  {
    var r := RemoveAll(children, esName, RemovedOf(p, listed), faults);
    RemoveAllChildren(children, esName, RemovedOf(p, listed), faults);
    MatchAllChildren(Matching([], r.failed, r.children), p, esName, listed, faults);
  }

  /**
   What one cycle provisions, reports and leaves in the store. The provisioned
   list is rebuilt from nothing: exactly the listed namespaces that pass both
   the classifier and the resolve step on the store as the cycle found it, in
   list order, without repetition. It shares no namespace with the failure map
   and holds no removed namespace. The failure map holds the removed
   namespaces whose removal failed and the listed ones that failed.
   */
  lemma CycleOutcome(p: Parent, esName: string, listed: seq<Namespace>, children: map<ChildKey, Child>, faults: set<Call>)
    requires NamesDistinct(listed)
    ensures var o := Cycle(p, esName, listed, children, faults);
      var removed := RemovedOf(p, listed);
      && o.provisioned == Passing(children, p, esName, listed, faults)
      && KeysDistinct(o.provisioned, Identity)
      && (forall ns :: ns in o.provisioned ==> ns !in o.failed)
      && (forall ns :: ns in removed ==> ns !in o.provisioned)
      && (forall ns :: ns in o.failed <==>
            (ns in removed && RemovalAt(children, esName, ns, faults).reason != "")
            || (ns in NameSet(listed) && SyncAt(children, p, esName, ns, faults).reason != ""))
      && (forall ns :: ns in o.failed ==>
            o.failed[ns] == if ns in NameSet(listed) then SyncAt(children, p, esName, ns, faults).reason
                            else RemovalAt(children, esName, ns, faults).reason)
      && (forall k :: Lookup(o.children, k) ==
            if k.name == esName && k.namespace in NameSet(listed)
            then SyncEffect(Lookup(children, k), p, k.namespace, faults).after
            else if k.name == esName && k.namespace in removed
            then RemoveEffect(Lookup(children, k), k.namespace, faults).after
            else Lookup(children, k))
  {
    CycleProvisioned(p, esName, listed, children, faults);
    CycleFailed(p, esName, listed, children, faults);
    CycleChildren(p, esName, listed, children, faults);
  }

  /** The previous provisioned list decides what is cleaned up, never what is provisioned. */
  lemma ProvisionedIgnoresHistory(p: Parent, previous: Status, esName: string, listed: seq<Namespace>,
                                  children: map<ChildKey, Child>, faults: set<Call>)
    requires NamesDistinct(listed)
    ensures Cycle(p.(status := previous), esName, listed, children, faults).provisioned
         == Cycle(p, esName, listed, children, faults).provisioned
  {
    var q := p.(status := previous);
    CycleOutcome(q, esName, listed, children, faults);
    CycleOutcome(p, esName, listed, children, faults);
    PassingIgnoresStatus(children, p, previous, esName, listed, faults);
  }

  lemma {:induction false} PassingIgnoresStatus(children: map<ChildKey, Child>, p: Parent, previous: Status, esName: string,
                                                items: seq<Namespace>, faults: set<Call>)
    ensures Passing(children, p.(status := previous), esName, items, faults) == Passing(children, p, esName, items, faults)
    decreases |items|
  {
    if items != [] {
      PassingIgnoresStatus(children, p, previous, esName, items[..|items| - 1], faults);
      var ns := items[|items| - 1].name;
      assert SyncAt(children, p.(status := previous), esName, ns, faults) == SyncAt(children, p, esName, ns, faults);
    }
  }
}
