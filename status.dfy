/**
 The status a reconcile cycle writes back: the failure map turned into a list
 sorted by namespace (`toNamespaceFailures`), the provisioned list sorted, and
 the aggregate condition.
 */
module StatusReport {
  import opened Types
  import opened Order
  import opened Children

  /**
   A list that stands for a failure map: one entry per key, carrying that key's
   reason, strictly ascending by namespace.
   */
  ghost predicate IsFailureList(r: seq<NamespaceFailure>, m: map<string, string>)
  {
    && |r| == |m|
    && StrictlySortedBy(r, NamespaceOf)
    && (forall i :: 0 <= i < |r| ==> r[i].namespace in m && m[r[i].namespace] == r[i].reason)
    && (forall ns :: ns in m ==> exists i :: 0 <= i < |r| && r[i].namespace == ns)
  }

  /** `s` lists, once each and in any order, the entries of `m` under the keys `keys`. */
  ghost predicate IsEntryList(s: seq<NamespaceFailure>, m: map<string, string>, keys: set<string>)
    decreases |s|
  {
    if s == [] then keys == {}
    else
      var last := s[|s| - 1];
      && last.namespace in keys && last.namespace in m && m[last.namespace] == last.reason
      && IsEntryList(s[..|s| - 1], m, keys - {last.namespace})
  }

  /** An entry list has one entry per key, its keys distinct, each entry carrying its key's reason. */
  lemma {:induction false} EntryListFacts(s: seq<NamespaceFailure>, m: map<string, string>, keys: set<string>)
    requires IsEntryList(s, m, keys)
    ensures |s| == |keys|
    ensures KeysDistinct(s, NamespaceOf)
    ensures forall i :: 0 <= i < |s| ==> s[i].namespace in keys && s[i].namespace in m && m[s[i].namespace] == s[i].reason
    ensures forall ns :: ns in keys ==> exists i :: 0 <= i < |s| && s[i].namespace == ns
    decreases |s|
  {
    if s != [] {
      var init := s[..|s| - 1];
      var last := s[|s| - 1];
      var k := last.namespace;
      EntryListFacts(init, m, keys - {k});
      assert s == init + [last];
      forall ns | ns in keys ensures exists i :: 0 <= i < |s| && s[i].namespace == ns {
        if ns != k {
          assert ns in keys - {k};
          var i :| 0 <= i < |init| && init[i].namespace == ns;
          assert s[i].namespace == ns;
        } else {
          assert s[|s| - 1].namespace == ns;
        }
      }
    }
  }

  /** Appending the entry of a key not yet listed keeps an entry list. */
  lemma EntryListAppend(s: seq<NamespaceFailure>, m: map<string, string>, keys: set<string>, k: string)
    requires IsEntryList(s, m, keys) && k in m && k !in keys
    ensures IsEntryList(s + [NamespaceFailure(k, m[k])], m, keys + {k})
  {
    assert (s + [NamespaceFailure(k, m[k])])[..|s|] == s;
    assert (keys + {k}) - {k} == keys;
  }

  /** One step of a walk over the keys of `m`: the entry of a key not yet visited is appended. */
  lemma EntryListStep(s: seq<NamespaceFailure>, m: map<string, string>, rest: set<string>, k: string)
    requires rest <= m.Keys && k in rest
    requires IsEntryList(s, m, m.Keys - rest)
    ensures IsEntryList(s + [NamespaceFailure(k, m[k])], m, m.Keys - (rest - {k}))
  {
    EntryListAppend(s, m, m.Keys - rest, k);
    assert m.Keys - (rest - {k}) == m.Keys - rest + {k};
  }

  /** The entries of a map under the keys `keys`, in some order. */
  ghost function Entries(m: map<string, string>, keys: set<string>): (r: seq<NamespaceFailure>)
    requires keys <= m.Keys
    ensures IsEntryList(r, m, keys)
    decreases keys
  {
    if keys == {} then []
    else
      var k :| k in keys;
      var rest := Entries(m, keys - {k});
      EntryListAppend(rest, m, keys - {k}, k);
      assert keys - {k} + {k} == keys;
      rest + [NamespaceFailure(k, m[k])]
  }

  /** The failure list of a map: its entries sorted by namespace. */
  ghost function FailureList(m: map<string, string>): seq<NamespaceFailure>
  {
    SortBy(Entries(m, m.Keys), NamespaceOf)
  }

  /** Sorting any entry list of a map gives a failure list of it. */
  lemma SortedEntries(s: seq<NamespaceFailure>, m: map<string, string>)
    requires IsEntryList(s, m, m.Keys)
    ensures IsFailureList(SortBy(s, NamespaceOf), m)
  {
    var r := SortBy(s, NamespaceOf);
    EntryListFacts(s, m, m.Keys);
    SortBySorted(s, NamespaceOf);
    assert multiset(r) == multiset(s);
    assert |r| == |s| by {
      assert |multiset(r)| == |multiset(s)|;
    }
    forall i | 0 <= i < |r| ensures r[i].namespace in m && m[r[i].namespace] == r[i].reason {
      assert r[i] in multiset(s);
    }
    forall ns | ns in m ensures exists i :: 0 <= i < |r| && r[i].namespace == ns {
      var k :| 0 <= k < |s| && s[k].namespace == ns;
      assert s[k] in multiset(r);
    }
  }

  lemma FailureListIsFailureList(m: map<string, string>)
    ensures IsFailureList(FailureList(m), m)
  {
    SortedEntries(Entries(m, m.Keys), m);
  }

  /** A failure map has exactly one failure list, whatever order its entries were visited in. */
  lemma FailureListUnique(a: seq<NamespaceFailure>, b: seq<NamespaceFailure>, m: map<string, string>)
    requires IsFailureList(a, m) && IsFailureList(b, m)
    ensures a == b
  {
    forall x ensures x in a <==> x in b {
      if x in a {
        var i :| 0 <= i < |a| && a[i] == x;
        var j :| 0 <= j < |b| && b[j].namespace == x.namespace;
        assert b[j] == x;
      }
      if x in b {
        var i :| 0 <= i < |b| && b[i] == x;
        var j :| 0 <= j < |a| && a[j].namespace == x.namespace;
        assert a[j] == x;
      }
    }
    SortedByIsUnique(a, b, NamespaceOf);
  }

  /** Sorting any entry list of a map gives the one failure list of the map. */
  lemma SortedEntriesAreFailureList(s: seq<NamespaceFailure>, m: map<string, string>)
    requires IsEntryList(s, m, m.Keys)
    ensures IsFailureList(SortBy(s, NamespaceOf), m)
    ensures SortBy(s, NamespaceOf) == FailureList(m)
  {
    SortedEntries(s, m);
    FailureListIsFailureList(m);
    FailureListUnique(SortBy(s, NamespaceOf), FailureList(m), m);
  }

  /**
   `toNamespaceFailures`: an array of the map's size filled entry by entry in
   the map's iteration order, then sorted by namespace. The result does not
   depend on the iteration order.
   */
  method ToNamespaceFailures(failedNamespaces: map<string, string>) returns (namespaceFailures: seq<NamespaceFailure>)
    ensures namespaceFailures == FailureList(failedNamespaces)
  {
    var a := new NamespaceFailure[|failedNamespaces|](_ => NamespaceFailure("", ""));
    var i := 0;
    var rest := failedNamespaces.Keys;
    ghost var filled: seq<NamespaceFailure> := [];
    while rest != {}
      invariant 0 <= i <= a.Length
      invariant rest <= failedNamespaces.Keys
      invariant i + |rest| == a.Length
      invariant a[..i] == filled
      invariant IsEntryList(filled, failedNamespaces, failedNamespaces.Keys - rest)
      decreases rest
    {
      var namespace :| namespace in rest;
      var message := failedNamespaces[namespace];
      EntryListStep(filled, failedNamespaces, rest, namespace);
      a[i] := NamespaceFailure(namespace, message);
      filled := filled + [NamespaceFailure(namespace, message)];
      rest := rest - {namespace};
      i := i + 1;
    }
    assert a[..] == filled && failedNamespaces.Keys - rest == failedNamespaces.Keys;
    namespaceFailures := SortBy(a[..], NamespaceOf);
    SortedEntriesAreFailureList(filled, failedNamespaces);
  }

  /** `sort.Strings` on distinct names: strictly ascending, with the same names. */
  lemma SortedNames(names: seq<string>)
    requires KeysDistinct(names, Identity)
    ensures StrictlySortedBy(SortBy(names, Identity), Identity)
    ensures forall ns :: ns in SortBy(names, Identity) <==> ns in names
  {
    var sorted := SortBy(names, Identity);
    SortBySorted(names, Identity);
    forall ns ensures ns in sorted <==> ns in names {
      assert ns in sorted <==> ns in multiset(sorted);
      assert ns in names <==> ns in multiset(names);
    }
  }

  /** The aggregate condition of a cycle, recorded by the counts it is computed from. */
  function NewCondition(failedNamespaces: map<string, string>, namespaceCount: nat): Condition
  {
    Condition(|failedNamespaces|, namespaceCount)
  }

  /**
   The status at the end of a cycle whose matching pass ended in `o`, over
   `namespaceCount` listed namespaces. Setting the condition is assumed to
   overwrite the single condition the status holds; merging with earlier
   conditions of other types is not modelled.
   */
  ghost function NextStatus(o: Matching, namespaceCount: nat): (s: Status)
    ensures |s.provisionedNamespaces| == |o.provisioned|
    ensures |s.failedNamespaces| == |o.failed|
    ensures s.condition == Some(Condition(|o.failed|, namespaceCount))
  {
    SortBySorted(o.provisioned, Identity);
    assert |multiset(SortBy(o.provisioned, Identity))| == |multiset(o.provisioned)|;
    FailureListIsFailureList(o.failed);
    Status(SortBy(o.provisioned, Identity), FailureList(o.failed), Some(NewCondition(o.failed, namespaceCount)))
  }

  /**
   The status a normal cycle writes: the provisioned namespaces are ascending,
   without repetition, exactly those that passed on the store as the cycle
   found it, none of them failed and none of them removed; the failure list
   stands for the failure map; the condition counts the failures and the
   listed namespaces.
   */
  lemma NextStatusOutcome(p: Parent, esName: string, listed: seq<Namespace>, children: map<ChildKey, Child>, faults: set<Call>)
    requires Cluster.NamesDistinct(listed)
    ensures var o := Cycle(p, esName, listed, children, faults);
      var s := NextStatus(o, |listed|);
      && StrictlySortedBy(s.provisionedNamespaces, Identity)
      && (forall ns :: ns in s.provisionedNamespaces <==>
            ns in Membership.NameSet(listed) && SyncAt(children, p, esName, ns, faults).reason == "")
      && (forall ns :: ns in s.provisionedNamespaces ==> ns !in o.failed)
      && (forall ns :: ns in RemovedOf(p, listed) ==> ns !in s.provisionedNamespaces)
      && IsFailureList(s.failedNamespaces, o.failed)
      && s.condition == Some(Condition(|o.failed|, |listed|))
  {
    var o := Cycle(p, esName, listed, children, faults);
    CycleOutcome(p, esName, listed, children, faults);
    SortedNames(o.provisioned);
    FailureListIsFailureList(o.failed);
  }
}
