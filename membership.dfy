/**
 The membership differ: which namespaces the parent provisioned before and
 no longer selects (`getRemovedNamespaces`).
 */
module Membership {
  import opened Types

  /** The names of the listed namespaces. */
  function NameSet(items: seq<Namespace>): (r: set<string>)
    ensures forall x :: x in r <==> exists i :: 0 <= i < |items| && items[i].name == x
    decreases |items|
  {
    if items == [] then {}
    else NameSet(items[..|items| - 1]) + {items[|items| - 1].name}
  }

  /**
   The provisioned entries whose name is not among `listed`, in their original
   order and with their repetitions.
   */
  function Removed(listed: set<string>, provisioned: seq<string>): (r: seq<string>)
    ensures forall x :: x in r <==> x in provisioned && x !in listed
    ensures |r| <= |provisioned|
    decreases |provisioned|
  {
    if provisioned == [] then []
    else
      var init := provisioned[..|provisioned| - 1];
      var last := provisioned[|provisioned| - 1];
      assert provisioned == init + [last];
      var rest := Removed(listed, init);
      if last in listed then rest else rest + [last]
  }

  /** Order is kept: the differ works entry by entry, left to right. */
  lemma {:induction false} RemovedAppend(listed: set<string>, a: seq<string>, b: seq<string>)
    ensures Removed(listed, a + b) == Removed(listed, a) + Removed(listed, b)
    decreases |b|
  {
    if b != [] {
      var init := b[..|b| - 1];
      assert (a + b)[..|a + b| - 1] == a + init;
      assert (a + b)[|a + b| - 1] == b[|b| - 1];
      RemovedAppend(listed, a, init);
    } else {
      assert a + b == a;
    }
  }

  /** Repetitions are kept: an unlisted name occurs as often as it was provisioned. */
  lemma {:induction false} RemovedCount(listed: set<string>, provisioned: seq<string>, x: string)
    ensures multiset(Removed(listed, provisioned))[x] == if x in listed then 0 else multiset(provisioned)[x]
    decreases |provisioned|
  {
    if provisioned != [] {
      var init := provisioned[..|provisioned| - 1];
      assert provisioned == init + [provisioned[|provisioned| - 1]];
      RemovedCount(listed, init, x);
    }
  }

  /** Nothing is removed exactly when every provisioned namespace is still listed. */
  lemma RemovedEmpty(listed: set<string>, provisioned: seq<string>)
    ensures Removed(listed, provisioned) == [] <==> forall x :: x in provisioned ==> x in listed
  {
    var r := Removed(listed, provisioned);
    if r != [] {
      assert r[0] in r;
    }
  }

  /**
   `getRemovedNamespaces`: a set of the listed names, then one pass over the
   provisioned list appending every entry not in that set.
   */
  method GetRemovedNamespaces(nsList: seq<Namespace>, provisionedNs: seq<string>) returns (removed: seq<string>)
    ensures removed == Removed(NameSet(nsList), provisionedNs)
  {
    var nsSet: set<string> := {};
    var i := 0;
    while i < |nsList|
      invariant 0 <= i <= |nsList|
      invariant nsSet == NameSet(nsList[..i])
    {
      assert nsList[..i + 1][..i] == nsList[..i];
      nsSet := nsSet + {nsList[i].name};
      i := i + 1;
    }
    assert nsList[..i] == nsList;

    removed := [];
    var j := 0;
    while j < |provisionedNs|
      invariant 0 <= j <= |provisionedNs|
      invariant removed == Removed(nsSet, provisionedNs[..j])
    {
      assert provisionedNs[..j + 1][..j] == provisionedNs[..j];
      if provisionedNs[j] !in nsSet {
        removed := removed + [provisionedNs[j]];
      }
      j := j + 1;
    }
    assert provisionedNs[..j] == provisionedNs;
  }
}
