/**
 Namespace events: which of them reach the controller (`namespacePredicate`)
 and which parents a namespace event wakes up (the specification of
 `findObjectsForNamespace`, which walks the parents page by page).
 */
module Events {
  import opened Types
  import opened Cluster

  /**
   A namespace event. An update carries the old and the new object, either of
   which may be missing (`None`), each with its label map.
   */
  datatype Event =
    | Create
    | Update(oldObject: Option<Labels>, newObject: Option<Labels>)
    | Delete
    | Generic

  /**
   `namespacePredicate`: creations and deletions always pass; an update passes
   when both objects are present and their label maps are not DeepEqual; a
   generic event passes because `predicate.Funcs` lets through every kind it
   has no function for.
   */
  function NamespacePredicate(e: Event): (pass: bool)
    ensures e.Create? || e.Delete? || e.Generic? ==> pass
    ensures e.Update? ==> (pass <==> e.oldObject.Some? && e.newObject.Some? && e.oldObject.value != e.newObject.value)
  {
    match e
    case Create => true
    case Update(oldObject, newObject) =>
      if oldObject.None? || newObject.None? then false
      else oldObject.value != newObject.value
    case Delete => true
    case Generic => true
  }

  /**
   DeepEqual tells a nil label map from an empty one, so an update that only
   turns one into the other passes; an update that keeps the labels, or that
   changes only what the labels read as, does not.
   */
  lemma UpdatePassesOnLabelChangeOnly(before: Labels, after: Labels)
    ensures NamespacePredicate(Update(Some(before), Some(after))) <==> before != after
    ensures NamespacePredicate(Update(Some(None), Some(Some(map[]))))
    ensures LabelSet(None) == LabelSet(Some(map[]))
  {
  }

  /** The page size of the List calls (`limit`). */
  const PageLimit: nat := 100

  /** The requests for the parents of `page` whose selector matches `labels`, in page order. */
  function MatchingRequests(page: seq<Parent>, labels: map<string, string>): (r: seq<Request>)
    ensures |r| <= |page|
    ensures forall q :: q in r ==> exists i :: 0 <= i < |page| && RequestFor(page[i]) == q
                                            && Matches(page[i].namespaceSelector, labels)
    ensures forall i :: 0 <= i < |page| && Matches(page[i].namespaceSelector, labels) ==> RequestFor(page[i]) in r
    decreases |page|
  {
    if page == [] then []
    else
      var init := page[..|page| - 1];
      var last := page[|page| - 1];
      var rest := MatchingRequests(init, labels);
      assert forall i :: 0 <= i < |init| ==> page[i] == init[i];
      if Matches(last.namespaceSelector, labels) then rest + [RequestFor(last)] else rest
  }

  /** Matching keeps the enumeration order across pages. */
  lemma {:induction false} MatchingRequestsAppend(a: seq<Parent>, b: seq<Parent>, labels: map<string, string>)
    ensures MatchingRequests(a + b, labels) == MatchingRequests(a, labels) + MatchingRequests(b, labels)
    decreases |b|
  {
    if b == [] {
      assert a + b == a;
    } else {
      var init := b[..|b| - 1];
      assert (a + b)[..|a + b| - 1] == a + init;
      assert (a + b)[|a + b| - 1] == b[|b| - 1];
      MatchingRequestsAppend(a, init, labels);
    }
  }

  /** Matching the first `i + 1` parents of a page: the first `i`, then the next one if it matches. */
  lemma MatchingRequestsPrefix(page: seq<Parent>, i: nat, labels: map<string, string>)
    requires i < |page|
    ensures MatchingRequests(page[..i + 1], labels) ==
              MatchingRequests(page[..i], labels) + if Matches(page[i].namespaceSelector, labels) then [RequestFor(page[i])] else []
  {
    assert page[..i + 1][..i] == page[..i];
  }

  /** Every selector on the page converts. */
  predicate AllValid(page: seq<Parent>)
  {
    forall i :: 0 <= i < |page| ==> ValidSelector(page[i].namespaceSelector)
  }

  lemma AllValidPrefix(page: seq<Parent>, i: nat)
    requires i < |page| && AllValid(page[..i]) && ValidSelector(page[i].namespaceSelector)
    ensures AllValid(page[..i + 1])
  {
    assert forall j :: 0 <= j < i ==> page[..i + 1][j] == page[..i][j];
  }

  /**
   The walk from the page at `token` to the last page: `None` when a List
   fails or a selector on one of the pages does not convert, otherwise the
   matching requests of those pages in enumeration order.
   */
  function FanOutFrom(parents: seq<Parent>, labels: map<string, string>, token: nat, faults: set<Call>): (r: Option<seq<Request>>)
    ensures ListParentsCall(token) in faults || token > |parents| ==> r.None?
    ensures r.Some? ==> |r.value| <= |parents| - token
    decreases |parents| - token
  {
    if ListParentsCall(token) in faults || token > |parents| then None
    else
      var page := PageOf(parents, PageLimit, token);
      if !AllValid(page.items) then None
      else if page.cont == 0 then Some(MatchingRequests(page.items, labels))
      else match FanOutFrom(parents, labels, page.cont, faults)
        case None => None
        case Some(rest) => Some(MatchingRequests(page.items, labels) + rest)
  }

  /** `findObjectsForNamespace` on a namespace with labels `labels`: any error gives the empty list. */
  function FindRequests(parents: seq<Parent>, labels: map<string, string>, faults: set<Call>): (r: seq<Request>)
    ensures |r| <= |parents|
    ensures ListParentsCall(0) in faults ==> r == []
  {
    FanOutFrom(parents, labels, 0, faults).GetOr([])
  }

  /** Without List failures and invalid selectors, the walk from `token` sees every later parent once, in order. */
  lemma {:induction false} FanOutFromComplete(parents: seq<Parent>, labels: map<string, string>, token: nat, faults: set<Call>)
    requires token <= |parents|
    requires forall t :: ListParentsCall(t) !in faults
    requires AllValid(parents)
    ensures FanOutFrom(parents, labels, token, faults) == Some(MatchingRequests(parents[token..], labels))
    decreases |parents| - token
  {
    var page := PageOf(parents, PageLimit, token);
    assert ListParentsCall(token) !in faults;
    assert AllValid(page.items) by {
      forall i | 0 <= i < |page.items| ensures ValidSelector(page.items[i].namespaceSelector) {
        assert page.items[i] == parents[token + i];
      }
    }
    if page.cont == 0 {
      assert page.items == parents[token..];
    } else {
      var rest := parents[page.cont..];
      FanOutFromComplete(parents, labels, page.cont, faults);
      assert parents[token..] == page.items + rest;
      MatchingRequestsAppend(page.items, rest, labels);
    }
  }

  /** Without failures, the mapping returns the matching parents of all pages, in enumeration order. */
  lemma FindRequestsComplete(parents: seq<Parent>, labels: map<string, string>, faults: set<Call>)
    requires forall t :: ListParentsCall(t) !in faults
    requires AllValid(parents)
    ensures FindRequests(parents, labels, faults) == MatchingRequests(parents, labels)
  {
    FanOutFromComplete(parents, labels, 0, faults);
    assert parents[0..] == parents;
  }

  /** A selector that does not convert, on the page at `token` or a later one, ends the walk with an error. */
  lemma {:induction false} FanOutFromInvalid(parents: seq<Parent>, labels: map<string, string>, token: nat, faults: set<Call>, bad: nat)
    requires token <= bad < |parents|
    requires !ValidSelector(parents[bad].namespaceSelector)
    ensures FanOutFrom(parents, labels, token, faults).None?
    decreases |parents| - token
  {
    var page := PageOf(parents, PageLimit, token);
    if ListParentsCall(token) !in faults {
      if page.cont != 0 && bad >= page.cont {
        FanOutFromInvalid(parents, labels, page.cont, faults, bad);
      } else {
        assert page.items[bad - token] == parents[bad];
      }
    }
  }

  /** One parent whose selector does not convert empties the result, whatever the others match. */
  lemma FindRequestsInvalid(parents: seq<Parent>, labels: map<string, string>, faults: set<Call>, bad: nat)
    requires bad < |parents| && !ValidSelector(parents[bad].namespaceSelector)
    ensures FindRequests(parents, labels, faults) == []
  {
    FanOutFromInvalid(parents, labels, 0, faults, bad);
  }

  /** A failing List of any page the walk reaches, the first one included, ends the walk with an error. */
  lemma {:induction false} FanOutFromListFailure(parents: seq<Parent>, labels: map<string, string>, token: nat, faults: set<Call>, t: nat)
    requires token <= t && token % PageLimit == 0 && t % PageLimit == 0
    requires t == token || t < |parents|
    requires ListParentsCall(t) in faults
    ensures FanOutFrom(parents, labels, token, faults).None?
    decreases |parents| - token
  {
    if t != token && token <= |parents| && ListParentsCall(token) !in faults {
      var page := PageOf(parents, PageLimit, token);
      if AllValid(page.items) {
        assert page.cont == token + PageLimit;
        FanOutFromListFailure(parents, labels, page.cont, faults, t);
      }
    }
  }

  /** A failing List of any page gives the empty list, even after earlier pages matched. */
  lemma FindRequestsListFailure(parents: seq<Parent>, labels: map<string, string>, faults: set<Call>, k: nat)
    requires k == 0 || k * PageLimit < |parents|
    requires ListParentsCall(k * PageLimit) in faults
    ensures FindRequests(parents, labels, faults) == []
  {
    FanOutFromListFailure(parents, labels, 0, faults, k * PageLimit);
  }
}
