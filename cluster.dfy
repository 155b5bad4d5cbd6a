/**
 The API server as the controller sees it through the controller-runtime
 client: namespaces, ClusterExternalSecrets and child ExternalSecrets, with
 the Get, List, Delete, CreateOrUpdate and status Patch calls the controller
 makes. Each call takes a `fail` flag: a failing call returns an error other
 than NotFound and changes nothing.
 */
module Cluster {
  import opened Types

  /** The child stored under a key, if any. */
  function Lookup(c: map<ChildKey, Child>, k: ChildKey): Option<Child>
  {
    if k in c then Some(c[k]) else None
  }

  /** The store after the entry under `k` became `after` (`None`: deleted). */
  function Apply(c: map<ChildKey, Child>, k: ChildKey, after: Option<Child>): (r: map<ChildKey, Child>)
    ensures forall k' :: Lookup(r, k') == if k' == k then after else Lookup(c, k')
  {
    match after
    case None => c - {k}
    case Some(v) => c[k := v]
  }

  /** Writing back what is stored changes nothing. */
  lemma ApplyLookup(c: map<ChildKey, Child>, k: ChildKey)
    ensures Apply(c, k, Lookup(c, k)) == c
  {
    if k in c {
      assert c[k := c[k]] == c;
    }
  }

  /** Two stores that hold the same entry under every key are equal. */
  lemma LookupExtensional(a: map<ChildKey, Child>, b: map<ChildKey, Child>)
    requires forall k :: Lookup(a, k) == Lookup(b, k)
    ensures a == b
  {
    assert forall k :: k in a <==> Lookup(a, k).Some?;
    assert forall k :: k in b <==> Lookup(b, k).Some?;
    assert a.Keys == b.Keys;
    forall k | k in a ensures a[k] == b[k] {
      assert Lookup(a, k) == Lookup(b, k);
    }
  }

  datatype MetaResult = MetaResult(meta: ObjectMeta, err: ApiError)

  /** A metadata-only Get of the entry `cur`: on any error the metadata is empty. */
  function MetaGet(cur: Option<Child>, fail: bool): (r: MetaResult)
    ensures r.err == Ok <==> !fail && cur.Some?
    ensures r.err == NotFound <==> !fail && cur.None?
    ensures r.err == Ok ==> r.meta == cur.value.meta
    ensures r.err != Ok ==> r.meta == EmptyMeta
  {
    if fail then MetaResult(EmptyMeta, Failed)
    else match cur
      case None => MetaResult(EmptyMeta, NotFound)
      case Some(c) => MetaResult(c.meta, Ok)
  }

  datatype Write = Write(ok: bool, after: Option<Child>)

  /**
   `controllerutil.CreateOrUpdate` with a mutate function that sets the spec.
   It re-reads the object: when absent, `obj` is created with the spec; when
   present, only the stored object's spec is replaced, and no Update is sent if
   that changes nothing. Any failing call leaves the entry as it was.
   */
  function CreateOrUpdate(cur: Option<Child>, obj: Child, spec: Spec, readFail: bool, writeFail: bool): (w: Write)
    ensures !w.ok ==> w.after == cur
    ensures w.ok ==> w.after.Some? && w.after.value.spec == spec
    ensures w.ok && cur.None? ==> w.after == Some(obj.(spec := spec))
    ensures w.ok && cur.Some? ==> w.after.value.meta == cur.value.meta
    ensures w.ok <==> !readFail && (!writeFail || (cur.Some? && cur.value.spec == spec))
  {
    if readFail then Write(false, cur)
    else match cur
      case None =>
        if writeFail then Write(false, cur) else Write(true, Some(obj.(spec := spec)))
      case Some(existing) =>
        var updated := existing.(spec := spec);
        if updated == existing then Write(true, cur)
        else if writeFail then Write(false, cur)
        else Write(true, Some(updated))
  }

  predicate NamesDistinct(items: seq<Namespace>)
  {
    forall i, j :: 0 <= i < j < |items| ==> items[i].name != items[j].name
  }

  /** The namespaces a label-selected List returns, in store order. */
  function Selected(items: seq<Namespace>, sel: LabelSelector): (r: seq<Namespace>)
    ensures forall n :: n in r <==> n in items && Matches(sel, LabelSet(n.labels))
    decreases |items|
  {
    if items == [] then []
    else
      var rest := Selected(items[1..], sel);
      assert items == [items[0]] + items[1..];
      if Matches(sel, LabelSet(items[0].labels)) then [items[0]] + rest else rest
  }

  /** Selecting keeps namespace names distinct. */
  lemma {:induction false} SelectedDistinct(items: seq<Namespace>, sel: LabelSelector)
    requires NamesDistinct(items)
    ensures NamesDistinct(Selected(items, sel))
    decreases |items|
  {
    if items != [] {
      var rest := Selected(items[1..], sel);
      SelectedDistinct(items[1..], sel);
      forall n | n in rest ensures n.name != items[0].name {
        var i :| 0 <= i < |items[1..]| && items[1..][i] == n;
        assert items[i + 1] == n;
      }
    }
  }

  /** One page of a List of parents; `cont` is the continuation token, an offset, 0 standing for Go's empty string. */
  datatype Page = Page(items: seq<Parent>, cont: nat)

  /** The page a List with `Limit: limit` and a continuation token returns; a zero limit means no limit. */
  function PageOf(parents: seq<Parent>, limit: nat, token: nat): (p: Page)
    requires token <= |parents|
    ensures p.cont == 0 || token < p.cont <= |parents|
    ensures p.items == parents[token..if p.cont == 0 then |parents| else p.cont]
    ensures p.cont == 0 <==> token + |p.items| == |parents|
    ensures limit > 0 ==> |p.items| <= limit
  {
    var end := if limit == 0 || |parents| - token <= limit then |parents| else token + limit;
    Page(parents[token..end], if end == |parents| then 0 else end)
  }

  /** The index of the parent with the requested key, if there is one. */
  function ParentIndex(parents: seq<Parent>, req: Request): (r: Option<nat>)
    ensures r.Some? ==> r.value < |parents| && RequestFor(parents[r.value]) == req
    ensures r.None? ==> forall i :: 0 <= i < |parents| ==> RequestFor(parents[i]) != req
    decreases |parents|
  {
    if parents == [] then None
    else if RequestFor(parents[0]) == req then Some(0)
    else match ParentIndex(parents[1..], req)
      case None => None
      case Some(i) => Some(i + 1)
  }

  /** Replacing a parent by one with the same key leaves every lookup where it was. */
  lemma {:induction false} ParentIndexKeepsKey(parents: seq<Parent>, i: nat, q: Parent, req: Request)
    requires i < |parents| && RequestFor(q) == RequestFor(parents[i])
    ensures ParentIndex(parents[i := q], req) == ParentIndex(parents, req)
    decreases |parents|
  {
    if i == 0 {
      assert parents[i := q][1..] == parents[1..];
    } else {
      ParentIndexKeepsKey(parents[1..], i - 1, q, req);
      assert parents[i := q][1..] == parents[1..][i - 1 := q];
    }
  }

  class Store {
    var namespaces: seq<Namespace>
    var parents: seq<Parent>
    var children: map<ChildKey, Child>

    constructor (namespaces: seq<Namespace>, parents: seq<Parent>, children: map<ChildKey, Child>)
      ensures this.namespaces == namespaces && this.parents == parents && this.children == children
    {
      this.namespaces := namespaces;
      this.parents := parents;
      this.children := children;
    }

    /** `Get` of a parent by key. */
    method GetParent(req: Request, fail: bool) returns (err: ApiError, p: Option<Parent>)
      ensures err == Failed <==> fail
      ensures err == NotFound <==> !fail && ParentIndex(parents, req).None?
      ensures err == Ok ==> p == Some(parents[ParentIndex(parents, req).value])
    {
      var i := ParentIndex(parents, req);
      if fail {
        err, p := Failed, None;
      } else if i.None? {
        err, p := NotFound, None;
      } else {
        err, p := Ok, Some(parents[i.value]);
      }
    }

    /** `List` of the namespaces a selector matches. */
    method ListNamespaces(sel: LabelSelector, fail: bool) returns (err: ApiError, items: seq<Namespace>)
      ensures err == (if fail then Failed else Ok)
      ensures !fail ==> items == Selected(namespaces, sel)
    {
      if fail {
        err, items := Failed, [];
      } else {
        err, items := Ok, Selected(namespaces, sel);
      }
    }

    /** Metadata-only `Get` of a child. */
    method GetChildMetadata(key: ChildKey, fail: bool) returns (meta: ObjectMeta, err: ApiError)
      ensures MetaResult(meta, err) == MetaGet(Lookup(children, key), fail)
    {
      var r := MetaGet(Lookup(children, key), fail);
      meta, err := r.meta, r.err;
    }

    /** `Delete` of a child; deleting an absent child is NotFound. */
    method DeleteChild(key: ChildKey, fail: bool) returns (err: ApiError)
      modifies this
      ensures err == (if fail then Failed else if key in old(children) then Ok else NotFound)
      ensures children == (if err == Ok then old(children) - {key} else old(children))
      ensures namespaces == old(namespaces) && parents == old(parents)
    {
      if fail {
        err := Failed;
      } else if key in children {
        err := Ok;
        children := children - {key};
      } else {
        err := NotFound;
      }
    }

    /** `ctrl.CreateOrUpdate` of a child whose mutate function sets `spec`. */
    method CreateOrUpdateChild(key: ChildKey, obj: Child, spec: Spec, readFail: bool, writeFail: bool) returns (ok: bool)
      modifies this
      ensures var w := CreateOrUpdate(old(Lookup(children, key)), obj, spec, readFail, writeFail);
        ok == w.ok && children == Apply(old(children), key, w.after)
      ensures namespaces == old(namespaces) && parents == old(parents)
    {
      var w := CreateOrUpdate(Lookup(children, key), obj, spec, readFail, writeFail);
      ok := w.ok;
      children := Apply(children, key, w.after);
    }

    /** The status `Patch` of a parent: the status fields as assigned replace the stored ones. */
    method PatchStatus(req: Request, status: Status, fail: bool) returns (err: ApiError)
      modifies this
      ensures var i := ParentIndex(old(parents), req);
        err == (if fail then Failed else if i.None? then NotFound else Ok)
        && parents == (if err == Ok then old(parents)[i.value := old(parents)[i.value].(status := status)] else old(parents))
      ensures namespaces == old(namespaces) && children == old(children)
    {
      var i := ParentIndex(parents, req);
      if fail {
        err := Failed;
      } else if i.None? {
        err := NotFound;
      } else {
        err := Ok;
        parents := parents[i.value := parents[i.value].(status := status)];
      }
    }

    /** A paginated `List` of parents; a token past the end is refused. */
    method ListParents(limit: nat, token: nat, fail: bool) returns (err: ApiError, page: Page)
      ensures err == (if fail || token > |parents| then Failed else Ok)
      ensures err == Ok ==> page == PageOf(parents, limit, token)
    {
      if fail || token > |parents| {
        err, page := Failed, Page([], 0);
      } else {
        err, page := Ok, PageOf(parents, limit, token);
      }
    }
  }
}
