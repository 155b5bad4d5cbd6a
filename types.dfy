/**
 The Kubernetes objects the ClusterExternalSecret controller reads and
 writes, the outcomes of API calls, the label selector it evaluates and the
 controller owner-reference rule it relies on.
 */
module Types {

  datatype Option<+T> = None | Some(value: T)
  {
    function GetOr(default: T): T
    {
      match this
      case Some(v) => v
      case None => default
    }
  }

  /** A label or annotation map; `None` is Go's nil map, which is not DeepEqual to an empty map. */
  type Labels = Option<map<string, string>>

  /** `labels.Set(m)`: a nil map reads as the empty set of labels. */
  function LabelSet(l: Labels): map<string, string>
  {
    l.GetOr(map[])
  }

  /** The outcome of one API call: success, NotFound, or any other error. */
  datatype ApiError = Ok | NotFound | Failed

  /** The kind of the parent object, as it appears in owner references. */
  const ParentKind: string := "ClusterExternalSecret"

  /** An owner reference; two references name the same object when kind and name agree. */
  datatype OwnerRef = OwnerRef(kind: string, name: string, controller: bool)

  datatype ObjectMeta = ObjectMeta(ownerReferences: seq<OwnerRef>, labels: Labels, annotations: Labels)

  /** The metadata of an object the API did not return. */
  const EmptyMeta: ObjectMeta := ObjectMeta([], None, None)

  /** The ExternalSecret spec; the controller only copies it, so it stays opaque. */
  type Spec = string

  /** A child ExternalSecret as stored by the API server. */
  datatype Child = Child(meta: ObjectMeta, spec: Spec)

  datatype ChildKey = ChildKey(namespace: string, name: string)

  datatype Namespace = Namespace(name: string, labels: Labels)

  datatype Operator = In | NotIn | Exists | DoesNotExist | UnknownOperator(name: string)

  datatype Requirement = Requirement(key: string, operator: Operator, values: seq<string>)

  /** A `metav1.LabelSelector`: match labels and match expressions, all of which must hold. */
  datatype LabelSelector = LabelSelector(matchLabels: map<string, string>, matchExpressions: seq<Requirement>)

  /** `ExternalSecretMetadata`: labels and annotations applied to every child. */
  datatype ChildMetadata = ChildMetadata(labels: Labels, annotations: Labels)

  datatype NamespaceFailure = NamespaceFailure(namespace: string, reason: string)

  /** The aggregate condition, recorded by the two counts it is computed from. */
  datatype Condition = Condition(failedCount: nat, namespaceCount: nat)

  datatype Status = Status(
    provisionedNamespaces: seq<string>,
    failedNamespaces: seq<NamespaceFailure>,
    condition: Option<Condition>)

  /** A ClusterExternalSecret: cluster scoped, so `namespace` is empty in practice. */
  datatype Parent = Parent(
    namespace: string,
    name: string,
    namespaceSelector: LabelSelector,
    externalSecretName: string,
    externalSecretSpec: Spec,
    externalSecretMetadata: ChildMetadata,
    refreshInterval: Option<int>,
    status: Status)

  /** A reconcile request: the key of one parent. */
  datatype Request = Request(namespace: string, name: string)

  /** `ctrl.Result`; a zero `requeueAfter` means no scheduled requeue. */
  datatype CtrlResult = CtrlResult(requeueAfter: int)

  /** The error `Reconcile` returns. */
  datatype ReconcileError = Nil | InvalidSelector | ListNamespacesFailed

  /**
   An API call of one cycle. A call listed in a cycle's fault set fails with an
   error other than NotFound; every other call succeeds.
   */
  datatype Call =
    | GetParentCall
    | ListNamespacesCall
    | GetChildCall(namespace: string)
    | ReadChildCall(namespace: string)
    | WriteChildCall(namespace: string)
    | DeleteChildCall(namespace: string)
    | PatchStatusCall
    | ListParentsCall(token: nat)

  // Per-namespace failure reasons (clusterexternalsecret_controller.go:59-64).
  const ErrGetExistingES: string := "could not get existing ExternalSecret"
  const ErrCreatingOrUpdating: string := "could not create or update ExternalSecret"
  const ErrSetCtrlReference: string := "could not set the controller owner reference"
  const ErrSecretAlreadyExists: string := "external secret already exists in namespace"
  const ErrFailedToDelete: string := "external secret in non matching namespace could not be deleted"

  function NamespaceOf(f: NamespaceFailure): string
  {
    f.namespace
  }

  function RequestFor(p: Parent): Request
  {
    Request(p.namespace, p.name)
  }

  /** The owner reference `SetControllerReference` writes for a parent. */
  function ControllerRefOf(p: Parent): OwnerRef
  {
    OwnerRef(ParentKind, p.name, true)
  }

  // ----- label selectors -----

  /** `LabelSelectorAsSelector` succeeds: every expression has a known operator and the values it needs. */
  predicate ValidSelector(sel: LabelSelector)
  {
    forall i :: 0 <= i < |sel.matchExpressions| ==> ValidRequirement(sel.matchExpressions[i])
  }

  predicate ValidRequirement(r: Requirement)
  {
    match r.operator
    case In => |r.values| > 0
    case NotIn => |r.values| > 0
    case Exists => |r.values| == 0
    case DoesNotExist => |r.values| == 0
    case UnknownOperator(_) => false
  }

  predicate RequirementMatches(r: Requirement, labels: map<string, string>)
  {
    match r.operator
    case In => r.key in labels && labels[r.key] in r.values
    case NotIn => r.key !in labels || labels[r.key] !in r.values
    case Exists => r.key in labels
    case DoesNotExist => r.key !in labels
    case UnknownOperator(_) => false
  }

  /** `selector.Matches(labels.Set(labels))`; the empty selector matches every label set. */
  predicate Matches(sel: LabelSelector, labels: map<string, string>)
  {
    && (forall k :: k in sel.matchLabels ==> k in labels && labels[k] == sel.matchLabels[k])
    && (forall i :: 0 <= i < |sel.matchExpressions| ==> RequirementMatches(sel.matchExpressions[i], labels))
  }

  // ----- controller owner references (controllerutil.SetControllerReference) -----

  /** `metav1.GetControllerOf`: the first owner reference marked as controller. */
  function ControllerOf(owners: seq<OwnerRef>): (c: Option<OwnerRef>)
    ensures c.Some? ==> c.value in owners && c.value.controller
    ensures c.None? ==> forall i :: 0 <= i < |owners| ==> !owners[i].controller
    decreases |owners|
  {
    if owners == [] then None
    else if owners[0].controller then Some(owners[0])
    else ControllerOf(owners[1..])
  }

  predicate SameObject(a: OwnerRef, b: OwnerRef)
  {
    a.kind == b.kind && a.name == b.name
  }

  /** Replaces the first reference to the same object, or appends. */
  function UpsertOwnerRef(ref: OwnerRef, owners: seq<OwnerRef>): (r: seq<OwnerRef>)
    decreases |owners|
  {
    if owners == [] then [ref]
    else if SameObject(owners[0], ref) then [ref] + owners[1..]
    else [owners[0]] + UpsertOwnerRef(ref, owners[1..])
  }

  /**
   `SetControllerReference(owner, object)`: fails exactly when the object already
   has a controller that is a different object; otherwise the owner becomes the
   object's controller.
   */
  function SetControllerReference(ref: OwnerRef, owners: seq<OwnerRef>): (r: Option<seq<OwnerRef>>)
    requires ref.controller
    ensures r.None? <==> ControllerOf(owners).Some? && !SameObject(ControllerOf(owners).value, ref)
    ensures r.Some? ==> ControllerOf(r.value) == Some(ref) && ref in r.value
  {
    match ControllerOf(owners)
    case Some(existing) =>
      if !SameObject(existing, ref) then None
      else UpsertMakesController(ref, owners); Some(UpsertOwnerRef(ref, owners))
    case None =>
      UpsertMakesController(ref, owners); Some(UpsertOwnerRef(ref, owners))
  }

  lemma {:induction false} UpsertMakesController(ref: OwnerRef, owners: seq<OwnerRef>)
    requires ref.controller
    requires ControllerOf(owners).None? || SameObject(ControllerOf(owners).value, ref)
    ensures ControllerOf(UpsertOwnerRef(ref, owners)) == Some(ref)
    ensures ref in UpsertOwnerRef(ref, owners)
    decreases |owners|
  {
    if owners != [] && !SameObject(owners[0], ref) {
      UpsertMakesController(ref, owners[1..]);
      var r := UpsertOwnerRef(ref, owners);
      assert r[1..] == UpsertOwnerRef(ref, owners[1..]);
    }
  }
}
