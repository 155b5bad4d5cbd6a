# ClusterExternalSecret controller, modelled in Dafny

A ClusterExternalSecret is a cluster-scoped parent object. It carries a
namespace label selector and an ExternalSecret template. Its controller keeps
one child ExternalSecret in every namespace the selector matches. It deletes
the child from namespaces that stopped matching, and it writes back which
namespaces were provisioned and which failed, with a reason for each. A watch
on namespaces wakes up the parents whose selector matches a changed namespace.

This project models that controller
(`pkg/controllers/clusterexternalsecret/clusterexternalsecret_controller.go`)
and proves what each step promises.

- `types.dfy` (module `Types`) holds the API objects and the outcome of an API
  call. It also holds the label selector (validity and matching), the
  per-namespace failure reasons and the controller owner-reference rule.
- `cluster.dfy` (module `Cluster`) is the API server as the controller sees
  it: class `Store` with the namespaces, the parents and a map of children
  keyed by (namespace, name). Its methods are the Get, List, Delete,
  CreateOrUpdate and status Patch calls. Each call takes a failure flag: a
  failing call returns an error other than NotFound and changes nothing.
- `membership.dfy` (module `Membership`) is `getRemovedNamespaces`, with the
  set difference it computes.
- `children.dfy` (module `Children`) states one reconcile cycle on values.
  It covers `checkForError`, the removal and the create-or-update of the
  child in one namespace, and the two passes of a cycle. Each per-namespace
  step reads and writes only the store entry under its own key.
- `status.dfy` (module `StatusReport`) is `toNamespaceFailures`, the sorted
  provisioned list and the status a cycle writes.
- `order.dfy` (module `Order`) is Go's string order and an insertion sort that
  stands for `sort.Strings` and `sort.Slice`. Sorting is proved to give the one
  sorted arrangement of its input, so the result does not depend on map
  iteration order.
- `events.dfy` (module `Events`) is `namespacePredicate` and the
  specification of the page-by-page walk of `findObjectsForNamespace`.
- `reconciler.dfy` (module `Controller`) holds class `Reconciler`. Its methods
  `Reconcile`, `RemoveOldNamespaces`, `RemoveExternalSecret`,
  `ResolveExternalSecret` and `FindObjectsForNamespace` mirror the Go methods
  loop for loop. Each is proved equal to the value model. The inner loop of
  `findObjectsForNamespace` over one page is the separate method `MatchPage`.
  The module also proves that a second cycle settles.

The calls that fail in a cycle are a parameter, `faults: set<Call>`. A call
is named by its kind and, for calls on a child, its namespace, and for a
parent List, its continuation token. A call named in
the set fails and every other call succeeds. This covers every combination of
failures in which repeated calls with the same name have the same outcome
within one cycle.

Some of what the code does differs from what its comments and names
suggest. The model follows the code:

- The removal pass deletes any child that has at least one owner reference,
  whoever the owner is. It does not check that this parent is the owner.
- A failed delete is reported with the code's reason, "external secret in non
  matching namespace could not be deleted".
- The comment at line 144 says that a failed `SetControllerReference` means
  the child "does not belong to us". It fails only when another object is the
  child's controller, so an update also goes through on a child that has owner
  references but no controller.
- The comment at line 168 calls the mutate function empty, but it sets the
  spec (lines 163-166). `CreateOrUpdate` re-reads the stored child, so the
  labels, annotations and controller reference built for the child take
  effect only when it is created. An update replaces only the spec.
- A removed namespace whose deletion failed is reported in that cycle. It is
  not in the new provisioned list, so the next cycle does not try the
  deletion again (`Controller.SecondCycleSettles`). A cycle run twice writes
  the same status only when no removal failed
  (`Controller.SecondCycleSameStatus`).

## Model

| member | source | states |
|---|---|---|
| `Types.SetControllerReference` | pkg/controllers/clusterexternalsecret/clusterexternalsecret_controller.go:145-147 | Setting the parent as controller fails exactly when the object already has a controller that is a different object. Otherwise the parent becomes the object's controller and appears among its owners. |
| `Cluster.MetaGet` | pkg/controllers/clusterexternalsecret/clusterexternalsecret_controller.go:218-228 | A metadata-only Get is Ok exactly when the call does not fail and the child exists. It is NotFound exactly when the call does not fail and the child is absent. It yields the stored metadata on Ok and empty metadata otherwise. |
| `Cluster.CreateOrUpdate` | pkg/controllers/clusterexternalsecret/clusterexternalsecret_controller.go:163-171 | CreateOrUpdate succeeds exactly when the re-read succeeds and either the write succeeds or the stored spec already equals the template. On success the child holds the template spec. A new child is the built object; an existing child keeps its metadata. On failure the entry is unchanged. |
| `Cluster.Selected` | pkg/controllers/clusterexternalsecret/clusterexternalsecret_controller.go:100-101 | A label-selected namespace List returns exactly the stored namespaces whose labels match the selector, with a nil label map read as empty. |
| `Cluster.PageOf` | pkg/controllers/clusterexternalsecret/clusterexternalsecret_controller.go:295-330 | A page holds at most `limit` parents, taken in enumeration order from the token. Its continuation is empty exactly when the page reaches the end of the list, and otherwise points strictly further. |
| `Cluster.ParentIndex` | pkg/controllers/clusterexternalsecret/clusterexternalsecret_controller.go:78-84 | The parent lookup by key finds a parent with the requested namespace and name, or reports that none has them. |
| `Cluster.ParentIndexKeepsKey` | pkg/controllers/clusterexternalsecret/clusterexternalsecret_controller.go:78 | Writing back a parent under the same key, as the status patch does, does not change which parent a Get by key finds. |
| `Cluster.Store.GetParent` | pkg/controllers/clusterexternalsecret/clusterexternalsecret_controller.go:78-84 | Get of the parent fails when the call fails. It is NotFound when no parent has the key. Otherwise it returns that parent. |
| `Cluster.Store.ListNamespaces` | pkg/controllers/clusterexternalsecret/clusterexternalsecret_controller.go:100-105 | The namespace List returns the selected namespaces, or fails. |
| `Cluster.Store.GetChildMetadata` | pkg/controllers/clusterexternalsecret/clusterexternalsecret_controller.go:218-228 | The metadata Get of a child returns what `MetaGet` says of its store entry. |
| `Cluster.Store.DeleteChild` | pkg/controllers/clusterexternalsecret/clusterexternalsecret_controller.go:187-191 | Delete removes the child and is Ok when it exists and the call does not fail. It is NotFound when the child is absent and Failed when the call fails; then nothing changes. Namespaces and parents never change. |
| `Cluster.Store.CreateOrUpdateChild` | pkg/controllers/clusterexternalsecret/clusterexternalsecret_controller.go:169-171 | CreateOrUpdate changes only the entry under its key, as `CreateOrUpdate` says. |
| `Cluster.Store.PatchStatus` | pkg/controllers/clusterexternalsecret/clusterexternalsecret_controller.go:196-200 | The status patch replaces the status of the requested parent only, unless it fails or the parent is gone. |
| `Cluster.Store.ListParents` | pkg/controllers/clusterexternalsecret/clusterexternalsecret_controller.go:297-302 | A parent List returns the page at the token, or fails. |
| `Membership.Removed` | pkg/controllers/clusterexternalsecret/clusterexternalsecret_controller.go:243-258 | A name is in the removed list exactly when it was provisioned and is not listed now. The removed list is never longer than the provisioned list. |
| `Membership.RemovedAppend` | pkg/controllers/clusterexternalsecret/clusterexternalsecret_controller.go:251-255 | The differ keeps the order of the provisioned list: removing from a concatenation is concatenating the removals. |
| `Membership.RemovedCount` | pkg/controllers/clusterexternalsecret/clusterexternalsecret_controller.go:251-255 | Duplicates are kept: a name no longer listed occurs in the result as often as it was provisioned, and a listed name never occurs. |
| `Membership.RemovedEmpty` | pkg/controllers/clusterexternalsecret/clusterexternalsecret_controller.go:243-258 | Nothing is removed exactly when every provisioned namespace is still listed. |
| `Membership.GetRemovedNamespaces` | pkg/controllers/clusterexternalsecret/clusterexternalsecret_controller.go:243-258 | The two loops (a name set, then one pass over the provisioned list) return exactly `Removed` of the listed names. |
| `Children.CheckForError` | pkg/controllers/clusterexternalsecret/clusterexternalsecret_controller.go:230-241 | The reason is the get-existing error exactly when the fetch failed with something other than NotFound. It is the already-exists error exactly when a child was found with no owner reference. It is empty exactly on NotFound or on a found child with an owner reference. |
| `Children.RemoveEffect` | pkg/controllers/clusterexternalsecret/clusterexternalsecret_controller.go:176-194 | A failed fetch is reported and changes nothing. A missing child is a silent success. An unowned child is reported and left in place. An owned child is deleted, or reported with the delete-failed reason when the delete fails. A failure never changes the entry and a success always leaves it empty. |
| `Children.RemoveEffectIdempotent` | pkg/controllers/clusterexternalsecret/clusterexternalsecret_controller.go:176-194 | Removing again what a removal left behind reports the same and changes nothing more. |
| `Children.ResolveEffect` | pkg/controllers/clusterexternalsecret/clusterexternalsecret_controller.go:143-174 | The reason is the set-controller error exactly when another controller owns the fetched child. It is the create-or-update error exactly when the parent may control the child and either the re-read fails or the write fails while the stored spec differs from the template. Otherwise it is empty. Any failure leaves the entry untouched. On success the child holds the template spec. A new child carries the parent's labels, annotations and controller reference. An existing child keeps its metadata and gets only the new spec. |
| `Children.SyncEffect` | pkg/controllers/clusterexternalsecret/clusterexternalsecret_controller.go:115-131 | One matched namespace succeeds exactly when the fetch does not fail, the child is absent or has an owner and no other controller, the re-read does not fail, and either the write does not fail or the stored spec already equals the template. A failed fetch is reported. An unowned child and a child controlled by another parent are reported and never touched. A success leaves the template spec in place, creating the child from the template when it was absent. A failing re-read, or a failing write that was needed, is reported with the create-or-update reason, exactly when the fetch succeeded and the parent may control the child. |
| `Children.SyncEffectIdempotent` | pkg/controllers/clusterexternalsecret/clusterexternalsecret_controller.go:115-131 | After a successful step, the same step on its result succeeds again with the same result. |
| `Children.SyncEffectStable` | pkg/controllers/clusterexternalsecret/clusterexternalsecret_controller.go:115-131 | Repeating a step on the entry it left gives the same reason and the same entry, for successes and failures alike. |
| `Children.RemoveAllEntry` | pkg/controllers/clusterexternalsecret/clusterexternalsecret_controller.go:202-216 | After the removal pass, a namespace's entry is what its removal leaves when it is in the removed list (once or several times), and untouched otherwise. |
| `Children.RemoveAllChildren` | pkg/controllers/clusterexternalsecret/clusterexternalsecret_controller.go:202-216 | The removal pass changes only children named for this parent in removed namespaces, each as its removal says. |
| `Children.RemoveAllFailed` | pkg/controllers/clusterexternalsecret/clusterexternalsecret_controller.go:202-216 | Every removed namespace is attempted whatever happened before it. Exactly the failing ones are in the returned map, each with its reason. |
| `Children.RemoveAllOutcome` | pkg/controllers/clusterexternalsecret/clusterexternalsecret_controller.go:202-216 | The removal pass as a whole: the failure map and the store it leaves. |
| `Children.RemoveAll` | pkg/controllers/clusterexternalsecret/clusterexternalsecret_controller.go:202-216 | The removal pass as a left fold over the removed list: each namespace's removal runs on the store the previous ones left, and a non-empty reason is recorded under its namespace. Its meaning is stated by `RemoveAllEntry`, `RemoveAllChildren` and `RemoveAllFailed`; it carries no contract of its own. |
| `Children.Passing` | pkg/controllers/clusterexternalsecret/clusterexternalsecret_controller.go:115-131 | The names that pass are exactly the listed namespaces whose step succeeds on the given store. |
| `Children.PassingDistinct` | pkg/controllers/clusterexternalsecret/clusterexternalsecret_controller.go:115-131 | Over namespaces with distinct names, the passing names are distinct. |
| `Children.PassingLocal` | pkg/controllers/clusterexternalsecret/clusterexternalsecret_controller.go:115-131 | Which namespaces pass depends only on each listed namespace's step outcome. |
| `Children.MatchAllUntouched` | pkg/controllers/clusterexternalsecret/clusterexternalsecret_controller.go:115-131 | The matching pass leaves the entry of an unlisted namespace as it was. |
| `Children.MatchAllChildren` | pkg/controllers/clusterexternalsecret/clusterexternalsecret_controller.go:115-131 | Over distinct namespaces, the matching pass changes only the children of listed namespaces, each as its step says on the store as found. |
| `Children.MatchAllProvisioned` | pkg/controllers/clusterexternalsecret/clusterexternalsecret_controller.go:115-131 | Over distinct namespaces, the successes are appended in list order. |
| `Children.MatchAllFailed` | pkg/controllers/clusterexternalsecret/clusterexternalsecret_controller.go:115-131 | Over distinct namespaces, each failure is added under its namespace with its reason. The failures of the removal pass are kept. |
| `Children.MatchAllOutcome` | pkg/controllers/clusterexternalsecret/clusterexternalsecret_controller.go:115-131 | The matching pass as a whole: provisioned list, failure map and store. |
| `Children.MatchAll` | pkg/controllers/clusterexternalsecret/clusterexternalsecret_controller.go:115-131 | The loop over the listed namespaces as a left fold: a failing step records its reason, a succeeding step appends the namespace and writes its entry. Its meaning is stated by `MatchAllProvisioned`, `MatchAllFailed` and `MatchAllChildren`; it carries no contract of its own. |
| `Children.RemovalSparesListed` | pkg/controllers/clusterexternalsecret/clusterexternalsecret_controller.go:112-113 | The removal pass does not change the outcome of any listed namespace. |
| `Children.CycleProvisioned` | pkg/controllers/clusterexternalsecret/clusterexternalsecret_controller.go:112-131 | The provisioned list of a cycle is exactly the listed namespaces that pass on the store as found, in list order, without repetition. |
| `Children.CycleFailed` | pkg/controllers/clusterexternalsecret/clusterexternalsecret_controller.go:112-131 | The failure map of a cycle holds the removed namespaces whose removal failed and the listed namespaces whose step failed, each with its reason. |
| `Children.CycleChildren` | pkg/controllers/clusterexternalsecret/clusterexternalsecret_controller.go:112-131 | After a cycle, each listed namespace's child is as its step leaves it and each removed namespace's child is as its removal leaves it. Nothing else changes. |
| `Children.CycleOutcome` | pkg/controllers/clusterexternalsecret/clusterexternalsecret_controller.go:112-131 | A whole cycle: the provisioned list shares no namespace with the failure map and holds no removed namespace. The failure map and the store are characterised as above. |
| `Children.Cycle` | pkg/controllers/clusterexternalsecret/clusterexternalsecret_controller.go:112-131 | The removal pass over the namespaces provisioned before and no longer selected, then the matching pass starting from its failures and an empty provisioned list. Its meaning is stated by `CycleProvisioned`, `CycleFailed` and `CycleChildren`; it carries no contract of its own. |
| `Children.ProvisionedIgnoresHistory` | pkg/controllers/clusterexternalsecret/clusterexternalsecret_controller.go:112-113 | The provisioned list is rebuilt from nothing: it is the same whatever status the parent had before. |
| `Children.PassingIgnoresStatus` | pkg/controllers/clusterexternalsecret/clusterexternalsecret_controller.go:115-131 | The status of the parent plays no part in whether a namespace's step succeeds. |
| `Order.BelowIrreflexive` | pkg/controllers/clusterexternalsecret/clusterexternalsecret_controller.go:271 | No namespace name sorts before itself. |
| `Order.BelowTransitive` | pkg/controllers/clusterexternalsecret/clusterexternalsecret_controller.go:271 | The string order is transitive. |
| `Order.BelowTotal` | pkg/controllers/clusterexternalsecret/clusterexternalsecret_controller.go:271 | Any two different strings are ordered one way or the other. |
| `Order.InsertBy` | pkg/controllers/clusterexternalsecret/clusterexternalsecret_controller.go:271 | Insertion keeps every element and adds exactly the inserted one. |
| `Order.SortBySorted` | pkg/controllers/clusterexternalsecret/clusterexternalsecret_controller.go:137 | The sort returns a permutation of its input in ascending key order, strictly ascending when the keys are distinct. |
| `Order.SortBy` | pkg/controllers/clusterexternalsecret/clusterexternalsecret_controller.go:137 | The sort standing for `sort.Strings` and `sort.Slice` (line 271) returns a permutation of its input. |
| `Order.SortedByIsUnique` | pkg/controllers/clusterexternalsecret/clusterexternalsecret_controller.go:271 | Two strictly ascending lists with the same elements are equal, so a sort's result is independent of the input order. |
| `StatusReport.EntryListFacts` | pkg/controllers/clusterexternalsecret/clusterexternalsecret_controller.go:263-269 | Filling the array entry by entry over the map yields one entry per key, with distinct namespaces, each with its key's reason, every key covered. |
| `StatusReport.Entries` | pkg/controllers/clusterexternalsecret/clusterexternalsecret_controller.go:263-269 | Some iteration order of the map gives an entry list of it. |
| `StatusReport.SortedEntries` | pkg/controllers/clusterexternalsecret/clusterexternalsecret_controller.go:271 | Sorting any entry list gives a failure list: as long as the map, strictly ascending by namespace, and with each key once and its own reason. |
| `StatusReport.FailureListIsFailureList` | pkg/controllers/clusterexternalsecret/clusterexternalsecret_controller.go:260-273 | The failure list of a map is a failure list of it. |
| `StatusReport.FailureListUnique` | pkg/controllers/clusterexternalsecret/clusterexternalsecret_controller.go:260-273 | A map has exactly one failure list. |
| `StatusReport.SortedEntriesAreFailureList` | pkg/controllers/clusterexternalsecret/clusterexternalsecret_controller.go:260-273 | Whatever order the map is iterated in, sorting gives the one failure list of the map. |
| `StatusReport.ToNamespaceFailures` | pkg/controllers/clusterexternalsecret/clusterexternalsecret_controller.go:260-273 | The array loop followed by the sort returns the map's failure list. |
| `StatusReport.SortedNames` | pkg/controllers/clusterexternalsecret/clusterexternalsecret_controller.go:137-138 | Sorting distinct names gives a strictly ascending list of the same names. |
| `StatusReport.NextStatusOutcome` | pkg/controllers/clusterexternalsecret/clusterexternalsecret_controller.go:112-138 | The status a normal cycle builds: the provisioned list is ascending, without repetition, and exactly the listed namespaces that passed. None of them failed or was removed. The failure list stands for the failure map. The condition counts the failures and the listed namespaces. |
| `StatusReport.NextStatus` | pkg/controllers/clusterexternalsecret/clusterexternalsecret_controller.go:133-138 | The status a cycle writes holds as many provisioned names as the cycle provisioned and one failure entry per failed namespace. Its condition counts the failures and the listed namespaces. |
| `Events.NamespacePredicate` | pkg/controllers/clusterexternalsecret/clusterexternalsecret_controller.go:335-350 | Create, delete and generic events pass. An update passes exactly when both objects are present and their label maps differ. |
| `Events.UpdatePassesOnLabelChangeOnly` | pkg/controllers/clusterexternalsecret/clusterexternalsecret_controller.go:340-345 | An update passes exactly when the labels changed. A nil map and an empty map count as different, though a selector reads both as no labels. |
| `Events.MatchingRequests` | pkg/controllers/clusterexternalsecret/clusterexternalsecret_controller.go:304-320 | The requests of a page are exactly those of its parents whose selector matches, never more than the page holds. |
| `Events.MatchingRequestsAppend` | pkg/controllers/clusterexternalsecret/clusterexternalsecret_controller.go:304-320 | Matching keeps enumeration order across pages. |
| `Events.FanOutFromComplete` | pkg/controllers/clusterexternalsecret/clusterexternalsecret_controller.go:297-330 | When no List fails and every selector converts, the walk from a token collects the matching parents from that token to the end, in order. |
| `Events.FindRequestsComplete` | pkg/controllers/clusterexternalsecret/clusterexternalsecret_controller.go:289-333 | When no List fails and every selector converts, the mapping returns the matching parents of all pages in enumeration order. |
| `Events.FanOutFrom` | pkg/controllers/clusterexternalsecret/clusterexternalsecret_controller.go:297-330 | The walk from a token fails at once when the List at that token fails or the token is past the end. When it succeeds it returns no more requests than there are parents from the token on. |
| `Events.FindRequests` | pkg/controllers/clusterexternalsecret/clusterexternalsecret_controller.go:289-333 | The requests for a namespace event are never more than the parents, and are none when the first List fails. |
| `Events.FanOutFromInvalid` | pkg/controllers/clusterexternalsecret/clusterexternalsecret_controller.go:304-310 | A selector that does not convert, on the current page or a later one, ends the walk with an error. |
| `Events.FindRequestsInvalid` | pkg/controllers/clusterexternalsecret/clusterexternalsecret_controller.go:304-310 | One parent whose selector does not convert empties the result, whatever the others match. |
| `Events.FanOutFromListFailure` | pkg/controllers/clusterexternalsecret/clusterexternalsecret_controller.go:297-302 | A failing List of any page the walk reaches ends it with an error. |
| `Events.FindRequestsListFailure` | pkg/controllers/clusterexternalsecret/clusterexternalsecret_controller.go:297-302 | A failing List of any page empties the result, even after earlier pages matched. |
| `Controller.ReconcileSpec` | pkg/controllers/clusterexternalsecret/clusterexternalsecret_controller.go:67-141 | One reconcile cycle never adds or drops a parent and never changes a parent's key. An exit with an error changes neither the parents nor the children. |
| `Controller.RefreshInterval` | pkg/controllers/clusterexternalsecret/clusterexternalsecret_controller.go:89-92 | The requeue delay is the parent's refresh interval when it has one and the controller's default otherwise. |
| `Controller.ChildName` | pkg/controllers/clusterexternalsecret/clusterexternalsecret_controller.go:107-110 | The children are named by `externalSecretName`, or by the parent's own name when that is empty. |
| `Controller.ReconcileExits` | pkg/controllers/clusterexternalsecret/clusterexternalsecret_controller.go:67-141 | A missing or unreadable parent gives a zero result, no error and no change. Every other exit requeues after the effective interval. An invalid selector and a failing namespace List return their error and leave status and children unchanged. Any other exit returns no error, even when namespaces failed. Only the requested parent can change. |
| `Controller.ReconcileWritesStatus` | pkg/controllers/clusterexternalsecret/clusterexternalsecret_controller.go:112-140 | On the normal path with a successful patch, only the requested parent's status changes. It is the status of `NextStatusOutcome`, computed over the selected namespaces. |
| `Controller.NextCycleRemovesNothing` | pkg/controllers/clusterexternalsecret/clusterexternalsecret_controller.go:112-138 | After a cycle, the next cycle over the same namespaces has nothing to remove. |
| `Controller.NextCycleSameSteps` | pkg/controllers/clusterexternalsecret/clusterexternalsecret_controller.go:115-131 | On what a cycle left, every listed namespace's step reports and leaves what it did the first time. |
| `Controller.NextCycleSameChildren` | pkg/controllers/clusterexternalsecret/clusterexternalsecret_controller.go:112-131 | A second cycle leaves the children exactly as the first one left them. |
| `Controller.NextCycleSameProvisioned` | pkg/controllers/clusterexternalsecret/clusterexternalsecret_controller.go:112-138 | A second cycle provisions the namespaces the first one did. |
| `Controller.NextCycleFailures` | pkg/controllers/clusterexternalsecret/clusterexternalsecret_controller.go:112-131 | A second cycle reports the failures of the listed namespaces again with the same reasons, and no failed removal. |
| `Controller.NextCycleSameFailureMap` | pkg/controllers/clusterexternalsecret/clusterexternalsecret_controller.go:112-131 | When no removal failed, a second cycle's failure map equals the first's. |
| `Controller.SecondCycleSettles` | pkg/controllers/clusterexternalsecret/clusterexternalsecret_controller.go:112-138 | A second cycle with the same namespaces and failures removes nothing, leaves the children unchanged and provisions the same namespaces. A failed removal is not retried: it drops out of the failures while its child stays. |
| `Controller.SecondCycleSameStatus` | pkg/controllers/clusterexternalsecret/clusterexternalsecret_controller.go:112-138 | When no removal failed, a second cycle writes the same status as the first. |
| `Controller.ReconcileTwice` | pkg/controllers/clusterexternalsecret/clusterexternalsecret_controller.go:67-141 | Reconciling again what a reconcile left, with the same failing calls and a status patch that goes through, gives the same result and error and the same children. Every parent keeps its provisioned list. When no removal failed, the parents are the same too. |
| `Controller.ReconcileTwiceNormal` | pkg/controllers/clusterexternalsecret/clusterexternalsecret_controller.go:107-140 | The same fixed-point facts on the path that runs both passes. |
| `Controller.MatchPage` | pkg/controllers/clusterexternalsecret/clusterexternalsecret_controller.go:304-320 | The loop over one page reports an invalid selector exactly when the page has one. Otherwise it returns the page's matching requests in order. |
| `Controller.Reconciler.RemoveExternalSecret` | pkg/controllers/clusterexternalsecret/clusterexternalsecret_controller.go:176-194 | The method returns `RemoveEffect`'s reason and leaves its entry, changing nothing else. |
| `Controller.Reconciler.RemoveOldNamespaces` | pkg/controllers/clusterexternalsecret/clusterexternalsecret_controller.go:202-216 | The loop returns the failure map and leaves the store that the removal pass over the removed namespaces gives. |
| `Controller.Reconciler.ResolveExternalSecret` | pkg/controllers/clusterexternalsecret/clusterexternalsecret_controller.go:143-174 | The method returns `ResolveEffect`'s reason and leaves its entry, changing nothing else. |
| `Controller.Reconciler.Reconcile` | pkg/controllers/clusterexternalsecret/clusterexternalsecret_controller.go:67-141 | The method's result, error, parents and children are those of one cycle as specified, whose properties are the lemmas above. The namespaces never change. |
| `Controller.Reconciler.FindObjectsForNamespace` | pkg/controllers/clusterexternalsecret/clusterexternalsecret_controller.go:289-333 | The paginated loop returns the requests of the walk over all pages, or the empty list on any error. |

## Left out

- The reconcile-duration gauge and all logging are left out. They have no effect on objects or results.
- `SetupWithManager` is left out. It only wires watches into the manager.
- `NewClusterExternalSecretCondition` and `SetClusterExternalSecretCondition` are defined in another file of the package, and their bodies are not part of this model. The model keeps them abstract: it records the condition by the two counts it is computed from, and it assumes that setting it overwrites the status's single condition. Merging the new condition with earlier conditions of other types, and keeping the previous transition time, are not captured. The condition's type and message are not modelled either. `StatusReport.NextStatusOutcome` and `Controller.ReconcileWritesStatus` (their condition clauses), and `Controller.SecondCycleSameStatus` and `Controller.ReconcileTwice` (their equal-parents clauses), rest on this assumption.
- The status patch is a JSON merge patch against a snapshot taken when the cycle starts. It is modelled as writing the status as assigned, which holds because nothing else changes the status during a cycle. Its error is ignored, as in the code.
- Label-selector syntax checks on keys and values are left out. `ValidSelector` checks only that each expression has a known operator and the values that operator needs.
- `SetControllerReference` is reduced to its ownership rule. Owner references are compared by kind and name only: the API group, the scheme lookup, UID and `blockOwnerDeletion` are not modelled.
- Resource versions, update conflicts and the informer cache are left out. A call either succeeds on the current store or fails with an error other than NotFound.
- A child deleted by someone else between the Get and the Delete would make the Delete NotFound. The model runs one cycle with no other writer, so it does not capture this.
- Children.RemoveAll: a fault applies to every call with the same name in one cycle, so a namespace that appears twice among the removed namespaces (`getRemovedNamespaces` keeps duplicates) sees the same outcome on each attempt. In the code, the first attempt could fail its Get and the second could delete the child, leaving the first reason in the failure map. The model does not produce that outcome.
- Continuation tokens are offsets into the parent list. An expired token is covered only as a failing List.
- Go compares strings by bytes, and the model compares `seq<char>` by code point. These agree on Kubernetes namespace names, which are ASCII.
- Order.SortBy: `sort.Strings` and `sort.Slice` sort in place. They are modelled by a pure insertion sort applied to the filled array's contents. In-place update is not captured, but the result is, and it is the only sorted arrangement.
- Work-queue concurrency, context cancellation and blocking calls are outside the sequential logic of a cycle and are left out.
