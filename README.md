# k8s-copy-secrets, modelled in Dafny

k8s-copy-secrets watches the secrets of one Kubernetes namespace (the source namespace). It copies each labelled secret into the namespace its `k8s-copy-secret/target-namespace` label names. Further source secrets, named in the comma-separated `k8s-copy-secret/additional-secrets` label, travel with it. Every copy is stamped with a `k8s-copy-secret/source-namespace` label, the ownership marker. A target secret that exists without the source's marker is never overwritten. When the labelled secret is deleted, its copies and those of its additional secrets are deleted from the target namespace.

The project models the watch callback and its four helpers in `src/index.ts`:

- `Text`: ECMAScript `trim` and one-character `split`, as the additional-secrets label is parsed.
- `Secrets`: secrets and their metadata, and the label keys. It also holds the pure decisions: the ownership guard's verdict, the metadata rewrite before a copy, and the replication intent an event carries.
- `Reconcile`: what one watch event does to the cluster, as functions. `Handle` gives the resulting slots, the writes in order and the outcome. `CopyAll` and `DeleteAll` give the two write phases, and `Group` gives the group resolution.
- `SecretStore`: the cluster's secret API as a `Store` class. The class holds the secrets by `(namespace, name)` slot and a log of the writes applied.
- `Engine`: `get_secret`, `assert_overridable_target`, `copy_secret`, `delete_secret` and the callback itself, as methods with loops over a `Store`. Each is proved to do what `Reconcile` specifies.
- `Properties`: the guarantees across one event and across a repeated event. These are the ownership invariant, fail-fast resolution, fan-out order, convergence of repeated copies and deletes, and the finding below.

The program starts the guard calls, the copies and the deletes without `await` (`src/index.ts:103`, `:111`, `:116`). The model follows the evident sequential intent instead. Every member of the group is guarded before any write, and the members are then copied or deleted in order, each call finishing before the next starts. `Properties.UnguardedHandle` models the callback as written.

Where the code departs from what it evidently means to do, the model follows the code:

- On a `DELETED` event, a missing additional secret becomes a placeholder carrying the name as split from the label. The name is not trimmed, although the lookup used the trimmed name (`src/index.ts:87`, `:94`). `Properties.UntrimmedPlaceholderLeavesCopy` shows the consequence.
- `copy_secret` sets the copy's `namespace` from a field the secret does not have, so it is left unset. The target slot comes from the target-namespace argument.
- A target secret with no labels at all makes the guard's label read throw a `TypeError`. That ends in the same handler as a guard rejection, so it is modelled as `NotOverridable`.
- JavaScript truthiness decides the label checks. A missing label and an empty label both count as absent (`Secrets.Label`).

## Model

| member | source | states |
|---|---|---|
| Text.TrimSpec | src/index.ts:87 | the result is the infix of the input left after removing whitespace at both ends; every removed character is ECMAScript whitespace and neither end of the result is |
| Text.TrimOfPadded | src/index.ts:87 | trimming a text that has no whitespace at its ends, padded with whitespace on both sides, gives back exactly that text |
| Text.Split | src/index.ts:86 | splitting gives at least one piece, and no piece contains the separator |
| Text.JoinSplit | src/index.ts:86 | joining the pieces of a split with the separator restores the string |
| Text.SplitJoin | src/index.ts:86 | splitting the join of a non-empty list of separator-free pieces gives back those pieces |
| Secrets.Guard | src/index.ts:27-37 | a target slot may be written exactly when it is empty or its occupant's ownership marker names the source namespace; any other verdict is NotOverridable |
| Secrets.Stamped | src/index.ts:39-47 | the copy keeps the name, annotations and data; its namespace is unset; its labels are the original labels plus the ownership marker set to the source namespace; and the stamped copy passes the guard for that source |
| Secrets.TargetNamespace | src/index.ts:74-79 | an event is acted on exactly when its secret has metadata, labels and a non-empty target-namespace label, and then the target is that label's value |
| Secrets.AdditionalNames | src/index.ts:84-86 | there are no additional names exactly when the label is missing or empty; otherwise the names, none containing a comma, joined with commas give back the label's value, so they are its comma-separated pieces in order |
| Reconcile.ResolvedMembers | src/index.ts:83-100 | resolution succeeds exactly when the event is a deletion or every listed name has a source secret; on success it yields one member per name, in label order, each the source secret found or the placeholder |
| Reconcile.ResolveFailsAtFirstMissing | src/index.ts:86-97 | on a non-deletion, resolution fails with the untrimmed name of the first listed secret missing from the source namespace |
| Reconcile.WrittenKeys | src/index.ts:108-113 | the copies write exactly the target slots of the group's members |
| Reconcile.WrittenLast | src/index.ts:108-113 | a member whose target slot no later member writes leaves its own stamped copy in that slot, so the last writer wins |
| Reconcile.WrittenOwned | src/index.ts:39-47 | every secret the copies leave behind carries the source namespace's ownership marker |
| Reconcile.CopyAllSlots | src/index.ts:108-113 | after the copies the cluster is the old cluster overridden by the stamped members, and every other slot is unchanged |
| Reconcile.CopyAllWrites | src/index.ts:50-56 | one write per member, in group order: a create for the first write to an empty slot, a replace otherwise |
| Reconcile.DeleteAllEffect | src/index.ts:114-118 | after the deletes every target slot of the group is empty and nothing else changed; each write deletes an occupied group slot, and there is no write exactly when none was occupied |
| Reconcile.DeleteAllWrites | src/index.ts:114-118 | every occupied target slot of the group gets a delete, no write repeats another, and the deletes come in the order in which the group first names their slots; with DeleteAllEffect this fixes the delete sequence |
| Reconcile.Handle | src/index.ts:73-129 | an event without replication intent is ignored; an event is applied exactly when it has a recognised type, its group resolves and every member passes the guard, so a guarded ADDED or MODIFIED event is always copied; any other outcome leaves the cluster unchanged without a write |
| SecretStore.Store.Read | src/index.ts:21 | the read succeeds exactly when the slot is occupied and returns its secret; otherwise it fails as not found |
| SecretStore.Store.Create | src/index.ts:54 | a create into an empty slot stores the body and logs the write; into an occupied slot it fails and changes nothing |
| SecretStore.Store.Replace | src/index.ts:51 | a replace of an occupied slot swaps in the body and logs the write; on an empty slot it fails and changes nothing |
| SecretStore.Store.Delete | src/index.ts:62 | a delete of an occupied slot removes it and logs the write; on an empty slot it fails and changes nothing |
| Engine.GetSecret | src/index.ts:19-25 | the result is the slot's secret when it is occupied and none otherwise, a failed read counting as none |
| Engine.AssertOverridableTarget | src/index.ts:27-37 | passes exactly when the target slot is empty or owned by the source namespace, agreeing with the guard |
| Engine.CopySecret | src/index.ts:39-57 | the stamped secret lands in the target slot, by a replace when the slot was occupied and a create otherwise; that is the only write |
| Engine.DeleteSecret | src/index.ts:59-67 | an occupied slot is removed with one delete; an empty one is left alone with no write and no error |
| Engine.ResolveGroup | src/index.ts:83-100 | the loop returns the group: the triggering secret, then the resolved additional secrets, or the error for the first missing one |
| Engine.GuardGroup | src/index.ts:101-104 | passes exactly when every member's target slot passes the guard, and otherwise fails with NotOverridable |
| Engine.CopyGroup | src/index.ts:107-113 | the loop leaves the cluster and the write log as the in-order copies specify |
| Engine.DeleteGroup | src/index.ts:114-118 | the loop leaves the cluster and the write log as the in-order deletes specify |
| Engine.HandleEvent | src/index.ts:73-129 | the callback leaves the cluster as Handle says, appends exactly Handle's writes to the log and reports Handle's outcome |
| Properties.ChangedAreTargets | src/index.ts:106-118 | every slot an applied event changes is a target slot of its group |
| Properties.WrittenAreTargets | src/index.ts:106-118 | every write of an applied event goes to a target slot of its group |
| Properties.OwnershipInvariant | src/index.ts:27-37 | every slot an event changes and every slot it writes lies in the target namespace, and was empty or owned by the source namespace before the event |
| Properties.MissingDependencyWritesNothing | src/index.ts:93-97 | on an ADDED or MODIFIED event, a missing additional secret fails the event with its name and leaves the cluster unchanged with no write |
| Properties.CopyEventFanOut | src/index.ts:83-113 | the group is the triggering secret followed by one member per listed name, in label order; when applied, the i-th write copies the i-th member |
| Properties.DeleteEventClearsGroup | src/index.ts:91-118 | a deletion never fails to resolve; it is applied exactly when every member passes the guard, and then every member's target slot is empty |
| Properties.ResolveReadsSource | src/index.ts:87 | resolution depends only on the secrets of the source namespace |
| Properties.CopyTwice | src/index.ts:108-113 | copying a group a second time finds every target slot owned by the source, writes only replaces and leaves the cluster as the first copy left it |
| Properties.SameGroupAfter | src/index.ts:83-100 | writes confined to the target namespace do not change the group an event resolves |
| Properties.CopyEventIdempotent | src/index.ts:39-57 | for a non-empty source namespace and a target namespace other than the source, handling the same ADDED or MODIFIED event twice leaves the cluster as once did, with the same outcome; the repeat only replaces |
| Properties.DeleteEventIdempotent | src/index.ts:59-67 | for a target namespace other than the source, handling the same DELETED event twice leaves the cluster as once did; an applied repeat is applied again without a write |
| Properties.UntrimmedPlaceholderLeavesCopy | src/index.ts:86-94 | on a deletion listing a name with surrounding whitespace whose source secret is gone, the group holds a placeholder under the untrimmed name; when the trigger's own target slot passes the guard, the event is applied, removes only that slot, and the copy under the trimmed name survives in the target namespace |
| Properties.CfgScenario | src/index.ts:39-57 | an ADDED secret cfg of namespace src, routed to an empty dst, is applied as one create of the stamped copy; a MODIFIED cfg afterwards is one replace of it; a cfg without the ownership marker already in dst makes the event fail as not overridable, with no write |
| Properties.UnguardedHandle | src/index.ts:103 | the callback as written applies every resolved ADDED or MODIFIED event as the in-order copy of the whole group, and every resolved DELETED event as the in-order delete of the whole group, whatever the guard says; it agrees with the guarded callback whenever the latter applies, and the guarded callback rejects the event without a write when some member fails the guard |
| Properties.UntrimmedPlaceholderScenario | src/index.ts:86-94 | on a concrete cluster holding the copies of a and b, deleting secret a whose additional-secrets label is " b", after b left the source namespace, is applied, removes the copy of a and leaves the copy of b in the target namespace |
| Properties.UnawaitedGuardOverwritesForeignSecret | src/index.ts:101-111 | a target secret owned by another source is replaced by the callback as written, while the guarded callback rejects the event and leaves it alone |

## Left out

- Start-up (`src/index.ts:1-17`): reading the `NAMESPACE` and `KUBECONFIG` environment variables and building the client. The source namespace is a parameter of every member instead.
- The watch subscription and its done callback (`src/index.ts:69-72`, `:131-136`). Each event is passed to `Handle` or `Engine.HandleEvent` directly.
- The network calls to the Kubernetes API are not modelled. `SecretStore.Store` stands in for them.
- Debug and console output (`debug`, `console.error`) is not modelled. The callback's outcome is returned as a `Report` instead.
- The timing of the unawaited promises and the read-then-write race between the guard and the write are left out, because they need a concurrency model. `Properties.UnguardedHandle` covers the one schedule in which every started write lands.
- Metadata fields other than name, namespace, labels and annotations (uid, resourceVersion and others) are dropped by `copy_secret`. They are not modelled at all.
- A secret's `data`, `type` and other payload fields are one opaque map that is copied verbatim.
- Kubernetes label values may hold only letters, digits, `-`, `_` and `.`, and the API server enforces this. The additional-secrets value is read from the labels (`src/index.ts:84`), so through the API server it can hold neither a comma nor whitespace. The model does not impose that restriction: the fan-out over several names and the `" b"` scenario need a value the API server would reject.
- Engine.CopySecret: API errors other than NotFound and AlreadyExists (forbidden, time-out, server error) are not modelled. `get_secret` (`src/index.ts:19-24`) turns any such read error into null, so in the program a failed read can lead `copy_secret` to create into an occupied slot, which the API refuses.
- The policy for a write that fails partway through a group is not modelled, because the store of the model refuses only writes its preceding read rules out.
- Properties.OwnershipInvariant: assumes the guard's reads succeed. In the program a failed read makes `assert_overridable_target` (`src/index.ts:27-37`) see an empty slot and pass, so the guard fails open on a slot held by someone else's secret.
- An undefined metadata name is not modelled: names are always strings.

## Findings

| source | as written | input that shows it | evidently intended | confidence | as-written member | corrected member |
|---|---|---|---|---|---|---|
| src/index.ts:103 | `assert_overridable_target` is called without `await`, so its rejection escapes the `try` and the copies start anyway | an ADDED event for secret t targeting namespace tgt, where tgt already holds a secret t whose marker names another namespace | a guard rejection stops the event before any write, so a secret owned by someone else is never overwritten | not executed; the overwrite happens in every schedule where the copy's write lands before the unhandled rejection ends the process | Properties.UnawaitedGuardOverwritesForeignSecret | Properties.OwnershipInvariant |
