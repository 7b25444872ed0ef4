# State-snapshotter verification

Dafny model and proofs for four parts of the state-snapshotter:

1. **The capture protocol on one snapshot object.** `EnsureChildren`, `EnsureManifestCapture` and
   `DomainCaptureStatus.Apply` read a possibly stale object, write children or a capture request, and commit through
   an optimistic-lock patch with retry. `CaptureProtocol` is a transition system over every version the server ever
   stored, any number of calls in flight, and the core's declare, latch and reap steps; `CaptureInvariant`,
   `CaptureTheorems` and `CaptureSettlement` prove what holds over every run. `CaptureSdk` is the code itself -
   adapter, mutation closures, retry loop, fluent writer - proved against the functions of `CaptureCall`; `CaptureRuns`
   shows that every such execution of the three calls is a run. Supporting modules: `CapturePhase`, `Refs`,
   `OwnerRef`, `RequestCleanup`.
2. **Subtree manifest exclusion.** The fail-closed recursive listing (`Subtree`), the ordered walk (`Walk`), the key
   renderers (`ManifestKeys`), the root plan (`RootTargets`), the client-side union (`SubtreeUnion`), and the tree
   theorem that nothing is captured twice or lost (`TreeExclusion`, with an instance in `TreeExample`), over the paths
   of `ContentGraph`.
3. **The manifest checkpoint store.** Greedy packing (`Packing`), chunk writing and the ordered reader (`ChunkCodec`),
   interleaved and crashing uploads (`UploadProtocol`, `UploadRerun`, `UploadFinality`), the goroutine-parallel reader
   (`ParallelReader`), the Key/Value normaliser (`KeyValue`), and the TTL cache in front of it (`ArchiveCache`).
4. **The GVK registry** (`GvkRegistry`): five maps, a builder, resolution both ways, and rollback.

`Ordering` and `KeyText` hold the shared list and string facts. `dafny verify dfyconfig.toml` checks everything.

## How to read the model

- Server state is a list of versions; a version's index is its resourceVersion. An adapter object is always some
  earlier version. A patch computed from an outdated copy conflicts; after five conflicts the call fails.
- JSON, gzip (RFC 1952), base64 (section 4 of RFC 4648) and SHA-256 are the fields of a `Codec`; a lawful codec
  decodes what it encoded and its hash separates byte strings (`LawfulCodec` gives one). Chunk names are pairs of
  checkpoint UID and index.
- Time, goroutine scheduling, cache staleness and crashes are parameters, events or nondeterministic choices: a crash
  is an attempt that is never moved again, a scheduler is `:|` over the pending chunks.
- Where the source loops or mutates, a method or class does, and its contract ties it to a function; the theorems are
  about that function.

State-machine steps and the code they stand for: `CaptureProtocol.Refresh` capture.go:248-276 and 415-427,
`EnsureNext` children.go:47-103, `Probe` capture.go:410-415, `Create` capture.go:429-448, `Adopt` capture.go:449-470,
`Patch` and `Reread` patch.go:59-103, `MayLatch` request_cleanup.go:32-83 and capture_legs.go:115-152, `CoreReap`
capture_legs.go:115-190; `UploadProtocol.Look`, `CreateCheckpoint`, `Reget`, `WriteNext`, `Commit`
import_manifest_reconstruct.go:100-155 and 180-228.

## What the proofs found

- **A second capture request is possible.** The authoritative refresh and the Create of `EnsureManifestCapture` are two
  requests. If the core latches and reaps between them, the request is created again after the latch
  (`RecreationHappens`); without expiry that is the only way to a second one (`RecreationExactly`). In every run a
  request appears on a latched node exactly when the latch came after the refresh (`LateCreateExactly`); with both
  requests taken as one step nothing is created after the latch (`NothingCreatedAfterLatch`).
- **A successful `EnsureChildren` may have published nothing.** When the node froze after the pre-check the closure
  drops the write and the call returns no error, with the children created (`DroppedWriteHappens`; exact condition
  `SuccessIsPublishedExactly`).
- **A Ready checkpoint can be unreadable, or be replaced.** Chunk creation tolerates AlreadyExists while checksums come
  from the committing attempt: uploads with different payloads never blend, but the checkpoint may then fail every read
  (`CrashThenOtherPayload`, exact condition). An upload tests Ready at its first Get only; the second Get
  (import_manifest_reconstruct.go:135) supplies the version of its update without testing again. So an attempt that
  looked before Ready and re-reads after it overwrites the status under the same UID (`ReadyIsOverwritten`), although
  the comment at lines 89-91 promises otherwise. That is the only way (`CommitsOverExactly`, `NeverRegottenIsFinal`),
  and which Ready states are exposed to it is decidable from the attempts in flight (`ReplaceableExactly`). The
  cache's assumption excludes it.
- **Exclusion cannot see the Namespace object**: it is captured under `_cluster` but planned under the snapshot's
  namespace, so disjointness holds exactly when no descendant captured it (`PlanExcludesChildren`); two nested nodes
  must not both add it (`TreeFreeOfDuplicates`).
- A duplicate object in a subtree answers with the same Conflict status as a subtree still being persisted, so the SDK
  reports it as pending although waiting cannot help (`RepeatedObjectIsPending`).
- A namespace called `_cluster` collides with the cluster scope (`ClusterNamespaceCollides`).
- `excludedRefsEqualIgnoreOrder` is documented as set equality; it also requires equal lengths and otherwise ignores
  multiplicities (`ExcludedRefsEqualIgnoreOrder`).
- `RefsEqualIgnoreOrder` counts duplicates, so a published list holding one always counts as growth (`GrowsExactly`).
- Greedy packing is optimal when sizes are monotone on stretches; the condition is sufficient, not necessary, but cannot
  simply be dropped (`GreedyNeedsMonotone`), and gzip does not promise it.
- Key/Value conversion loses empty maps, turns any list headed by a Key/Value map into a map, and a `null` item
  makes the parallel reader panic in its goroutine - the process ends - where the ordered reader returns it.
- Rollback restores the registry exactly when none of the pair's four entries was there before; on a shared content it
  strips the other snapshot kind (`RollbackExactly`, `RollbackOfShared`).

## Model

| member | source | states |
|---|---|---|
| `CaptureTheorems.MembershipFreezes` | pkg/snapshotsdk/capture.go:248-306 | over any run - stale adapters, conflict retries, a phase that advances between pre-check and patch - children and exclusions never change once a stored phase is Planned, Finished or Failed |
| `CaptureTheorems.PhasesAdvance` | pkg/snapshotsdk/capture.go:504-571 | stored phases go from Planning over Planned to Finished or to Failed and never back, Failed is final, and the captured latch never drops |
| `CaptureTheorems.BarriersEnterClear` | pkg/snapshotsdk/domain_capture_status.go:74-87 | every version that enters Planned or Finished has an empty reason and message, however old the copy was that Apply decided on |
| `CaptureTheorems.EarlyExitIsSound` | pkg/snapshotsdk/capture.go:504-531 | when a stale copy says a target phase is unreachable or already reached, the stored object agrees on the phase |
| `CaptureTheorems.PublicationIsAdditive` | pkg/snapshotsdk/capture.go:259-306 | stored refs are strictly sorted, only grow, equal the union of what committed calls desired, and name only children created or adopted before |
| `CaptureTheorems.FreezeRejectsExactly` | pkg/snapshotsdk/capture.go:248-280 | the pre-check rejects if and only if the node is frozen and the call adds a child or changes the exclusion set; a rejected call has written nothing |
| `CaptureTheorems.PublicationCommitsExactly` | pkg/snapshotsdk/capture.go:281-307 | a patch attempt stores a version if and only if its copy is current, unfrozen and something changes; the new version holds the union; a call that lost the race with the freeze writes nothing |
| `CaptureTheorems.NothingIsStolen` | pkg/snapshotsdk/internal/children/children.go:47-103 | over any run: an object that another parent or controller holds keeps its owner references, whatever calls desire it |
| `CaptureTheorems.LatchedExactly` | images/state-snapshotter-controller/internal/controllers/snapshotcontent/capture_legs.go:115-152 | one step only latches a node, exactly at Planned or Finished, with the request name published and the manifest handed over durably |
| `CaptureTheorems.RequestGoesExactly` | images/state-snapshotter-controller/internal/controllers/snapshotcontent/capture_legs.go:115-190 | a request goes away by its time-to-live or, on a latched node, by the core |
| `CaptureTheorems.ClosureExactly` | pkg/snapshotsdk/capture.go:281-307 | when the publication closure changes a canonical object, and to which sets |
| `CaptureTheorems.RecreationExactly` | pkg/snapshotsdk/capture.go:411-448 | in runs without expiry the Create after an authoritative refresh makes a second request if and only if the core latched the node between the two; refresh and Create are separate API requests |
| `CaptureTheorems.LateCreateExactly` | pkg/snapshotsdk/capture.go:411-448 | in every run, expiry included: a Create makes a request on a latched node if and only if it finds none and the latch was stored after the version its refresh saw |
| `CaptureTheorems.RecreationHappens` | pkg/snapshotsdk/capture.go:411-448 | a reachable run, without expiry, in which a second request is created after the latch |
| `CaptureTheorems.NothingCreatedAfterLatch` | pkg/snapshotsdk/capture.go:387-448 | over every run, expired requests included: once the node is latched, Creates that follow their refresh at once create nothing |
| `CaptureTheorems.AtMostOneRequest` | pkg/snapshotsdk/capture.go:387-448 | with refresh and Create taken as one step every run without expiry creates the request at most once, and a latched node has had exactly one |
| `CaptureTheorems.StepKeepsLatchInv` | images/state-snapshotter-controller/internal/controllers/snapshotcontent/capture_legs.go:115-190 | every step keeps: a reaped request implies a latched node, and a call about to create has seen an unlatched node |
| `CaptureTheorems.FirstPlanWins` | pkg/snapshotsdk/capture.go:429-480 | without deletion the request keeps the canonical form of the first declared set whatever later calls declare |
| `CaptureTheorems.DriftReportedExactly` | pkg/snapshotsdk/capture.go:449-480 | a finished call whose probe saw the request reports drift if and only if its set differs, and the name is published by then |
| `CaptureInvariant.StepKeepsInv` | pkg/snapshotsdk/capture.go:238-531 | every event of the transition system keeps the protocol invariant over the whole version history and all calls in flight |
| `CaptureInvariant.RunKeepsInv` | pkg/snapshotsdk/capture.go:238-531 | the invariant over runs of any length |
| `CapturePhase.AdvanceIsPreorder` | pkg/snapshotsdk/capture.go:535-583 | advancement is reflexive, transitive and antisymmetric on named phases; freezing is upward closed |
| `CapturePhase.AdvanceExactly` | pkg/snapshotsdk/capture.go:535-600 | the whole table: Planning before Planned before Finished, no way back, Failed reached from everywhere and left by nothing; membership is frozen exactly at Planned, Finished and Failed |
| `CaptureSdk.PatchStatus` | pkg/snapshotsdk/internal/patch/patch.go:59-103 | the retry loop is one atomic read-modify-write on the first version nobody overtook; it gives up exactly after five overtaken attempts, and never loses another writer's version |
| `CaptureSdk.Attempt` | pkg/snapshotsdk/internal/patch/patch.go:64-76 | one attempt: unchanged, stored on top of the version it read, or overtaken |
| `CaptureSdk.StatusWriter.Apply` | pkg/snapshotsdk/domain_capture_status.go:74-87 | Apply and setPhase: when they return without reading the server, and what they store otherwise |
| `CaptureCall.UndisturbedApply` | pkg/snapshotsdk/domain_capture_status.go:74-87 | Apply with nobody in the way stores this phase, this reason and this message, or no reason and message when it enters a barrier; it stores nothing exactly if the phase may not follow or nothing changes |
| `CaptureCall.BarrierReached` | pkg/snapshotsdk/capture.go:504-531 | the next barrier is always stored |
| `CaptureSdk.Adapter.MutateChildren` | pkg/snapshotsdk/capture.go:281-307 | the closure as the loops compute it equals the publication function of the transition system |
| `CaptureSdk.Adapter.MutatePhase` | pkg/snapshotsdk/capture.go:517-529 | the closure of setPhase with its re-checked guard |
| `CaptureSdk.PreCheck` | pkg/snapshotsdk/capture.go:259-276 | the freeze pre-check of EnsureChildren |
| `CaptureSdk.EnsureChild` | pkg/snapshotsdk/internal/children/children.go:77-103 | get or create, then adopt: refused exactly if a reference of the object that is there (or of the template) is of another parent or controller, and then nothing changes; otherwise no other reference is lost or moved |
| `CaptureSdk.Reconcile` | pkg/snapshotsdk/internal/children/children.go:47-75 | all children are ensured in order up to the first theft, and the refs come back sorted; an existing object that another parent holds keeps its references |
| `CaptureCall.PassIsFair` | pkg/snapshotsdk/internal/children/children.go:47-103 | a pass over the children is refused exactly when one of them is held by another parent; refused or not, no object loses a reference and none that another parent holds is touched |
| `CaptureCall.ChildrenCallIsFair` | pkg/snapshotsdk/capture.go:238-307 | the whole call steals nothing, and ErrChild means exactly that a child could not be had |
| `CaptureSdk.EnsureChildren` | pkg/snapshotsdk/capture.go:238-307 | outcome, stored versions, child objects and adapter copy are those of the call function; success ends on a copy that publishes the call, or on a frozen one that does not |
| `CaptureCall.ReconcileKeepsForeign` | pkg/snapshotsdk/internal/children/children.go:47-75 | reconciling never deletes or takes over an object: others keep their owners, every desired one is owned by this snapshot |
| `CaptureCall.RetriedMeans` | pkg/snapshotsdk/internal/patch/patch.go:82-103 | the retry loop only adds versions, ends on one that needs no change or was just built on the one before it, and stores nothing when it gives up |
| `CaptureCall.RetriedFailsExactly` | pkg/snapshotsdk/internal/patch/patch.go:82-103 | the loop gives up if and only if each of its attempts has a patch to send and is overtaken |
| `CaptureCall.ChildrenCallMeans` | pkg/snapshotsdk/capture.go:238-307 | every outcome with its exact condition and what it has written |
| `CaptureCall.ChildrenCallSettles` | pkg/snapshotsdk/capture.go:281-307 | a success publishes refs and exclusions on the version it ends on, unless that version is frozen and would have to change |
| `CaptureRuns.ChildrenCallRuns` | pkg/snapshotsdk/capture.go:238-307 | an undivided execution of EnsureChildren, whatever others do in between, is a run of the transition system with the same outcome, versions and child objects |
| `CaptureRuns.StatusCallRuns` | pkg/snapshotsdk/domain_capture_status.go:74-87 | the same for Apply, early return included |
| `CaptureRuns.ManifestCallRuns` | pkg/snapshotsdk/capture.go:387-481 | the same for EnsureManifestCapture, with cache hit and miss, whatever others do to the request before the Create |
| `CaptureSettlement.SuccessIsPublishedExactly` | pkg/snapshotsdk/capture.go:281-307 | over any run: after a success every child was created or adopted and still exists, no step of the model deleting one; the refs are published if and only if the copy the call ended on was not frozen or showed them already; otherwise the write was dropped without an error |
| `CaptureSettlement.DroppedWriteHappens` | pkg/snapshotsdk/capture.go:281-307 | a reachable state in which a call has succeeded, its child exists, and nothing is published |
| `CaptureSdk.EnsureManifestCapture` | pkg/snapshotsdk/capture.go:387-481 | outcome, stored versions, request and adapter copy are those of the call function; no request is created on a latched authoritative copy, an existing one is never changed, and success has published the name |
| `CaptureCall.ManifestCallMeans` | pkg/snapshotsdk/capture.go:387-481 | every outcome of EnsureManifestCapture with its exact condition, ErrConflict included, and when a request is created |
| `CaptureSdk.PublishRequestName` | pkg/snapshotsdk/capture.go:449-470 | the name is published, or every attempt was overtaken |
| `OwnerRef.Ensure` | pkg/snapshotsdk/internal/ownerref/ownerref.go:31-53 | adoption succeeds if and only if no reference blocks it, and the resulting references |
| `OwnerRef.AdoptsExactly` | pkg/snapshotsdk/internal/ownerref/ownerref.go:31-60 | adoption is refused exactly for another parent of the same kind or another controller; otherwise own references are renewed in place or one is appended, and every other one stays where it was |
| `OwnerRef.AdoptionIsExclusive` | pkg/snapshotsdk/internal/ownerref/ownerref.go:31-60 | after a controlling parent adopted a child, exactly the same owner can adopt it again |
| `OwnerRef.AdoptionIsIdempotent` | pkg/snapshotsdk/internal/ownerref/ownerref.go:31-53 | a second adoption changes nothing and unrelated references survive in place |
| `RequestCleanup.SafeToDelete` | images/state-snapshotter-controller/internal/controllers/manifestcapture/request_cleanup.go:32-83 | the guard with its early exits equals the durable-handoff predicate |
| `RequestCleanup.OwnedByContent` | images/state-snapshotter-controller/internal/controllers/manifestcapture/request_cleanup.go:132-140 | the first reference naming the content decides |
| `RequestCleanup.OwnedByExactly` | images/state-snapshotter-controller/internal/controllers/manifestcapture/request_cleanup.go:132-140 | the first reference with the content's apiVersion, kind and name has its UID, as far as both are known |
| `RequestCleanup.SafeExactly` | images/state-snapshotter-controller/internal/controllers/manifestcapture/request_cleanup.go:32-129 | the verdict: the bound content exists and names a checkpoint that exists, is Ready and is owned by it, and a request still there names the same one |
| `RequestCleanup.VerdictSurvivesDeletion` | images/state-snapshotter-controller/internal/controllers/manifestcapture/request_cleanup.go:32-129 | deleting the request never takes the verdict back; without a request the verdict is exactly durability |
| `Refs.UnionRefs` | pkg/snapshotsdk/internal/children/children.go:125-144 | the union is the canonical form of both lists: each ref once, sorted |
| `Refs.CanonIsPublishedOrder` | pkg/snapshotsdk/internal/children/children.go:105-116 | published refs ascend by API version, then kind, then name, without repetition |
| `Refs.RefsEqualIgnoreOrder` | pkg/snapshotsdk/internal/children/children.go:147-161 | equality of the multisets |
| `Refs.GrowsExactly` | pkg/snapshotsdk/internal/children/children.go:125-161 | the growth test holds if and only if desired is not a subset of published (or published holds a duplicate) |
| `Refs.CanonDeterminedBySet` | pkg/snapshotsdk/internal/children/children.go:106-144 | canonical lists are equal if and only if they denote the same set |
| `Refs.NormalizeExcludedRefs` | pkg/snapshotsdk/exclude.go:73-86 | normalising yields the canonical form |
| `Refs.ExcludedRefsEqualIgnoreOrder` | pkg/snapshotsdk/exclude.go:88-103 | equal length and equal sets; multiplicities are ignored, unlike what its name and comment suggest |
| `Refs.Targets` | pkg/snapshotsdk/internal/manifest/manifest.go:43-68 | canonical targets by rendered key |
| `Refs.TargetsDeterminedBySet` | pkg/snapshotsdk/internal/manifest/manifest.go:43-97 | canonical targets are equal if and only if the declared sets are, for fields without a bar |
| `Refs.CanonTargetsSpec` | pkg/snapshotsdk/internal/manifest/manifest.go:43-68 | on any declared list: sorted, every identity kept, nothing invented |
| `Refs.SameSet` | pkg/snapshotsdk/internal/manifest/manifest.go:79-97 | comparing sizes and looking up one side is equality of the key sets |
| `ManifestKeys.RenderInjective` | images/state-snapshotter-controller/internal/usecase/aggregated_namespace_manifests.go:278-294 | the rendered key determines all four fields when the first three hold no bar |
| `ManifestKeys.RenderersAgree` | images/state-snapshotter-controller/internal/usecase/subtree_manifest_identities.go:113-133 | the key a checkpoint is de-duplicated by and the key its identity is excluded by are one string, and one exists if and only if the other does |
| `ManifestKeys.IdentityExactly` | images/state-snapshotter-controller/internal/usecase/subtree_manifest_identities.go:113-133 | an object is identified exactly if it has metadata, API version, kind and name, and then by its own fields, the namespace of a cluster-scoped object left empty |
| `ManifestKeys.ExcludeKeyExactly` | images/state-snapshotter-controller/internal/usecase/root_capture_run_exclude.go:132-138 | equal keys mean equal objects, but for the cluster scope and a namespace called "_cluster" |
| `ManifestKeys.TargetMeetsIdentity` | images/state-snapshotter-controller/pkg/namespacemanifest/filter_targets.go:23-31 | a base target meets the key of a captured identity if and only if it is that object |
| `ManifestKeys.ClusterNamespaceCollides` | images/state-snapshotter-controller/internal/usecase/root_capture_run_exclude.go:132-138 | the collision: two different objects with one key |
| `RootTargets.FilterManifestTargets` | images/state-snapshotter-controller/pkg/namespacemanifest/filter_targets.go:33-47 | the loop keeps exactly the targets whose key is not excluded; an empty exclude set returns the list as it is |
| `RootTargets.BuildRootTargets` | images/state-snapshotter-controller/internal/usecase/root_capture_run_exclude.go:90-123 | the plan is base and Namespace object minus owned PVCs and captured identities |
| `RootTargets.PlanPartition` | images/state-snapshotter-controller/internal/usecase/root_capture_run_exclude.go:98-123 | a target of any list is planned if and only if it is neither an owned PVC nor captured below |
| `RootTargets.PlanCount` | images/state-snapshotter-controller/internal/usecase/root_capture_run_exclude.go:98-123 | each target keeps its multiplicity or vanishes altogether, by its key alone |
| `RootTargets.RootPartition` | images/state-snapshotter-controller/internal/usecase/root_capture_run_exclude.go:98-123 | a base target is planned if and only if it is neither an owned PVC nor captured below |
| `RootTargets.NamespaceAlwaysPlanned` | images/state-snapshotter-controller/internal/usecase/root_capture_run_exclude.go:90-103 | the Namespace object survives exclusion |
| `RootTargets.PlanIsOrdered` | images/state-snapshotter-controller/pkg/namespacemanifest/filter_targets.go:33-47 | with nothing to exclude the list is planned as it is, otherwise in the published order |
| `Subtree.BuildSubtreeManifestIdentities` | images/state-snapshotter-controller/internal/usecase/subtree_manifest_identities.go:42-65 | on any finite graph, cyclic or shared, the call succeeds if and only if the subtree is complete, and then lists each object of each reachable node exactly once; otherwise its status names a defect the subtree has |
| `Subtree.ListedFieldByField` | images/state-snapshotter-controller/internal/usecase/subtree_manifest_identities.go:113-133 | each identity of the answer has the apiVersion, kind, namespace, name and uid of the object it lists |
| `Subtree.AnswerIsWhole` | images/state-snapshotter-controller/internal/usecase/subtree_manifest_identities.go:42-109 | in terms of the store alone: the answer covers every declared child of every node it covers, describes every object of their checkpoints, and nothing else |
| `Subtree.HealthyReportsRepeats` | images/state-snapshotter-controller/internal/usecase/aggregated_namespace_manifests.go:262-274 | in a subtree of healthy nodes the only error left is Conflict, for an object captured twice |
| `Subtree.Collector.Collect` | images/state-snapshotter-controller/internal/usecase/subtree_manifest_identities.go:72-109 | the recursion over shared state: success closes the visited set under children, failure exhibits a defect |
| `Subtree.Collector.AppendOwn` | images/state-snapshotter-controller/internal/usecase/aggregated_namespace_manifests.go:233-276 | one checkpoint is listed in full, or the subtree is not complete |
| `Subtree.ListingIsComplete` | images/state-snapshotter-controller/internal/usecase/subtree_manifest_identities.go:72-109 | a listing closed under children is the whole subtree and proves it complete |
| `Walk.WalkSnapshotContentSubtree` | images/state-snapshotter-controller/internal/usecase/snapshot_content_graph.go:40-85 | with a visit that never fails the walk succeeds if and only if the reachable nodes exist and form a tree (a diamond fails), and visits each once in preorder by name; an error names a reachable defect |
| `Walk.Walker.Visit` | images/state-snapshotter-controller/internal/usecase/snapshot_content_graph.go:50-85 | one visit: success extends the order by the preorder of the subtree, failure refutes the tree |
| `Walk.PreUnique` | images/state-snapshotter-controller/internal/usecase/snapshot_content_graph.go:50-85 | there is one preorder, so the visiting order is determined |
| `Walk.ParentFirst` | images/state-snapshotter-controller/internal/usecase/snapshot_content_graph.go:50-85 | a node is visited before each child it declares |
| `Walk.SiblingsByName` | images/state-snapshotter-controller/internal/usecase/snapshot_content_graph.go:66-85 | of two children a node declares the one with the smaller name is visited first |
| `Walk.SameNodes` | images/state-snapshotter-controller/internal/usecase/snapshot_content_graph.go:40-85 | without empty references the walk and the listing reach the same nodes |
| `ContentGraph.UniquePath` | images/state-snapshotter-controller/internal/usecase/snapshot_content_graph.go:50-85 | in a tree of contents a node is reached by one path |
| `SubtreeUnion.SubtreeManifestIdentities` | pkg/snapshotsdk/subtree_identities.go:81-123 | the union is answered if and only if every child is bound and complete and the gate is open, and holds one identity per captured object; never a partial union; otherwise the first unsettled child is reported |
| `SubtreeUnion.FetchChild` | pkg/snapshotsdk/subtree_identities.go:128-165 | one child: its captured identities exactly when it is bound and complete, else pending or failed by the kind of its defect |
| `SubtreeUnion.RepeatedObjectIsPending` | pkg/snapshotsdk/subtree_identities.go:151-165 | a subtree that captures one object twice is reported as pending, like one still being persisted |
| `SubtreeUnion.UnionAnswersForChildren` | pkg/snapshotsdk/subtree_identities.go:96-123 | although it de-duplicates by its own key, the union renders exactly the exclude keys of what the children captured |
| `SubtreeUnion.AnswerIsScoped` | images/state-snapshotter-controller/internal/usecase/subtree_manifest_identities.go:113-133 | no answered identity spells the cluster scope as a namespace, and Namespace objects have none |
| `SubtreeUnion.UnionPlansByExclusion` | images/state-snapshotter-controller/internal/usecase/root_capture_run_exclude.go:98-123 | a node that plans with the answered union plans by exclusion in the sense of the tree theorems |
| `SubtreeUnion.AnsweredNodeExactly` | pkg/snapshotsdk/subtree_identities.go:81-123 | from the answer to the finished node: its subtree is free of double captures if and only if its children are disjoint and captured no Namespace object it adds; its own call is complete if and only if, besides, the node is healthy; and nothing is lost |
| `TreeExclusion.NoDoubleCapture` | images/state-snapshotter-controller/internal/usecase/root_capture_run_exclude.go:98-123 | an aggregator planned as base minus its children's identities and owned PVCs: its subtree is free of duplicates (complete) if and only if each child's is, the children are pairwise disjoint, and no child captured a Namespace object it adds; no premise on what it captured |
| `TreeExclusion.TreeFreeOfDuplicates` | images/state-snapshotter-controller/internal/usecase/root_capture_run_exclude.go:98-123 | a tree planned by exclusion at every level, leaves distinct: free of double capture (complete) if and only if the children's subtrees are pairwise disjoint at every node and nobody below the root captured the Namespace object |
| `TreeExclusion.PlanExcludesChildren` | images/state-snapshotter-controller/internal/usecase/root_capture_run_exclude.go:90-123 | a planned node captures each object once, and nothing its children do - always if it does not add the Namespace object, else if and only if no child captured that object; the order of objects in its checkpoint is free |
| `TreeExclusion.NothingLost` | images/state-snapshotter-controller/internal/usecase/root_capture_run_exclude.go:98-123 | every target the node planned from is captured in its subtree or is an owned PVC |
| `TreeExclusion.TreeLosesNothing` | images/state-snapshotter-controller/internal/usecase/root_capture_run_exclude.go:98-123 | every target any aggregator of the tree planned from is captured in the tree or is a PVC it owns |
| `TreeExclusion.TreeCallAnswers` | images/state-snapshotter-controller/internal/usecase/subtree_manifest_identities.go:42-109 | on such a tree the root's call answers if and only if all nodes are healthy, siblings disjoint and the Namespace object captured once; the answer names every planned target, and on healthy nodes the only error is Conflict |
| `TreeExample.NestedAggregatorsComplete` | images/state-snapshotter-controller/internal/usecase/root_capture_run_exclude.go:98-123 | an aggregator below an aggregator that meets every premise of the tree theorems, with a complete answer |
| `Packing.GroupObjectsBySize` | images/state-snapshotter-controller/internal/usecase/import_manifest_reconstruct.go:234-261 | the loop computes the greedy grouping that the results below are about |
| `Packing.PackingIsSound` | images/state-snapshotter-controller/internal/usecase/import_manifest_reconstruct.go:234-261 | groups concatenate to the input in order, none is empty, several objects only within the limit - for any size function, failures included |
| `Packing.PackingIsTight` | images/state-snapshotter-controller/internal/usecase/import_manifest_reconstruct.go:234-261 | no group can take the first object of the next |
| `Packing.GroupsEndRightly` | images/state-snapshotter-controller/internal/usecase/import_manifest_reconstruct.go:234-261 | for any measure, failures included: a group ends because the next object would put it over the limit, or does not marshal and stands alone, or because it was such an object |
| `Packing.GreedyIsOptimal` | images/state-snapshotter-controller/internal/usecase/import_manifest_reconstruct.go:234-261 | with sizes monotone on stretches no lawful contiguous partition has fewer groups |
| `Packing.GreedyNeedsMonotone` | images/state-snapshotter-controller/internal/usecase/import_manifest_reconstruct.go:234-261 | without monotone sizes greedy packing can be beaten |
| `ChunkCodec.WriteChunks` | images/state-snapshotter-controller/internal/usecase/import_manifest_reconstruct.go:162-230 | existing chunks stay and missing ones are created; the upload is cut in order into chunks that have at most 800000 compressed bytes if they hold several objects, could not take the next object, and are recorded with their true counts, sizes and checksums |
| `ChunkCodec.GroupsHold` | images/state-snapshotter-controller/internal/usecase/import_manifest_reconstruct.go:172-176 | the groups of an upload hold it whole and in order; an empty upload is one empty chunk |
| `ChunkCodec.FewestChunks` | images/state-snapshotter-controller/internal/usecase/import_manifest_reconstruct.go:162-261 | with gzip sizes monotone on the upload no cut within the limit has fewer chunks |
| `ChunkCodec.ReadsInOrderExactly` | images/state-snapshotter-controller/internal/usecase/import_manifest_reconstruct.go:283-345 | on any records over any chunks, legacy ones without a checksum included: which lists make a read succeed, and with what |
| `ChunkCodec.ListedInAnyOrder` | images/state-snapshotter-controller/internal/usecase/import_manifest_reconstruct.go:283-301 | the order in which the records of an upload are listed does not matter to the reader |
| `ChunkCodec.CollectOrdered` | images/state-snapshotter-controller/internal/usecase/import_manifest_reconstruct.go:283-301 | the loop computes the ordered read |
| `ChunkCodec.OrderedReadExactly` | images/state-snapshotter-controller/internal/usecase/import_manifest_reconstruct.go:283-345 | over any stored chunks, reading what one upload recorded succeeds if and only if its items are maps (or null) and every chunk has the recorded checksum, and then returns that upload in order |
| `UploadProtocol.StepKeeps` | images/state-snapshotter-controller/internal/usecase/import_manifest_reconstruct.go:93-157 | every step of any number of crashing, interleaved attempts keeps the store invariant |
| `UploadProtocol.NoMixedCheckpoint` | images/state-snapshotter-controller/internal/usecase/import_manifest_reconstruct.go:93-230 | a Ready checkpoint is read back, if at all, as the whole payload of the last committer; it can be read if and only if each chunk's first writer had the same group there |
| `UploadProtocol.ReadyIsCut` | images/state-snapshotter-controller/internal/usecase/import_manifest_reconstruct.go:93-230 | every Ready state of every run: the recorded chunks cut the committed payload within the size limit, totals included, and a stored chunk with the recorded checksum unpacks to its part |
| `UploadProtocol.ReadyIsSmallest` | images/state-snapshotter-controller/internal/usecase/import_manifest_reconstruct.go:162-261 | and with monotone gzip sizes no lawful cut of that payload has fewer chunks |
| `UploadProtocol.FirstGetExactly` | images/state-snapshotter-controller/internal/usecase/import_manifest_reconstruct.go:100-118 | the first Get decides before the payload is looked at: success on a Ready checkpoint, failure only for a malformed payload otherwise |
| `UploadProtocol.ChunksStay` | images/state-snapshotter-controller/internal/usecase/import_manifest_reconstruct.go:180-228 | no upload changes a chunk that is there, and those of a living checkpoint are not collected |
| `UploadProtocol.CreateExactly` | images/state-snapshotter-controller/internal/usecase/import_manifest_reconstruct.go:120-138 | an existing checkpoint is not created again; a new one has a UID of its own and is not Ready |
| `UploadProtocol.SuccessExactly` | images/state-snapshotter-controller/internal/usecase/import_manifest_reconstruct.go:93-157 | an attempt succeeds exactly if its first Get finds the checkpoint Ready or its own status update is accepted |
| `UploadProtocol.CrashSafeRoundTrip` | images/state-snapshotter-controller/internal/usecase/import_manifest_reconstruct.go:93-230 | attempts that carry one list: every Ready state reads back that list, with matching totals |
| `UploadProtocol.EmptyUpload` | images/state-snapshotter-controller/internal/usecase/import_manifest_reconstruct.go:172-176 | an empty list becomes one empty chunk and reads back empty |
| `UploadRerun.CrashThenOtherPayload` | images/state-snapshotter-controller/internal/usecase/import_manifest_reconstruct.go:202-216 | a crashed attempt followed by one with another payload leaves a Ready checkpoint that is readable if and only if the groups agree wherever both uploads have one |
| `UploadRerun.ReadyIsOverwritten` | images/state-snapshotter-controller/internal/usecase/import_manifest_reconstruct.go:100-157 | an attempt that looked before the checkpoint became Ready and re-reads it afterwards commits its own payload over it, under the same UID |
| `UploadFinality.CommitsOverExactly` | images/state-snapshotter-controller/internal/usecase/import_manifest_reconstruct.go:134-156 | over any run and payloads: a status update on a Ready checkpoint is accepted if and only if the attempt's second Get saw that very Ready version, and then replaces the payload under the same UID; Ready is not tested again after that Get |
| `UploadFinality.NeverRegottenIsFinal` | images/state-snapshotter-controller/internal/usecase/import_manifest_reconstruct.go:134-156 | as long as no attempt re-gets a Ready checkpoint, no Ready status is ever replaced under its UID |
| `UploadFinality.ReplaceableExactly` | images/state-snapshotter-controller/internal/usecase/import_manifest_reconstruct.go:100-156 | a Ready state can still have its payload replaced under its UID if and only if an attempt with another payload is before its second Get or holds the current version; attempts that begin later never can |
| `UploadFinality.ReadyIsPinned` | images/state-snapshotter-controller/internal/usecase/import_manifest_reconstruct.go:89-107 | without such an attempt every continuation leaves the status as it is |
| `UploadRerun.OnePayloadIsPinned` | images/state-snapshotter-controller/internal/usecase/import_manifest_reconstruct.go:93-157 | the special case of one payload: what is Ready under a UID never changes |
| `LawfulCodec.LawfulCodecExists` | images/state-snapshotter-controller/internal/usecase/import_manifest_reconstruct.go:180-192 | encodings with inverses and a separating hash exist, so the store theorems are not vacuous |
| `KeyValue.ConvertKeyValueArrayToMap` | images/state-snapshotter-controller/internal/usecase/archive_service.go:406-436 | the loop computes the pair conversion: non-pairs skipped, later keys win |
| `KeyValue.ConvertMapSliceToMap` | images/state-snapshotter-controller/internal/usecase/archive_service.go:442-545 | the recursion with its loops computes the tree conversion |
| `KeyValue.LastPairWins` | images/state-snapshotter-controller/internal/usecase/archive_service.go:406-436 | on any list taken as pairs the last pair under a key decides, elements that are not pairs have no part, and other keys count as printed |
| `KeyValue.KeyHasPair` | images/state-snapshotter-controller/internal/usecase/archive_service.go:406-436 | a converted key comes from a pair |
| `KeyValue.ConversionReadsExactly` | images/state-snapshotter-controller/internal/usecase/archive_service.go:406-545 | every mixture of the two spellings - maps holding lists of pairs, lists of pairs holding maps - is read back if and only if no map written as a list is empty and no list is written with a pair at its head |
| `KeyValue.ConversionInvertsEncoding` | images/state-snapshotter-controller/internal/usecase/archive_service.go:406-545 | converting the pair-list encoding of a tree gives the tree if and only if it holds no empty map |
| `KeyValue.FixedExactly` | images/state-snapshotter-controller/internal/usecase/archive_service.go:442-545 | conversion leaves a tree alone if and only if no list in it is headed by a Key/Value map; converting twice never repairs it |
| `KeyValue.TwiceFromEncoding` | images/state-snapshotter-controller/internal/usecase/archive_service.go:316-402 | two conversions of an encoding give the tree if and only if both conditions hold |
| `KeyValue.ArchiveReturnsObject` | images/state-snapshotter-controller/internal/usecase/archive_service.go:316-402 | an object through decode and archive, in either stored form, with its exact condition |
| `ParallelReader.DecodeChunkData` | images/state-snapshotter-controller/internal/usecase/archive_service.go:259-361 | maps and pair lists are converted, other items skipped; a null item ends it, see Left out |
| `ParallelReader.FetchChunk` | images/state-snapshotter-controller/internal/usecase/archive_service.go:215-241 | one goroutine: missing chunk, foreign checkpoint, wrong index, bad data, or its objects |
| `ParallelReader.CollectObjects` | images/state-snapshotter-controller/internal/usecase/archive_service.go:184-256 | any order of completion: succeeds if and only if the indices are 0..n-1, there is a chunk and all are readable; the result lists the chunks' objects in completion order; each error belongs to its check |
| `ParallelReader.AnyOrder` | images/state-snapshotter-controller/internal/usecase/archive_service.go:244-248 | the objects collected do not depend on the order of completion |
| `ParallelReader.NormalisedOneByOne` | images/state-snapshotter-controller/internal/usecase/archive_service.go:316-361 | each map is converted, each list read as pairs, anything else left out, in order |
| `ParallelReader.ParallelReadExactly` | images/state-snapshotter-controller/internal/usecase/archive_service.go:184-361 | on what one upload recorded, over any stored chunks: the exact success condition, and the normalised upload up to order |
| `ParallelReader.ParallelNeverBlends` | images/state-snapshotter-controller/internal/usecase/archive_service.go:184-256 | over any run of uploads a successful read is the last committer's whole upload; on uploads of maps it succeeds if and only if the ordered reader does |
| `ParallelReader.NormalisedMaps` | images/state-snapshotter-controller/internal/usecase/archive_service.go:346-358 | normalising a list of maps returns it if and only if none holds a list headed by a pair |
| `ParallelReader.ParallelRoundTrip` | images/state-snapshotter-controller/internal/usecase/archive_service.go:184-256 | attempts that carry one list of maps: every Ready state is collected, in every order, as each map converted, once; and the ordered reader returns the list |
| `ArchiveCache.CacheKeyExactly` | images/state-snapshotter-controller/internal/usecase/archive_service.go:555-557 | cache keys are equal if and only if name and UID are, for names without a colon |
| `ArchiveCache.Cache.Get` | images/state-snapshotter-controller/internal/usecase/archive_service.go:560-575 | an absent or expired entry is a miss |
| `ArchiveCache.Cache.CleanupExpired` | images/state-snapshotter-controller/internal/usecase/archive_service.go:590-600 | deleting while ranging leaves exactly the entries that are not expired |
| `ArchiveCache.GetArchiveFromCheckpoint` | images/state-snapshotter-controller/internal/usecase/archive_service.go:98-180 | hit before any check; otherwise the exact refusals, and a fill under the checkpoint's own UID |
| `ArchiveCache.ServesLastFill` | images/state-snapshotter-controller/internal/usecase/archive_service.go:98-180 | over any fills and cleanups with a clock that does not run back, a get answers with the latest fill of that name and UID while it is at most five minutes old |
| `ArchiveCache.CleanupVisibleExactly` | images/state-snapshotter-controller/internal/usecase/archive_service.go:560-600 | CleanupExpired changes a later get if and only if the clock ran back |
| `ArchiveCache.HitsAreTrue` | images/state-snapshotter-controller/internal/usecase/archive_service.go:98-180 | when a Ready checkpoint is immutable per UID every hit holds what the slow path collects, up to order |
| `ArchiveCache.CreateJsonArchive` | images/state-snapshotter-controller/internal/usecase/archive_service.go:367-402 | every collected object is converted once more |
| `ArchiveCache.OneUploadIsImmutable` | images/state-snapshotter-controller/internal/usecase/archive_service.go:184-256 | the assumption of the cache holds while all uploads carry one list of maps |
| `GvkRegistry.ParsesBackExactly` | images/state-snapshotter-controller/pkg/snapshot/gvk_registry.go:338-352 | a kind survives printing and parsing if and only if its group has no slash, nor its version when the group is empty |
| `GvkRegistry.GroupKindExactly` | images/state-snapshotter-controller/pkg/snapshot/gvk_registry.go:285-287 | group/kind keys separate kinds whose groups hold no slash |
| `GvkRegistry.GvkTable.RegisterSnapshotGvk` | images/state-snapshotter-controller/pkg/snapshot/gvk_registry.go:78-89 | new state and result of the registration |
| `GvkRegistry.GvkTable.RegisterSnapshotContentGvk` | images/state-snapshotter-controller/pkg/snapshot/gvk_registry.go:95-107 | new state and result, default mapping included |
| `GvkRegistry.GvkTable.RegisterDefaultContentMapping` | images/state-snapshotter-controller/pkg/snapshot/gvk_registry.go:270-283 | a default mapping never overrides another |
| `GvkRegistry.GvkTable.RegisterSnapshotContentMapping` | images/state-snapshotter-controller/pkg/snapshot/gvk_registry.go:111-135 | new state and result; a failure keeps what was registered before it |
| `GvkRegistry.GvkTable.RevertSnapshotRegistrationIfExact` | images/state-snapshotter-controller/pkg/snapshot/gvk_registry.go:141-162 | all four entries go, or nothing changes |
| `GvkRegistry.GvkTable.ResolveSnapshotContentGvk` | images/state-snapshotter-controller/pkg/snapshot/gvk_registry.go:211-235 | explicit mapping, registered default, derived fallback |
| `GvkRegistry.GvkTable.ResolveSnapshotContentGvkBySnapshotGvk` | images/state-snapshotter-controller/pkg/snapshot/gvk_registry.go:198-243 | resolution only for the exact registered snapshot GVK |
| `GvkRegistry.GvkTable.MarkRequiresDataArtifact` | images/state-snapshotter-controller/pkg/snapshot/gvk_registry.go:167-172 | only that flag changes; the last value wins |
| `GvkRegistry.RegisteredGroups` | images/state-snapshotter-controller/pkg/snapshot/gvk_registry.go:338-352 | what the builder registers has slash-free groups, so its group/kind keys are unambiguous |
| `GvkRegistry.GvkTable.ResolveSnapshotKindByContentGvk` | images/state-snapshotter-controller/pkg/snapshot/gvk_registry.go:247-268 | explicit mapping, or the suffix rule within one group |
| `GvkRegistry.NewFromParallelPairs` | images/state-snapshotter-controller/pkg/snapshot/gvk_registry.go:291-309 | the builder succeeds if and only if the lists are equally long and every registration does |
| `GvkRegistry.BuilderSucceedsExactly` | images/state-snapshotter-controller/pkg/snapshot/gvk_registry.go:291-309 | on any kinds: it succeeds if and only if entries of one snapshot kind agree once printed and parsed and contents of one kind print one API version |
| `GvkRegistry.BuildsExactly` | images/state-snapshotter-controller/pkg/snapshot/gvk_registry.go:111-135 | the tables then hold the pairs and no other kind |
| `GvkRegistry.ResolvesExactly` | images/state-snapshotter-controller/pkg/snapshot/gvk_registry.go:189-243 | snapshot and content resolution return the pairs and fail for every other kind |
| `GvkRegistry.BuilderIgnoresOrder` | images/state-snapshotter-controller/pkg/snapshot/gvk_registry.go:291-309 | order and repetition decide neither success nor resolution by snapshot kind |
| `GvkRegistry.ReverseIsLast` | images/state-snapshotter-controller/pkg/snapshot/gvk_registry.go:247-268 | reverse resolution returns the last snapshot kind of that content, whatever default mappings came before |
| `GvkRegistry.RollbackExactly` | images/state-snapshotter-controller/pkg/snapshot/gvk_registry.go:111-162 | rolling back a mapping that succeeded restores the registry if and only if none of its four entries was there (or the rollback refused and there was nothing to undo) |
| `GvkRegistry.RollbackOfShared` | images/state-snapshotter-controller/pkg/snapshot/gvk_registry.go:137-162 | rolling back one of two kinds that share a content takes the content from the other, with the exact case in which its reverse resolution survives |
| `GvkRegistry.HistoryCoherent` | images/state-snapshotter-controller/pkg/snapshot/gvk_registry.go:44-59 | after any history of operations a content kind resolves for exactly the registered snapshot kinds |
| `GvkRegistry.UnmappedResolves` | images/state-snapshotter-controller/pkg/snapshot/gvk_registry.go:211-235 | after any history a kind without an explicit mapping resolves to what is registered for its name + "Content", else to that kind in its own group and version |
| `GvkRegistry.UnmappedLeadsBack` | images/state-snapshotter-controller/pkg/snapshot/gvk_registry.go:247-268 | and a content nothing was given to leads back exactly to the kind of that name in that group |
| `GvkRegistry.DefaultLeadsBack` | images/state-snapshotter-controller/pkg/snapshot/gvk_registry.go:95-107 | the first registration of a name + "Content" leads back to that name, unless its group and kind were given to another |
| `GvkRegistry.ExactKindOnly` | images/state-snapshotter-controller/pkg/snapshot/gvk_registry.go:238-243 | resolution by a full snapshot kind answers for exactly what is registered |
| `GvkRegistry.Bootstrap` | images/state-snapshotter-controller/internal/controllers/genericbinder/controller.go:105-120 | the constructor's registrations as a loop |
| `GvkRegistry.BootstrapExactly` | images/state-snapshotter-controller/internal/controllers/genericbinder/controller.go:105-120 | bootstrap of any list of kinds succeeds if and only if kinds of one name agree, and then content resolution and reverse resolution invert each other |

## Left out

- The volume leg (`EnsureVolumeCapture`, the volume capture request): it probes the cache and reads again, so the
  one-step argument of the manifest leg does not transfer.
- Other writers of the published children (the root's orphan VolumeSnapshot wave): the transition system has the SDK
  calls, the core, and writes that leave these fields alone.
- Deletion of the snapshot object, NotFound and other API errors of the capture calls: a call hit by one ends without
  a further step, which every run already allows; the imperative methods do not return such errors.
- Parents racing on one child's owner references: each `ensureChild` call is one step.
- The content controller's aggregation and Ready mirror: environment steps that respect latch before reap.
- Ordering of equal chunk indices: the ordered reader sorts stably here; recorded indices are distinct.
- The limit of ten concurrent goroutines and their timeouts: every order of completion is allowed.
- The legacy branches of the normaliser for Go-only map types, which JSON decoding never produces.
- Truncation of hashed names: chunk names are taken as injective in UID and index.
- The archive's own checksum, JSON text layout and size warning.
- Error texts and HTTP codes, except where a caller branches on them.
- The registry's two sorted listings and `RequiresDataArtifact`'s read: easy members.
- Discovery of the namespace base, the veto selector and the unreadable-resource report of the root plan: a parameter.
- HTTP handlers, webhook, authentication, metrics, logging and the release tooling.
- ParallelReader.DecodeChunkData: a null item is an ordinary failed result here; in the source asking for its type
  panics inside the goroutine (archive_service.go:341-346), so the process crashes instead of the read failing.
- CaptureTheorems.AtMostOneRequest: "at most once" is stated for runs in which refresh and Create are one step and no
  request expires, because without the first it is false (RecreationHappens) and an expiry lets a later call create
  anew before the latch; that nothing is created after the latch needs no such restriction (NothingCreatedAfterLatch).
- UploadRerun.OnePayloadIsPinned: one payload only; UploadFinality.ReadyIsPinned has the exact condition.
- CaptureRuns.ChildrenCallRuns: others may do anything between the last child and the first patch and before each
  patch attempt, but have no turn between two children; in general runs they do.
- Deletion of child objects: no step deletes one, so a child once ensured exists in every later state.
- GvkRegistry.BuilderIgnoresOrder: says nothing of reverse resolution, which does depend on the order (ReverseIsLast).
