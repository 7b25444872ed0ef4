/** The aggregator's own manifest targets: the namespace base minus what its children capture. */
module RootTargets {
  import opened Ordering
  import opened KeyText
  import opened Refs
  import opened ManifestKeys

  const NAMESPACE_KIND := "Namespace"

  function NamespaceTarget(namespace: string): Ref {
    Ref("v1", NAMESPACE_KIND, namespace)
  }

  function Kept(targets: seq<Ref>, exclude: set<string>, namespace: string): seq<Ref> {
    if targets == [] then []
    else
      var t := targets[|targets| - 1];
      Kept(targets[..|targets| - 1], exclude, namespace) + if TargetDedupKey(namespace, t) in exclude then [] else [t]
  }

  /** An empty exclude set returns the list as it is, unsorted. */
  function Filtered(targets: seq<Ref>, exclude: set<string>, namespace: string): seq<Ref> {
    if exclude == {} then targets else Sort(RefLe, Kept(targets, exclude, namespace))
  }

  method FilterManifestTargets(targets: seq<Ref>, exclude: set<string>, namespace: string) returns (out: seq<Ref>)
    ensures out == Filtered(targets, exclude, namespace)
  {
    if exclude == {} { return targets; }
    out := [];
    for i := 0 to |targets|
      invariant out == Kept(targets[..i], exclude, namespace)
    {
      assert targets[..i + 1][..i] == targets[..i];
      var k := TargetDedupKey(namespace, targets[i]);
      if k in exclude { continue; }
      out := out + [targets[i]];
    }
    assert targets[..|targets|] == targets;
    out := Sort(RefLe, out);
  }

  ghost function Excludes(owned: seq<Ref>, captured: seq<Identity>, namespace: string): set<string> {
    (set t | t in owned :: TargetDedupKey(namespace, t)) + (set id | id in captured :: ExcludeKey(id))
  }

  /** The targets an aggregator plans out of `all`: minus its owned PVCs and what its children captured. */
  ghost function PlanOf(all: seq<Ref>, owned: seq<Ref>, captured: seq<Identity>, namespace: string): seq<Ref> {
    Filtered(all, Excludes(owned, captured, namespace), namespace)
  }

  /** The root appends the Namespace object to its base. */
  ghost function Plan(base: seq<Ref>, owned: seq<Ref>, captured: seq<Identity>, namespace: string): seq<Ref> {
    PlanOf(base + [NamespaceTarget(namespace)], owned, captured, namespace)
  }

  /** The exclude computation of BuildRootNamespaceManifestCaptureTargets. */
  method BuildRootTargets(base: seq<Ref>, owned: seq<Ref>, captured: seq<Identity>, namespace: string) returns (out: seq<Ref>)
    ensures out == Plan(base, owned, captured, namespace)
  {
    var all := base + [NamespaceTarget(namespace)];
    var exclude: set<string> := {};
    for i := 0 to |owned|
      invariant exclude == set t | t in owned[..i] :: TargetDedupKey(namespace, t)
    {
      assert owned[..i + 1] == owned[..i] + [owned[i]];
      exclude := exclude + {TargetDedupKey(namespace, owned[i])};
    }
    assert owned[..|owned|] == owned;
    ghost var fromOwned := exclude;
    for i := 0 to |captured|
      invariant exclude == fromOwned + set id | id in captured[..i] :: ExcludeKey(id)
    {
      assert captured[..i + 1] == captured[..i] + [captured[i]];
      exclude := exclude + {ExcludeKey(captured[i])};
    }
    assert captured[..|captured|] == captured;
    out := FilterManifestTargets(all, exclude, namespace);
  }

  lemma {:induction false} KeptCount(targets: seq<Ref>, exclude: set<string>, namespace: string, t: Ref)
    ensures multiset(Kept(targets, exclude, namespace))[t] ==
              if TargetDedupKey(namespace, t) in exclude then 0 else multiset(targets)[t]
  {
    if targets != [] {
      var p, x := targets[..|targets| - 1], targets[|targets| - 1];
      KeptCount(p, exclude, namespace, t);
      assert targets == p + [x];
      assert multiset(targets) == multiset(p) + multiset([x]);
      assert Kept(targets, exclude, namespace) == Kept(p, exclude, namespace) + if TargetDedupKey(namespace, x) in exclude then [] else [x];
    }
  }

  /** Every target keeps its multiplicity or disappears altogether, by its key alone. */
  lemma PlanCount(all: seq<Ref>, owned: seq<Ref>, captured: seq<Identity>, namespace: string, t: Ref)
    ensures multiset(PlanOf(all, owned, captured, namespace))[t] ==
              if TargetDedupKey(namespace, t) in Excludes(owned, captured, namespace) then 0 else multiset(all)[t]
  {
    var exclude := Excludes(owned, captured, namespace);
    KeptCount(all, exclude, namespace, t);
    RefOrder();
    SortSpec(RefLe, Kept(all, exclude, namespace));
  }

  /** With nothing to exclude the list is planned as it is, otherwise in the published order. */
  lemma PlanIsOrdered(all: seq<Ref>, owned: seq<Ref>, captured: seq<Identity>, namespace: string)
    ensures owned == [] && captured == [] ==> PlanOf(all, owned, captured, namespace) == all
    ensures owned != [] || captured != [] ==>
              var plan := PlanOf(all, owned, captured, namespace);
              forall i, j :: 0 <= i < j < |plan| ==> plan[i] == plan[j] || Precedes(plan[i], plan[j])
  {
    var exclude := Excludes(owned, captured, namespace);
    if owned != [] { assert TargetDedupKey(namespace, owned[0]) in exclude; }
    if captured != [] { assert ExcludeKey(captured[0]) in exclude; }
    RefOrder();
    LexOrder();
    SortSpec(RefLe, Kept(all, exclude, namespace));
    var plan := Sort(RefLe, Kept(all, exclude, namespace));
    forall i, j | 0 <= i < j < |plan| ensures plan[i] == plan[j] || Precedes(plan[i], plan[j]) {
      assert RefLe(plan[i], plan[j]);
    }
  }

  predicate CleanNamespace(namespace: string) {
    BarFree(namespace) && namespace != "" && namespace != CLUSTER
  }

  ghost predicate CleanInputs(base: seq<Ref>, owned: seq<Ref>, captured: seq<Identity>, namespace: string) {
    && CleanNamespace(namespace)
    && (forall t :: t in base || t in owned ==> KeyClean(t))
    && (forall id :: id in captured ==> Clean(id) && id.namespace != CLUSTER)
  }

  /** `id` is the object a target names in the snapshot's namespace. */
  predicate Names(t: Ref, namespace: string, id: Identity) {
    SameObject(id, Identity(t.apiVersion, t.kind, namespace, t.name, ""))
  }

  /** The partition: a target is planned exactly when it is neither one of the owned PVC targets nor an
      object captured below. */
  lemma PlanPartition(all: seq<Ref>, owned: seq<Ref>, captured: seq<Identity>, namespace: string, t: Ref)
    requires CleanInputs(all, owned, captured, namespace) && t in all
    ensures t in PlanOf(all, owned, captured, namespace) <==>
              t !in owned && !exists id :: id in captured && Names(t, namespace, id)
  {
    PlanCount(all, owned, captured, namespace, t);
    assert t in multiset(all);
    forall o | o in owned ensures TargetDedupKey(namespace, o) == TargetDedupKey(namespace, t) <==> o == t {
      RenderInjective(o.apiVersion, o.kind, namespace, o.name, t.apiVersion, t.kind, namespace, t.name);
    }
    forall id | id in captured ensures TargetDedupKey(namespace, t) == ExcludeKey(id) <==> Names(t, namespace, id) {
      TargetMeetsIdentity(namespace, t, id);
    }
    var plan := PlanOf(all, owned, captured, namespace);
    assert t in plan <==> t in multiset(plan);
    if t !in owned && !exists id :: id in captured && Names(t, namespace, id) {
      assert TargetDedupKey(namespace, t) !in Excludes(owned, captured, namespace);
    }
  }

  lemma RootPartition(base: seq<Ref>, owned: seq<Ref>, captured: seq<Identity>, namespace: string, t: Ref)
    requires CleanInputs(base, owned, captured, namespace) && t in base + [NamespaceTarget(namespace)]
    ensures t in Plan(base, owned, captured, namespace) <==>
              t !in owned && !exists id :: id in captured && Names(t, namespace, id)
  {
    assert KeyClean(NamespaceTarget(namespace));
    PlanPartition(base + [NamespaceTarget(namespace)], owned, captured, namespace, t);
  }

  /** The Namespace object is always planned when captured Namespace objects are cluster-scoped, as they
      are, and the owned targets are PVCs - even if a descendant captured the same Namespace. */
  lemma NamespaceAlwaysPlanned(base: seq<Ref>, owned: seq<Ref>, captured: seq<Identity>, namespace: string)
    requires CleanInputs(base, owned, captured, namespace)
    requires forall t :: t in owned ==> t.kind == "PersistentVolumeClaim"
    requires forall id :: id in captured && id.kind == NAMESPACE_KIND ==> id.namespace == ""
    ensures Ref("v1", "Namespace", namespace) in Plan(base, owned, captured, namespace)
  {
    RootPartition(base, owned, captured, namespace, NamespaceTarget(namespace));
  }
}
