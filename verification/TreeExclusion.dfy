/** Nothing is captured twice and nothing is lost on a content tree whose aggregators plan by exclusion. */
module TreeExclusion {
  import opened Ordering
  import opened Refs
  import opened OwnerRef
  import opened ManifestKeys
  import opened ContentGraph
  import opened Subtree
  import opened RootTargets

  ghost predicate HasKey(g: Graph, n: string, key: string) {
    exists at: (string, nat) :: Slot(g, n, at) && KeyAt(g, at) == key
  }

  /** No object is captured below both children. */
  ghost predicate Apart(g: Graph, a: string, b: string) {
    forall key :: !(HasKey(g, a, key) && HasKey(g, b, key))
  }

  ghost predicate SiblingsApart(g: Graph, n: string) {
    forall i, j :: 0 <= i < j < |Kids(g, n)| ==> Apart(g, Kids(g, n)[i], Kids(g, n)[j])
  }

  ghost predicate OwnDistinct(g: Graph, n: string) {
    NoDup(KeysOf(Own(g, n)))
  }

  /** What the node captures itself is captured below none of its children. */
  ghost predicate OwnExcludes(g: Graph, n: string) {
    forall i, k :: 0 <= i < |Own(g, n)| && 0 <= k < |Kids(g, n)| ==> !HasKey(g, Kids(g, n)[k], KeyAt(g, (n, i)))
  }

  lemma SlotBelow(g: Graph, n: string, k: nat, at: (string, nat))
    requires k < |Kids(g, n)| && Slot(g, Kids(g, n)[k], at)
    ensures Slot(g, n, at)
  {
    ReachSelf(Children(g), n);
    ReachStep(Children(g), n, n, k);
    ReachTrans(Children(g), n, Kids(g, n)[k], at.0);
  }

  lemma SlotSplit(g: Graph, n: string, at: (string, nat)) returns (k: nat)
    requires Slot(g, n, at) && at.0 != n
    ensures k < |Kids(g, n)| && Slot(g, Kids(g, n)[k], at)
  {
    k := ReachSplit(Children(g), n, at.0);
  }

  lemma DistinctBelow(g: Graph, n: string, k: nat)
    requires DistinctKeys(g, n) && k < |Kids(g, n)|
    ensures DistinctKeys(g, Kids(g, n)[k])
  {
    forall a: (string, nat), b: (string, nat)
      | Slot(g, Kids(g, n)[k], a) && Slot(g, Kids(g, n)[k], b) && KeyAt(g, a) == KeyAt(g, b)
      ensures a == b
    {
      SlotBelow(g, n, k, a);
      SlotBelow(g, n, k, b);
    }
  }

  /** On a tree, distinct keys at a node keep its children apart. */
  lemma DistinctSiblings(g: Graph, n: string)
    requires TreeShaped(Children(g), n) && DistinctKeys(g, n)
    ensures SiblingsApart(g, n)
  {
    ReachSelf(Children(g), n);
    forall i, j, key | 0 <= i < j < |Kids(g, n)| ensures !(HasKey(g, Kids(g, n)[i], key) && HasKey(g, Kids(g, n)[j], key)) {
      if HasKey(g, Kids(g, n)[i], key) && HasKey(g, Kids(g, n)[j], key) {
        var a: (string, nat) :| Slot(g, Kids(g, n)[i], a) && KeyAt(g, a) == key;
        var b: (string, nat) :| Slot(g, Kids(g, n)[j], b) && KeyAt(g, b) == key;
        SlotBelow(g, n, i, a);
        SlotBelow(g, n, j, b);
        SiblingsDisjoint(Children(g), n, n, i, j, a.0);
      }
    }
  }

  lemma OwnSlots(g: Graph, n: string, a: (string, nat), b: (string, nat))
    requires OwnDistinct(g, n) && a.0 == n == b.0 && a.1 < |Own(g, n)| && b.1 < |Own(g, n)|
    ensures KeyAt(g, a) == KeyAt(g, b) ==> a == b
  {
    assert KeysOf(Own(g, n))[a.1] == KeyAt(g, a) && KeysOf(Own(g, n))[b.1] == KeyAt(g, b);
  }

  lemma OwnAgainstBelow(g: Graph, n: string, a: (string, nat), b: (string, nat))
    requires OwnExcludes(g, n) && a.0 == n && a.1 < |Own(g, n)| && Slot(g, n, b) && b.0 != n
    ensures KeyAt(g, a) != KeyAt(g, b)
  {
    var k := SlotSplit(g, n, b);
    assert a == (n, a.1);
    assert !HasKey(g, Kids(g, n)[k], KeyAt(g, (n, a.1)));
  }

  /** A node whose own captures are apart from its children's: its subtree holds no duplicate exactly when no
      child's does and the children's sets are pairwise disjoint. */
  lemma ApartNode(g: Graph, p: string)
    requires TreeShaped(Children(g), p) && OwnDistinct(g, p) && OwnExcludes(g, p)
    ensures DistinctKeys(g, p) <==>
              SiblingsApart(g, p) && forall k :: 0 <= k < |Kids(g, p)| ==> DistinctKeys(g, Kids(g, p)[k])
  {
    if DistinctKeys(g, p) {
      DistinctSiblings(g, p);
      forall k | 0 <= k < |Kids(g, p)| ensures DistinctKeys(g, Kids(g, p)[k]) { DistinctBelow(g, p, k); }
    }
    if SiblingsApart(g, p) && forall k :: 0 <= k < |Kids(g, p)| ==> DistinctKeys(g, Kids(g, p)[k]) {
      forall a: (string, nat), b: (string, nat) | Slot(g, p, a) && Slot(g, p, b) && KeyAt(g, a) == KeyAt(g, b) ensures a == b {
        JoinDistinct(g, p, a, b);
      }
    }
  }

  lemma JoinDistinct(g: Graph, p: string, a: (string, nat), b: (string, nat))
    requires OwnDistinct(g, p) && OwnExcludes(g, p) && SiblingsApart(g, p)
    requires forall k :: 0 <= k < |Kids(g, p)| ==> DistinctKeys(g, Kids(g, p)[k])
    requires Slot(g, p, a) && Slot(g, p, b) && KeyAt(g, a) == KeyAt(g, b)
    ensures a == b
  {
    if a.0 == p && b.0 == p {
      OwnSlots(g, p, a, b);
    } else if a.0 == p {
      OwnAgainstBelow(g, p, a, b);
    } else if b.0 == p {
      OwnAgainstBelow(g, p, b, a);
    } else {
      var i := SlotSplit(g, p, a);
      var j := SlotSplit(g, p, b);
      assert i < j ==> Apart(g, Kids(g, p)[i], Kids(g, p)[j]);
      assert j < i ==> Apart(g, Kids(g, p)[j], Kids(g, p)[i]);
      assert HasKey(g, Kids(g, p)[i], KeyAt(g, a)) && HasKey(g, Kids(g, p)[j], KeyAt(g, b));
    }
  }

  lemma HealthSplits(g: Graph, p: string)
    ensures AllHealthy(g, p) <==>
              p != "" && Healthy(g, p) && forall k :: 0 <= k < |Kids(g, p)| ==> AllHealthy(g, Kids(g, p)[k])
  {
    ReachSelf(Children(g), p);
    if AllHealthy(g, p) {
      forall k | 0 <= k < |Kids(g, p)| ensures AllHealthy(g, Kids(g, p)[k]) {
        ReachStep(Children(g), p, p, k);
        forall x | Reach(Children(g), Kids(g, p)[k], x) ensures x != "" && Healthy(g, x) {
          ReachTrans(Children(g), p, Kids(g, p)[k], x);
        }
      }
    }
    if p != "" && Healthy(g, p) && forall k :: 0 <= k < |Kids(g, p)| ==> AllHealthy(g, Kids(g, p)[k]) {
      forall x | Reach(Children(g), p, x) ensures x != "" && Healthy(g, x) {
        if x != p {
          var k := ReachSplit(Children(g), p, x);
          assert AllHealthy(g, Kids(g, p)[k]);
        }
      }
    }
  }

  // ---- the whole tree -------------------------------------------------------------------------------------

  /** Two paths from `n` to objects with one key meet the same object: follow them until they part. */
  lemma {:induction false} PathsAgree(g: Graph, root: string, n: string, p: seq<nat>, q: seq<nat>, a: (string, nat), b: (string, nat))
    requires forall x :: Reach(Children(g), root, x) ==> OwnDistinct(g, x) && OwnExcludes(g, x) && SiblingsApart(g, x)
    requires Reach(Children(g), root, n)
    requires Follow(Children(g), n, p) == Some(a.0) && Follow(Children(g), n, q) == Some(b.0)
    requires a.1 < |Own(g, a.0)| && b.1 < |Own(g, b.0)| && KeyAt(g, a) == KeyAt(g, b)
    ensures a == b
    decreases |p|
  {
    if p == [] && q == [] {
      OwnSlots(g, n, a, b);
    } else if p == [] {
      OwnVersusPath(g, n, a.1, q, b);
    } else if q == [] {
      OwnVersusPath(g, n, b.1, p, a);
    } else if p[0] == q[0] {
      FollowFirst(Children(g), n, p);
      FollowFirst(Children(g), n, q);
      ReachStep(Children(g), root, n, p[0]);
      PathsAgree(g, root, Kids(g, n)[p[0]], p[1..], q[1..], a, b);
    } else {
      PathsPart(g, n, p, q, a, b);
    }
  }

  lemma KeyOnPath(g: Graph, n: string, p: seq<nat>, a: (string, nat))
    requires p != [] && Follow(Children(g), n, p) == Some(a.0) && a.1 < |Own(g, a.0)|
    ensures p[0] < |Kids(g, n)| && HasKey(g, Kids(g, n)[p[0]], KeyAt(g, a))
  {
    FollowFirst(Children(g), n, p);
    assert Slot(g, Kids(g, n)[p[0]], a);
  }

  lemma OwnVersusPath(g: Graph, n: string, i: nat, p: seq<nat>, b: (string, nat))
    requires OwnExcludes(g, n) && i < |Own(g, n)|
    requires p != [] && Follow(Children(g), n, p) == Some(b.0) && b.1 < |Own(g, b.0)|
    ensures KeyAt(g, (n, i)) != KeyAt(g, b)
  {
    KeyOnPath(g, n, p, b);
    assert !HasKey(g, Kids(g, n)[p[0]], KeyAt(g, (n, i)));
  }

  lemma PathsPart(g: Graph, n: string, p: seq<nat>, q: seq<nat>, a: (string, nat), b: (string, nat))
    requires SiblingsApart(g, n) && p != [] && q != [] && p[0] != q[0]
    requires Follow(Children(g), n, p) == Some(a.0) && a.1 < |Own(g, a.0)|
    requires Follow(Children(g), n, q) == Some(b.0) && b.1 < |Own(g, b.0)|
    ensures KeyAt(g, a) != KeyAt(g, b)
  {
    KeyOnPath(g, n, p, a);
    KeyOnPath(g, n, q, b);
    assert if p[0] < q[0] then Apart(g, Kids(g, n)[p[0]], Kids(g, n)[q[0]]) else Apart(g, Kids(g, n)[q[0]], Kids(g, n)[p[0]]);
  }

  /** The whole tree, when at every node the own captures are apart from the children's. */
  lemma ApartTree(g: Graph, root: string)
    requires TreeShaped(Children(g), root)
    requires forall x :: Reach(Children(g), root, x) ==> OwnDistinct(g, x) && OwnExcludes(g, x)
    ensures DistinctKeys(g, root) <==> forall x :: Reach(Children(g), root, x) ==> SiblingsApart(g, x)
  {
    if DistinctKeys(g, root) {
      forall x | Reach(Children(g), root, x) ensures SiblingsApart(g, x) {
        TreeBelow(Children(g), root, x);
        forall a: (string, nat), b: (string, nat) | Slot(g, x, a) && Slot(g, x, b) && KeyAt(g, a) == KeyAt(g, b) ensures a == b {
          ReachTrans(Children(g), root, x, a.0);
          ReachTrans(Children(g), root, x, b.0);
        }
        DistinctSiblings(g, x);
      }
    }
    if forall x :: Reach(Children(g), root, x) ==> SiblingsApart(g, x) {
      ReachSelf(Children(g), root);
      forall a: (string, nat), b: (string, nat) | Slot(g, root, a) && Slot(g, root, b) && KeyAt(g, a) == KeyAt(g, b) ensures a == b {
        var p :| Follow(Children(g), root, p) == Some(a.0);
        var q :| Follow(Children(g), root, q) == Some(b.0);
        PathsAgree(g, root, root, p, q, a, b);
      }
    }
  }

  // ---- planning by exclusion ----------------------------------------------------------------------------------

  /** What an aggregator planned from. Only the root adds the Namespace object to its base. */
  datatype NodePlan = NodePlan(base: seq<Ref>, owned: seq<Ref>, captured: seq<Identity>, withNamespace: bool)

  function AllTargets(namespace: string, n: NodePlan): seq<Ref> {
    if n.withNamespace then n.base + [NamespaceTarget(namespace)] else n.base
  }

  ghost function Planned(namespace: string, n: NodePlan): seq<Ref> {
    PlanOf(AllTargets(namespace, n), n.owned, n.captured, namespace)
  }

  /** The key under which the object of a target is captured: the Namespace object has no namespace. */
  function CapturedKey(namespace: string, t: Ref): string {
    Render(t.apiVersion, t.kind, if t.kind == NAMESPACE_KIND then CLUSTER else namespace, t.name)
  }

  function NamespaceKey(namespace: string): string {
    CapturedKey(namespace, NamespaceTarget(namespace))
  }

  function KeysOfTargets(namespace: string, plan: seq<Ref>): seq<string> {
    seq(|plan|, i requires 0 <= i < |plan| => CapturedKey(namespace, plan[i]))
  }

  /** The node's checkpoint holds exactly the planned targets, in any order. */
  ghost predicate CapturesPlan(g: Graph, p: string, namespace: string, plan: seq<Ref>) {
    multiset(KeysOf(Own(g, p))) == multiset(KeysOfTargets(namespace, plan))
  }

  ghost predicate Answered(captured: seq<Identity>, key: string) {
    exists id :: id in captured && ExcludeKey(id) == key
  }

  ghost predicate BelowKey(g: Graph, p: string, key: string) {
    exists k :: 0 <= k < |Kids(g, p)| && HasKey(g, Kids(g, p)[k], key)
  }

  /** `captured` is what the children's subtree calls answered together. */
  ghost predicate AnswersOfChildren(g: Graph, p: string, captured: seq<Identity>) {
    forall key :: Answered(captured, key) <==> BelowKey(g, p, key)
  }

  ghost predicate PlannedByExclusion(g: Graph, p: string, namespace: string, n: NodePlan) {
    && CleanInputs(n.base, n.owned, n.captured, namespace)
    && (forall t :: t in n.base ==> t.kind != NAMESPACE_KIND) && NoDup(n.base)
    && (forall t :: t in n.owned ==> t.kind == "PersistentVolumeClaim")
    && (forall id :: id in n.captured && id.kind == NAMESPACE_KIND ==> id.namespace == "")
    && AnswersOfChildren(g, p, n.captured)
    && CapturesPlan(g, p, namespace, Planned(namespace, n))
  }

  lemma PlanMembers(namespace: string, n: NodePlan)
    requires NoDup(n.base) && forall t :: t in n.base ==> t.kind != NAMESPACE_KIND
    ensures NoDup(Planned(namespace, n))
    ensures forall t :: t in Planned(namespace, n) ==>
              t in AllTargets(namespace, n) && TargetDedupKey(namespace, t) !in Excludes(n.owned, n.captured, namespace)
  {
    var all, plan := AllTargets(namespace, n), Planned(namespace, n);
    NoDupMultiset(all);
    forall t
      ensures multiset(plan)[t] <= 1
      ensures t in plan ==> t in all && TargetDedupKey(namespace, t) !in Excludes(n.owned, n.captured, namespace)
    {
      PlanCount(all, n.owned, n.captured, namespace, t);
      assert t in plan <==> multiset(plan)[t] > 0;
      assert t in all <==> multiset(all)[t] > 0;
    }
    MultisetNoDup(plan);
  }

  lemma CapturedKeyExactly(namespace: string, a: Ref, b: Ref)
    requires CleanNamespace(namespace) && KeyClean(a) && KeyClean(b)
    ensures CapturedKey(namespace, a) == CapturedKey(namespace, b) <==> a == b
    ensures a.kind != NAMESPACE_KIND ==> CapturedKey(namespace, a) == TargetDedupKey(namespace, a)
  {
    RenderInjective(a.apiVersion, a.kind, if a.kind == NAMESPACE_KIND then CLUSTER else namespace, a.name,
      b.apiVersion, b.kind, if b.kind == NAMESPACE_KIND then CLUSTER else namespace, b.name);
  }

  /** The keys a node captures are those of its planned targets. */
  lemma OwnKeysArePlanned(g: Graph, p: string, namespace: string, plan: seq<Ref>, key: string)
    requires CapturesPlan(g, p, namespace, plan)
    ensures (exists i: nat :: i < |Own(g, p)| && KeyAt(g, (p, i)) == key) <==> exists t :: t in plan && CapturedKey(namespace, t) == key
  {
    var own, planned := KeysOf(Own(g, p)), KeysOfTargets(namespace, plan);
    SameMultiset(own, planned);
    assert key in own <==> key in planned by { assert key in Elems(own) <==> key in Elems(planned); }
    if i: nat :| i < |Own(g, p)| && KeyAt(g, (p, i)) == key {
      assert own[i] == key;
      var j :| 0 <= j < |planned| && planned[j] == key;
      assert plan[j] in plan && CapturedKey(namespace, plan[j]) == key;
    }
    if t :| t in plan && CapturedKey(namespace, t) == key {
      var j :| 0 <= j < |plan| && plan[j] == t;
      assert planned[j] == key;
      var i: nat :| i < |own| && own[i] == key;
      assert KeyAt(g, (p, i)) == key;
    }
  }

  /** An object planned under a namespaced target is captured by no child. */
  lemma PlannedNotBelow(g: Graph, p: string, namespace: string, n: NodePlan, t: Ref)
    requires PlannedByExclusion(g, p, namespace, n) && t in Planned(namespace, n) && t.kind != NAMESPACE_KIND
    ensures !BelowKey(g, p, CapturedKey(namespace, t))
  {
    PlanMembers(namespace, n);
    CapturedKeyExactly(namespace, t, t);
    var key := CapturedKey(namespace, t);
    forall id | id in n.captured ensures ExcludeKey(id) != key {
      assert ExcludeKey(id) in Excludes(n.owned, n.captured, namespace);
    }
    assert !Answered(n.captured, key);
  }

  lemma TargetKeysDistinct(namespace: string, plan: seq<Ref>)
    requires CleanNamespace(namespace) && NoDup(plan) && forall t :: t in plan ==> KeyClean(t)
    ensures NoDup(KeysOfTargets(namespace, plan))
  {
    var keys := KeysOfTargets(namespace, plan);
    forall i, j | 0 <= i < j < |keys| ensures keys[i] != keys[j] {
      assert plan[i] in plan && plan[j] in plan;
      CapturedKeyExactly(namespace, plan[i], plan[j]);
    }
  }

  lemma SameMultisetNoDup(a: seq<string>, b: seq<string>)
    requires multiset(a) == multiset(b) && NoDup(b)
    ensures NoDup(a)
  {
    NoDupMultiset(b);
    MultisetNoDup(a);
  }

  lemma PlanDistinct(g: Graph, p: string, namespace: string, n: NodePlan)
    requires PlannedByExclusion(g, p, namespace, n)
    ensures OwnDistinct(g, p)
  {
    var plan := Planned(namespace, n);
    PlanMembers(namespace, n);
    assert KeyClean(NamespaceTarget(namespace));
    TargetKeysDistinct(namespace, plan);
    SameMultisetNoDup(KeysOf(Own(g, p)), KeysOfTargets(namespace, plan));
  }

  lemma NamespacePlanned(namespace: string, n: NodePlan)
    requires CleanInputs(n.base, n.owned, n.captured, namespace) && n.withNamespace
    requires forall t :: t in n.owned ==> t.kind == "PersistentVolumeClaim"
    requires forall id :: id in n.captured && id.kind == NAMESPACE_KIND ==> id.namespace == ""
    ensures NamespaceTarget(namespace) in Planned(namespace, n)
  {
    NamespaceAlwaysPlanned(n.base, n.owned, n.captured, namespace);
  }

  lemma NamespaceCaptured(g: Graph, p: string, namespace: string, n: NodePlan)
    requires PlannedByExclusion(g, p, namespace, n) && n.withNamespace
    ensures exists i: nat :: i < |Own(g, p)| && KeyAt(g, (p, i)) == NamespaceKey(namespace)
  {
    NamespacePlanned(namespace, n);
    OwnKeysArePlanned(g, p, namespace, Planned(namespace, n), NamespaceKey(namespace));
  }

  /** A node planned by exclusion captures each object once; and it captures nothing its children do -
      without any condition if it does not add the Namespace object, and otherwise exactly when no child
      captured that object, which exclusion cannot see. */
  lemma PlanExcludesChildren(g: Graph, p: string, namespace: string, n: NodePlan)
    requires PlannedByExclusion(g, p, namespace, n)
    ensures OwnDistinct(g, p)
    ensures OwnExcludes(g, p) <==> !(n.withNamespace && BelowKey(g, p, NamespaceKey(namespace)))
  {
    PlanDistinct(g, p, namespace, n);
    forall i: nat | i < |Own(g, p)|
      ensures BelowKey(g, p, KeyAt(g, (p, i))) ==> n.withNamespace && BelowKey(g, p, NamespaceKey(namespace))
    {
      PlannedBelowOnlyNamespace(g, p, namespace, n, i);
    }
    if n.withNamespace { NamespaceCaptured(g, p, namespace, n); }
    OwnExcludesByKey(g, p, namespace, n);
  }

  lemma PlannedBelowOnlyNamespace(g: Graph, p: string, namespace: string, n: NodePlan, i: nat)
    requires PlannedByExclusion(g, p, namespace, n) && i < |Own(g, p)|
    ensures BelowKey(g, p, KeyAt(g, (p, i))) ==> n.withNamespace && BelowKey(g, p, NamespaceKey(namespace))
  {
    var plan := Planned(namespace, n);
    OwnKeysArePlanned(g, p, namespace, plan, KeyAt(g, (p, i)));
    var t :| t in plan && CapturedKey(namespace, t) == KeyAt(g, (p, i));
    PlanMembers(namespace, n);
    if t.kind != NAMESPACE_KIND {
      PlannedNotBelow(g, p, namespace, n, t);
    } else {
      assert t !in n.base && t == NamespaceTarget(namespace);
    }
  }

  lemma OwnExcludesByKey(g: Graph, p: string, namespace: string, n: NodePlan)
    requires n.withNamespace ==> exists i: nat :: i < |Own(g, p)| && KeyAt(g, (p, i)) == NamespaceKey(namespace)
    requires forall i: nat :: i < |Own(g, p)| ==>
      (BelowKey(g, p, KeyAt(g, (p, i))) ==> n.withNamespace && BelowKey(g, p, NamespaceKey(namespace)))
    ensures OwnExcludes(g, p) <==> !(n.withNamespace && BelowKey(g, p, NamespaceKey(namespace)))
  {
    if !(n.withNamespace && BelowKey(g, p, NamespaceKey(namespace))) {
      forall i: nat, k | i < |Own(g, p)| && 0 <= k < |Kids(g, p)| ensures !HasKey(g, Kids(g, p)[k], KeyAt(g, (p, i))) {
        assert !BelowKey(g, p, KeyAt(g, (p, i)));
      }
    }
  }

  lemma BelowIsInSubtree(g: Graph, p: string, key: string)
    requires BelowKey(g, p, key)
    ensures HasKey(g, p, key)
  {
    var k: nat :| k < |Kids(g, p)| && HasKey(g, Kids(g, p)[k], key);
    var at: (string, nat) :| Slot(g, Kids(g, p)[k], at) && KeyAt(g, at) == key;
    SlotBelow(g, p, k, at);
  }

  lemma OwnIsInSubtree(g: Graph, p: string, i: nat)
    requires i < |Own(g, p)|
    ensures HasKey(g, p, KeyAt(g, (p, i)))
  {
    ReachSelf(Children(g), p);
    assert Slot(g, p, (p, i));
  }

  // ---- one aggregator -------------------------------------------------------------------------------------------

  /** A Namespace object captured by the node and below it is a duplicate. */
  lemma NamespaceTwice(g: Graph, p: string, namespace: string, n: NodePlan)
    requires TreeShaped(Children(g), p) && PlannedByExclusion(g, p, namespace, n)
    requires n.withNamespace && BelowKey(g, p, NamespaceKey(namespace))
    ensures !DistinctKeys(g, p)
  {
    NamespaceCaptured(g, p, namespace, n);
    var i: nat :| i < |Own(g, p)| && KeyAt(g, (p, i)) == NamespaceKey(namespace);
    var k :| 0 <= k < |Kids(g, p)| && HasKey(g, Kids(g, p)[k], NamespaceKey(namespace));
    var at: (string, nat) :| Slot(g, Kids(g, p)[k], at) && KeyAt(g, at) == NamespaceKey(namespace);
    ReachSelf(Children(g), p);
    SlotBelow(g, p, k, at);
    NotBelowItself(Children(g), p, p, k);
    assert Slot(g, p, (p, i)) && at.0 != p;
  }

  /** One aggregator whose own set is its base minus what its children captured and minus owned PVCs: its
      subtree call is complete exactly when it is healthy, each child's call is complete, the children
      capture pairwise disjoint sets, and no child captured a Namespace object the node adds. */
  lemma NoDoubleCapture(g: Graph, p: string, namespace: string, n: NodePlan)
    requires TreeShaped(Children(g), p) && PlannedByExclusion(g, p, namespace, n)
    ensures DistinctKeys(g, p) <==>
              && SiblingsApart(g, p) && !(n.withNamespace && BelowKey(g, p, NamespaceKey(namespace)))
              && forall k :: 0 <= k < |Kids(g, p)| ==> DistinctKeys(g, Kids(g, p)[k])
    ensures Complete(g, p) <==>
              && p != "" && Healthy(g, p) && SiblingsApart(g, p)
              && !(n.withNamespace && BelowKey(g, p, NamespaceKey(namespace)))
              && forall k :: 0 <= k < |Kids(g, p)| ==> Complete(g, Kids(g, p)[k])
  {
    PlanExcludesChildren(g, p, namespace, n);
    if OwnExcludes(g, p) {
      ApartNode(g, p);
    } else {
      NamespaceTwice(g, p, namespace, n);
    }
    HealthSplits(g, p);
  }

  /** Nothing is lost: the object of every target the node planned from is captured in its subtree unless the
      target is an owned PVC. */
  lemma NothingLost(g: Graph, p: string, namespace: string, n: NodePlan, t: Ref)
    requires PlannedByExclusion(g, p, namespace, n) && t in AllTargets(namespace, n)
    ensures t in n.owned || HasKey(g, p, CapturedKey(namespace, t))
  {
    var plan := Planned(namespace, n);
    if t in plan {
      OwnKeysArePlanned(g, p, namespace, plan, CapturedKey(namespace, t));
      var i: nat :| i < |Own(g, p)| && KeyAt(g, (p, i)) == CapturedKey(namespace, t);
      OwnIsInSubtree(g, p, i);
    } else if t !in n.owned {
      UnplannedIsBelow(g, p, namespace, n, t);
      BelowIsInSubtree(g, p, CapturedKey(namespace, t));
    }
  }

  lemma UnplannedIsBelow(g: Graph, p: string, namespace: string, n: NodePlan, t: Ref)
    requires PlannedByExclusion(g, p, namespace, n)
    requires t in AllTargets(namespace, n) && t !in Planned(namespace, n) && t !in n.owned
    ensures BelowKey(g, p, CapturedKey(namespace, t))
  {
    assert KeyClean(NamespaceTarget(namespace));
    if n.withNamespace { NamespacePlanned(namespace, n); }
    PlanPartition(AllTargets(namespace, n), n.owned, n.captured, namespace, t);
    var id :| id in n.captured && Names(t, namespace, id);
    TargetMeetsIdentity(namespace, t, id);
    CapturedKeyExactly(namespace, t, t);
    assert Answered(n.captured, ExcludeKey(id));
  }

  // ---- a tree of aggregators --------------------------------------------------------------------------------------

  /** Every node with a plan captured it - the root with the Namespace object, the inner aggregators without -
      and the other nodes are leaves that capture each of their objects once. */
  ghost predicate TreePlanned(g: Graph, root: string, namespace: string, plans: map<string, NodePlan>) {
    && TreeShaped(Children(g), root) && root in plans
    && (forall x :: Reach(Children(g), root, x) && x in plans ==>
          PlannedByExclusion(g, x, namespace, plans[x]) && (plans[x].withNamespace <==> x == root))
    && (forall x :: Reach(Children(g), root, x) && x !in plans ==> Kids(g, x) == [] && OwnDistinct(g, x))
  }

  /** At every node of the tree the children's subtrees are pairwise disjoint. */
  ghost predicate ApartEverywhere(g: Graph, root: string) {
    forall x :: Reach(Children(g), root, x) ==> SiblingsApart(g, x)
  }

  lemma TreeNodeApart(g: Graph, root: string, namespace: string, plans: map<string, NodePlan>, x: string)
    requires TreePlanned(g, root, namespace, plans) && Reach(Children(g), root, x)
    requires !BelowKey(g, root, NamespaceKey(namespace))
    ensures OwnDistinct(g, x) && OwnExcludes(g, x)
  {
    if x in plans { PlanExcludesChildren(g, x, namespace, plans[x]); }
  }

  /** The whole tree: planned by exclusion at every level it is free of double captures exactly when at every
      node the children's subtrees are pairwise disjoint and nobody below the root captured the Namespace
      object. */
  lemma TreeFreeOfDuplicates(g: Graph, root: string, namespace: string, plans: map<string, NodePlan>)
    requires TreePlanned(g, root, namespace, plans)
    ensures DistinctKeys(g, root) <==> ApartEverywhere(g, root) && !BelowKey(g, root, NamespaceKey(namespace))
    ensures Complete(g, root) <==>
              AllHealthy(g, root) && ApartEverywhere(g, root) && !BelowKey(g, root, NamespaceKey(namespace))
  {
    ReachSelf(Children(g), root);
    if BelowKey(g, root, NamespaceKey(namespace)) {
      NamespaceTwice(g, root, namespace, plans[root]);
    } else {
      forall x | Reach(Children(g), root, x) ensures OwnDistinct(g, x) && OwnExcludes(g, x) {
        TreeNodeApart(g, root, namespace, plans, x);
      }
      ApartTree(g, root);
    }
  }

  /** And it loses nothing: every target any aggregator of the tree planned from is captured somewhere in the
      tree, or is a PVC that aggregator owns. */
  lemma TreeLosesNothing(g: Graph, root: string, namespace: string, plans: map<string, NodePlan>, x: string, t: Ref)
    requires TreePlanned(g, root, namespace, plans) && Reach(Children(g), root, x) && x in plans
    requires t in AllTargets(namespace, plans[x])
    ensures t in plans[x].owned || HasKey(g, root, CapturedKey(namespace, t))
  {
    NothingLost(g, x, namespace, plans[x], t);
    if t !in plans[x].owned {
      var at: (string, nat) :| Slot(g, x, at) && KeyAt(g, at) == CapturedKey(namespace, t);
      ReachTrans(Children(g), root, x, at.0);
      assert Slot(g, root, at);
    }
  }

  /** What the root's subtree call answers on such a tree, from what BuildSubtreeManifestIdentities promises:
      it answers exactly when all nodes are healthy and the tree is free of double captures, and then lists
      one identity for every target that is not an owned PVC; on healthy nodes its only error is Conflict. */
  lemma TreeCallAnswers(g: Graph, root: string, namespace: string, plans: map<string, NodePlan>,
      r: Result<seq<Identity>>, log: seq<(string, nat)>)
    requires TreePlanned(g, root, namespace, plans) && root != ""
    requires r.Ok? <==> Complete(g, root)
    requires r.Ok? ==> Lists(g, root, log, r.value)
    requires r.Err? ==> Explained(g, root, r.error)
    ensures r.Ok? <==> AllHealthy(g, root) && ApartEverywhere(g, root) && !BelowKey(g, root, NamespaceKey(namespace))
    ensures r.Err? && AllHealthy(g, root) ==> r.error == Conflict
    ensures r.Ok? ==> forall x, t ::
              Reach(Children(g), root, x) && x in plans && t in AllTargets(namespace, plans[x]) && t !in plans[x].owned ==>
              Answered(r.value, CapturedKey(namespace, t))
  {
    TreeFreeOfDuplicates(g, root, namespace, plans);
    if r.Ok? {
      forall x, t | Reach(Children(g), root, x) && x in plans && t in AllTargets(namespace, plans[x]) && t !in plans[x].owned
        ensures Answered(r.value, CapturedKey(namespace, t))
      {
        TreeLosesNothing(g, root, namespace, plans, x, t);
        KeyIsListed(g, root, log, r.value, CapturedKey(namespace, t));
      }
    } else if AllHealthy(g, root) {
      HealthyReportsRepeats(g, root, r.error);
    }
  }

  lemma KeyIsListed(g: Graph, root: string, log: seq<(string, nat)>, ids: seq<Identity>, key: string)
    requires Lists(g, root, log, ids) && HasKey(g, root, key)
    ensures Answered(ids, key)
  {
    var at: (string, nat) :| Slot(g, root, at) && KeyAt(g, at) == key;
    var k :| 0 <= k < |log| && log[k] == at;
    RenderersAgree(LogObjects(g, log)[k]);
    assert ids[k] in ids && ExcludeKey(ids[k]) == key;
  }
}
