/** The SDK's union of the subtree identities of a snapshot's direct children. */
module SubtreeUnion {
  import opened Ordering
  import opened KeyText
  import opened Refs
  import opened OwnerRef
  import opened ManifestKeys
  import opened RootTargets
  import opened ContentGraph
  import opened Subtree
  import opened TreeExclusion

  datatype Answer = Identities(ids: seq<Identity>) | Pending | NotWired | Failed

  /** The bound content name of each child snapshot; an absent child reads as not found. */
  type Bindings = map<Ref, Fetched<string>>

  function BoundName(bound: Bindings, child: Ref): Fetched<string> {
    if child in bound then bound[child] else NotFound
  }

  /** The child is bound and its subtree answers completely. */
  ghost predicate Settled(g: Graph, bound: Bindings, child: Ref) {
    && BoundName(bound, child).Found? && BoundName(bound, child).value != ""
    && Complete(g, BoundName(bound, child).value)
  }

  /** An identity captured somewhere under the child's bound content. */
  ghost predicate CapturedUnder(g: Graph, bound: Bindings, child: Ref, id: Identity) {
    && BoundName(bound, child).Found?
    && exists at: (string, nat) :: Slot(g, BoundName(bound, child).value, at) && IdentityFrom(Own(g, at.0)[at.1]) == Some(id)
  }

  ghost predicate CapturedUnderAny(g: Graph, bound: Bindings, children: seq<Ref>, id: Identity) {
    exists k :: 0 <= k < |children| && CapturedUnder(g, bound, children[k], id)
  }

  /** What the union holds after the children in `done`: captured identities only, one per key, every key. */
  ghost predicate UnionOf(g: Graph, bound: Bindings, done: seq<Ref>, out: seq<Identity>, seen: set<string>) {
    && seen == Keys(UnionKey, out)
    && (forall i, j :: 0 <= i < j < |out| ==> UnionKey(out[i]) != UnionKey(out[j]))
    && (forall id :: id in out ==> CapturedUnderAny(g, bound, done, id))
    && (forall id :: CapturedUnderAny(g, bound, done, id) ==> UnionKey(id) in seen)
  }

  /** A complete answer for one content lists exactly what is captured under it. */
  lemma ListsCaptured(g: Graph, bound: Bindings, child: Ref, log: seq<(string, nat)>, ids: seq<Identity>, id: Identity)
    requires BoundName(bound, child).Found? && Lists(g, BoundName(bound, child).value, log, ids)
    ensures id in ids <==> CapturedUnder(g, bound, child, id)
  {
    var root := BoundName(bound, child).value;
    if id in ids {
      var k :| 0 <= k < |ids| && ids[k] == id;
      assert log[k] in log && Slot(g, root, log[k]);
      assert LogObjects(g, log)[k] == Own(g, log[k].0)[log[k].1];
    }
    if CapturedUnder(g, bound, child, id) {
      var at: (string, nat) :| Slot(g, root, at) && IdentityFrom(Own(g, at.0)[at.1]) == Some(id);
      assert at in log;
      var k :| 0 <= k < |log| && log[k] == at;
      assert IdentityFrom(LogObjects(g, log)[k]) == Some(ids[k]);
    }
  }

  /** The inner loop: append the identities whose key is new. */
  method AppendNew(out: seq<Identity>, seen: set<string>, ids: seq<Identity>) returns (out': seq<Identity>, seen': set<string>)
    requires seen == Keys(UnionKey, out) && forall i, j :: 0 <= i < j < |out| ==> UnionKey(out[i]) != UnionKey(out[j])
    ensures seen' == Keys(UnionKey, out') && seen' == seen + Keys(UnionKey, ids)
    ensures forall i, j :: 0 <= i < j < |out'| ==> UnionKey(out'[i]) != UnionKey(out'[j])
    ensures forall id :: id in out' ==> id in out || id in ids
  {
    out', seen' := out, seen;
    for k := 0 to |ids|
      invariant seen' == Keys(UnionKey, out') && seen' == seen + Keys(UnionKey, ids[..k])
      invariant forall i, j :: 0 <= i < j < |out'| ==> UnionKey(out'[i]) != UnionKey(out'[j])
      invariant forall id :: id in out' ==> id in out || id in ids
    {
      KeysSnoc(ids[..k], ids[k]);
      assert ids[..k + 1] == ids[..k] + [ids[k]];
      var key := UnionKey(ids[k]);
      if key in seen' { continue; }
      KeysSnoc(out', ids[k]);
      forall i | 0 <= i < |out'| ensures UnionKey(out'[i]) != key {
        assert out'[i] in out';
      }
      seen' := seen' + {key};
      out' := out' + [ids[k]];
    }
    assert ids[..|ids|] == ids;
  }

  lemma KeysSnoc(s: seq<Identity>, x: Identity)
    ensures Keys(UnionKey, s + [x]) == Keys(UnionKey, s) + {UnionKey(x)}
  {
  }

  lemma UnionNext(g: Graph, bound: Bindings, done: seq<Ref>, child: Ref, out: seq<Identity>, ids: seq<Identity>, out': seq<Identity>)
    requires UnionOf(g, bound, done, out, Keys(UnionKey, out))
    requires forall id :: id in ids <==> CapturedUnder(g, bound, child, id)
    requires Keys(UnionKey, out') == Keys(UnionKey, out) + Keys(UnionKey, ids)
    requires forall i, j :: 0 <= i < j < |out'| ==> UnionKey(out'[i]) != UnionKey(out'[j])
    requires forall id :: id in out' ==> id in out || id in ids
    ensures UnionOf(g, bound, done + [child], out', Keys(UnionKey, out'))
  {
    var done' := done + [child];
    forall id ensures CapturedUnderAny(g, bound, done', id) <==> CapturedUnderAny(g, bound, done, id) || CapturedUnder(g, bound, child, id) {
      if CapturedUnder(g, bound, child, id) { assert CapturedUnder(g, bound, done'[|done|], id); }
      if CapturedUnderAny(g, bound, done, id) {
        var k :| 0 <= k < |done| && CapturedUnder(g, bound, done[k], id);
        assert CapturedUnder(g, bound, done'[k], id);
      }
    }
  }

  /** How the defect of a child that is not settled is reported. */
  ghost predicate Reports(g: Graph, bound: Bindings, child: Ref, r: Answer) {
    match BoundName(bound, child)
    case NotFound => r == Pending
    case ReadError => r == Failed
    case Found(content) =>
      if content == "" then r == Pending
      else exists e :: Explained(g, content, e) && r == if e.Conflict? then Pending else Failed
  }

  /** A child whose nodes are all persisted and readable but capture one object twice is reported as pending,
      like one that is still on its way: the caller waits for what cannot change. */
  lemma RepeatedObjectIsPending(g: Graph, bound: Bindings, child: Ref, r: Answer)
    requires !Settled(g, bound, child) && Reports(g, bound, child, r)
    requires BoundName(bound, child).Found? && AllHealthy(g, BoundName(bound, child).value)
    ensures r == Pending && !DistinctKeys(g, BoundName(bound, child).value)
  {
    var content := BoundName(bound, child).value;
    ReachSelf(Children(g), content);
    var e :| Explained(g, content, e) && r == if e.Conflict? then Pending else Failed;
    HealthyReportsRepeats(g, content, e);
  }

  /** resolveChildContentName and fetchSubtreeManifestIdentities for one child. */
  method FetchChild(g: Graph, bound: Bindings, child: Ref) returns (r: Answer)
    ensures r.Identities? <==> Settled(g, bound, child)
    ensures r.Identities? ==> forall id :: id in r.ids <==> CapturedUnder(g, bound, child, id)
    ensures !r.Identities? ==> Reports(g, bound, child, r)
  {
    var name := BoundName(bound, child);
    if name.NotFound? { return Pending; }
    if name.ReadError? { return Failed; }
    if name.value == "" { return Pending; }
    var ids, log := BuildSubtreeManifestIdentities(g, name.value);
    if ids.Err? {
      r := if ids.error.Conflict? then Pending else Failed;
      return;
    }
    forall id ensures id in ids.value <==> CapturedUnder(g, bound, child, id) {
      ListsCaptured(g, bound, child, log, ids.value, id);
    }
    return Identities(ids.value);
  }

  /** Child i is the first that is not settled, and `r` reports it. */
  ghost predicate StopsAt(g: Graph, bound: Bindings, children: seq<Ref>, i: nat, r: Answer)
    requires i < |children|
  {
    (forall k :: 0 <= k < i ==> Settled(g, bound, children[k])) && !Settled(g, bound, children[i]) && Reports(g, bound, children[i], r)
  }

  /** SubtreeManifestIdentities. `gate` is the node's own latch, None when the adapter does not map it. The
      answer is the union over all children, exactly when every child is bound and complete; a closed gate,
      a missing or unbound child or a server conflict is Pending, never a partial union. */
  method SubtreeManifestIdentities(children: seq<Ref>, gate: Option<bool>, wired: bool, bound: Bindings, g: Graph) returns (r: Answer)
    ensures r.Identities? <==>
              children == [] || (gate != Some(false) && wired && forall k :: 0 <= k < |children| ==> Settled(g, bound, children[k]))
    ensures r.Identities? ==> UnionOf(g, bound, children, r.ids, Keys(UnionKey, r.ids))
    ensures children != [] && gate == Some(false) ==> r == Pending
    ensures children != [] && gate != Some(false) && !wired ==> r == NotWired
    ensures children != [] && gate != Some(false) && wired && !r.Identities? ==>
              exists i :: 0 <= i < |children| && StopsAt(g, bound, children, i, r)
  {
    if children == [] { return Identities([]); }
    if gate == Some(false) { return Pending; }
    if !wired { return NotWired; }
    var seen, out := {}, [];
    for i := 0 to |children|
      invariant forall k :: 0 <= k < i ==> Settled(g, bound, children[k])
      invariant UnionOf(g, bound, children[..i], out, seen)
    {
      var one := FetchChild(g, bound, children[i]);
      if !one.Identities? {
        assert StopsAt(g, bound, children, i, one);
        return one;
      }
      ghost var before := out;
      out, seen := AppendNew(out, seen, one.ids);
      UnionNext(g, bound, children[..i], children[i], before, one.ids, out);
      assert children[..i + 1] == children[..i] + [children[i]];
    }
    assert children[..|children|] == children;
    return Identities(out);
  }

  // ---- the union is what exclusion needs ------------------------------------------------------------------

  lemma UnionKeyInjective(a: Identity, b: Identity)
    requires Clean(a) && Clean(b) && UnionKey(a) == UnionKey(b)
    ensures SameObject(a, b) && ExcludeKey(a) == ExcludeKey(b)
  {
    RenderInjective(a.apiVersion, a.kind, a.namespace, a.name, b.apiVersion, b.kind, b.namespace, b.name);
  }

  /** A stored object whose fields hold no bar, whose namespace is not called like the cluster scope, and which
      is cluster-scoped if it is a Namespace. */
  predicate CleanManifest(m: Manifest) {
    && BarFree(m.apiVersion) && BarFree(m.kind)
    && (m.metadata.Some? ==>
          var namespace := m.metadata.value.namespace;
          BarFree(namespace) && namespace != "_cluster" && (m.kind == "Namespace" ==> namespace == ""))
  }

  /** Everything captured under a node is clean. */
  ghost predicate CleanUnder(g: Graph, p: string) {
    forall at: (string, nat) :: Slot(g, p, at) ==> CleanManifest(Own(g, at.0)[at.1])
  }

  ghost predicate CleanBelow(g: Graph, p: string) {
    forall k :: 0 <= k < |Kids(g, p)| ==> CleanUnder(g, Kids(g, p)[k])
  }

  /** The children of the snapshot are bound to the node's child contents, position by position. */
  ghost predicate Aligned(g: Graph, p: string, bound: Bindings, children: seq<Ref>) {
    |children| == |Kids(g, p)| && forall k :: 0 <= k < |children| ==> BoundName(bound, children[k]) == Found(Kids(g, p)[k])
  }

  /** When the snapshot's children are bound to the node's child contents, position by position, the union -
      although it de-duplicates by another key than the exclusion - renders exactly the exclude keys of what
      is captured below the node. */
  lemma UnionAnswersForChildren(g: Graph, p: string, bound: Bindings, children: seq<Ref>, ids: seq<Identity>)
    requires Aligned(g, p, bound, children)
    requires CleanBelow(g, p) && UnionOf(g, bound, children, ids, Keys(UnionKey, ids))
    ensures AnswersOfChildren(g, p, ids)
  {
    forall key ensures Answered(ids, key) <==> BelowKey(g, p, key) {
      if Answered(ids, key) {
        var id :| id in ids && ExcludeKey(id) == key;
        UnionIdBelow(g, p, bound, children, id);
      }
      if BelowKey(g, p, key) {
        var id := BelowIdInUnion(g, p, bound, children, ids, key);
      }
    }
  }

  lemma UnionIdBelow(g: Graph, p: string, bound: Bindings, children: seq<Ref>, id: Identity)
    requires Aligned(g, p, bound, children)
    requires CapturedUnderAny(g, bound, children, id)
    ensures BelowKey(g, p, ExcludeKey(id))
  {
    var k :| 0 <= k < |children| && CapturedUnder(g, bound, children[k], id);
    var at: (string, nat) :| Slot(g, Kids(g, p)[k], at) && IdentityFrom(Own(g, at.0)[at.1]) == Some(id);
    RenderersAgree(Own(g, at.0)[at.1]);
    assert KeyAt(g, at) == ExcludeKey(id);
    assert HasKey(g, Kids(g, p)[k], ExcludeKey(id));
  }

  lemma BelowIdInUnion(g: Graph, p: string, bound: Bindings, children: seq<Ref>, ids: seq<Identity>, key: string) returns (id: Identity)
    requires Aligned(g, p, bound, children)
    requires CleanBelow(g, p) && UnionOf(g, bound, children, ids, Keys(UnionKey, ids)) && BelowKey(g, p, key)
    ensures id in ids && ExcludeKey(id) == key
  {
    var k :| 0 <= k < |Kids(g, p)| && HasKey(g, Kids(g, p)[k], key);
    var at: (string, nat) :| Slot(g, Kids(g, p)[k], at) && KeyAt(g, at) == key;
    var below := SlotIdentity(g, Kids(g, p)[k], at);
    RenderersAgree(Own(g, at.0)[at.1]);
    assert CapturedUnder(g, bound, children[k], below);
    assert UnionKey(below) in Keys(UnionKey, ids);
    id :| id in ids && UnionKey(id) == UnionKey(below);
    IdsClean(g, p, bound, children, id);
    UnionKeyInjective(id, below);
  }

  /** A listed object has an identity, and it is the object's own. */
  lemma SlotIdentity(g: Graph, p: string, at: (string, nat)) returns (id: Identity)
    requires Slot(g, p, at) && CleanUnder(g, p)
    ensures IdentityFrom(Own(g, at.0)[at.1]) == Some(id) && Clean(id)
    ensures id.namespace != CLUSTER && (id.kind == NAMESPACE_KIND ==> id.namespace == "")
  {
    var m := Own(g, at.0)[at.1];
    assert Healthy(g, at.0) && CleanManifest(m);
    IdentityExactly(m);
    id := IdentityFrom(m).value;
    assert Describes(id, m);
  }

  lemma IdsClean(g: Graph, p: string, bound: Bindings, children: seq<Ref>, id: Identity)
    requires Aligned(g, p, bound, children) && CleanBelow(g, p)
    requires CapturedUnderAny(g, bound, children, id)
    ensures Clean(id) && id.namespace != CLUSTER && (id.kind == NAMESPACE_KIND ==> id.namespace == "")
  {
    var k :| 0 <= k < |children| && CapturedUnder(g, bound, children[k], id);
    var at: (string, nat) :| Slot(g, Kids(g, p)[k], at) && IdentityFrom(Own(g, at.0)[at.1]) == Some(id);
    assert CleanUnder(g, Kids(g, p)[k]);
    var same := SlotIdentity(g, Kids(g, p)[k], at);
  }

  /** The answer keeps the scope of what was captured: no identity spells the cluster scope as a namespace, and
      Namespace objects have none. */
  lemma AnswerIsScoped(g: Graph, p: string, bound: Bindings, children: seq<Ref>, ids: seq<Identity>)
    requires Aligned(g, p, bound, children) && CleanBelow(g, p)
    requires UnionOf(g, bound, children, ids, Keys(UnionKey, ids))
    ensures forall id :: id in ids ==> Clean(id) && id.namespace != CLUSTER && (id.kind == NAMESPACE_KIND ==> id.namespace == "")
  {
    forall id | id in ids ensures Clean(id) && id.namespace != CLUSTER && (id.kind == NAMESPACE_KIND ==> id.namespace == "") {
      IdsClean(g, p, bound, children, id);
    }
  }

  // ---- from the answer to the tree ------------------------------------------------------------------------

  /** What a node needs for planning: clean targets without the Namespace object, each once; owned PVCs; and
      a checkpoint that holds what exclusion leaves. */
  ghost predicate Plans(g: Graph, p: string, namespace: string, n: NodePlan) {
    && CleanNamespace(namespace) && (forall t :: t in n.base || t in n.owned ==> KeyClean(t))
    && (forall t :: t in n.base ==> t.kind != NAMESPACE_KIND) && NoDup(n.base)
    && (forall t :: t in n.owned ==> t.kind == "PersistentVolumeClaim")
    && CapturesPlan(g, p, namespace, Planned(namespace, n))
  }

  /** A node that plans with the union planned by exclusion. */
  lemma UnionPlansByExclusion(g: Graph, p: string, bound: Bindings, children: seq<Ref>, namespace: string, n: NodePlan)
    requires Aligned(g, p, bound, children) && CleanBelow(g, p)
    requires UnionOf(g, bound, children, n.captured, Keys(UnionKey, n.captured))
    requires Plans(g, p, namespace, n)
    ensures PlannedByExclusion(g, p, namespace, n)
  {
    UnionAnswersForChildren(g, p, bound, children, n.captured);
    AnswerIsScoped(g, p, bound, children, n.captured);
  }

  /** From the SDK's answer to the finished node: if SubtreeManifestIdentities answered and the node captured
      what exclusion by that answer leaves, then the children are in order and nothing is lost; the node's
      subtree is free of double captures exactly when its children's subtrees are disjoint from each other and
      none of them captured a Namespace object the node adds; and its own call is complete exactly when,
      besides, the node itself is healthy. */
  lemma AnsweredNodeExactly(g: Graph, p: string, bound: Bindings, children: seq<Ref>, namespace: string, n: NodePlan)
    requires TreeShaped(Children(g), p) && Aligned(g, p, bound, children) && CleanBelow(g, p)
    requires forall k :: 0 <= k < |children| ==> Settled(g, bound, children[k])
    requires UnionOf(g, bound, children, n.captured, Keys(UnionKey, n.captured))
    requires Plans(g, p, namespace, n)
    ensures var apart := SiblingsApart(g, p) && !(n.withNamespace && BelowKey(g, p, NamespaceKey(namespace)));
      && (DistinctKeys(g, p) <==> apart)
      && (Complete(g, p) <==> p != "" && Healthy(g, p) && apart)
      && (forall t :: t in AllTargets(namespace, n) ==> t in n.owned || HasKey(g, p, CapturedKey(namespace, t)))
  {
    UnionPlansByExclusion(g, p, bound, children, namespace, n);
    NoDoubleCapture(g, p, namespace, n);
    forall k | 0 <= k < |Kids(g, p)| ensures Complete(g, Kids(g, p)[k]) {
      assert Settled(g, bound, children[k]);
    }
    forall t | t in AllTargets(namespace, n) ensures t in n.owned || HasKey(g, p, CapturedKey(namespace, t)) {
      NothingLost(g, p, namespace, n, t);
    }
  }
}
