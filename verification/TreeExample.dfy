/** Two aggregators one below the other: a tree that meets every premise of the exclusion theorems. */
module TreeExample {
  import opened Ordering
  import opened Refs
  import opened OwnerRef
  import opened ManifestKeys
  import opened ContentGraph
  import opened Subtree
  import opened RootTargets
  import opened TreeExclusion

  const NS := "n"

  function Object(kind: string, namespace: string, name: string): Manifest {
    Manifest("v", kind, Some(Metadata(name, namespace, "")))
  }

  function Namespace(): Manifest {
    Manifest("v1", NAMESPACE_KIND, Some(Metadata(NS, "", "")))
  }

  const A := Ref("v", "A", "a")
  const B := Ref("v", "B", "b")

  /** The root captures the Namespace object and A; the aggregator below it has captured B. */
  const TREE := Graph(
    map["r" := Content("cr", ["m"]), "m" := Content("cm", [])],
    map["cr" := Archive([Object("A", NS, "a"), Namespace()]), "cm" := Archive([Object("B", NS, "b")])],
    {})

  const IDENTITY_B := Identity("v", "B", NS, "b", "")

  const PLANS := map["r" := NodePlan([A, B], [], [IDENTITY_B], true), "m" := NodePlan([B], [], [], false)]

  lemma Nodes(x: string)
    ensures Reach(Children(TREE), "r", x) <==> x == "r" || x == "m"
    ensures Reach(Children(TREE), "m", x) <==> x == "m"
  {
    var kids := Children(TREE);
    assert kids("r") == ["m"] && kids("m") == [];
    ReachSelf(kids, "r");
    ReachSelf(kids, "m");
    ReachStep(kids, "r", "r", 0);
    if Reach(kids, "r", x) {
      var p :| Follow(kids, "r", p) == Some(x);
      assert ClosedUnder(kids, {"r", "m"});
      ClosedContains(kids, {"r", "m"}, "r", p);
    }
    if Reach(kids, "m", x) {
      var p :| Follow(kids, "m", p) == Some(x);
      assert ClosedUnder(kids, {"m"});
      ClosedContains(kids, {"m"}, "m", p);
    }
  }

  lemma Captures()
    ensures Healthy(TREE, "r") && Own(TREE, "r") == [Object("A", NS, "a"), Namespace()]
    ensures Healthy(TREE, "m") && Own(TREE, "m") == [Object("B", NS, "b")]
  {
  }

  lemma KeysDiffer()
    ensures TargetDedupKey(NS, A) != ExcludeKey(IDENTITY_B) && TargetDedupKey(NS, NamespaceTarget(NS)) != ExcludeKey(IDENTITY_B)
    ensures TargetDedupKey(NS, B) == ExcludeKey(IDENTITY_B) == CapturedKey(NS, B)
    ensures NamespaceKey(NS) != CapturedKey(NS, B)
  {
    RenderInjective("v", "A", NS, "a", "v", "B", NS, "b");
    RenderInjective("v1", NAMESPACE_KIND, NS, NS, "v", "B", NS, "b");
    RenderInjective("v1", NAMESPACE_KIND, CLUSTER, NS, "v", "B", NS, "b");
  }

  lemma KeysOfInner(key: string)
    ensures HasKey(TREE, "m", key) <==> key == CapturedKey(NS, B)
  {
    Captures();
    Nodes("m");
    assert KeyAt(TREE, ("m", 0)) == CapturedKey(NS, B);
    assert Slot(TREE, "m", ("m", 0));
    if HasKey(TREE, "m", key) {
      var at: (string, nat) :| Slot(TREE, "m", at) && KeyAt(TREE, at) == key;
      Nodes(at.0);
    }
  }

  lemma ChildrenOf()
    ensures Kids(TREE, "r") == ["m"] && Kids(TREE, "m") == []
  {
  }

  lemma BelowRoot(key: string)
    ensures BelowKey(TREE, "r", key) <==> key == CapturedKey(NS, B)
    ensures !BelowKey(TREE, "m", key)
  {
    KeysOfInner(key);
    ChildrenOf();
    OnlyChild(TREE, "r", "m", key);
  }

  lemma OnlyChild(g: Graph, p: string, m: string, key: string)
    requires Kids(g, p) == [m]
    ensures BelowKey(g, p, key) <==> HasKey(g, m, key)
  {
    assert Kids(g, p)[0] == m;
  }

  lemma InnerPlan()
    ensures PlannedByExclusion(TREE, "m", NS, PLANS["m"])
  {
    Captures();
    var n := PLANS["m"];
    assert Excludes([], [], NS) == {};
    assert Planned(NS, n) == [B];
    forall key ensures Answered(n.captured, key) <==> BelowKey(TREE, "m", key) { BelowRoot(key); }
    assert KeysOf(Own(TREE, "m")) == KeysOfTargets(NS, [B]);
  }

  lemma RootKept()
    ensures Kept([A, B, NamespaceTarget(NS)], Excludes([], [IDENTITY_B], NS), NS) == [A, NamespaceTarget(NS)]
  {
    KeysDiffer();
    var exclude := Excludes([], [IDENTITY_B], NS);
    assert exclude == {ExcludeKey(IDENTITY_B)};
    var all := [A, B, NamespaceTarget(NS)];
    assert all[..2] == [A, B] && [A, B][..1] == [A] && [A][..0] == [];
    assert Kept([A], exclude, NS) == [A] && Kept([A, B], exclude, NS) == [A];
  }

  lemma RootPlanned()
    ensures multiset(Planned(NS, PLANS["r"])) == multiset([A, NamespaceTarget(NS)]) && |Planned(NS, PLANS["r"])| == 2
  {
    RootKept();
    var n := PLANS["r"];
    assert AllTargets(NS, n) == [A, B, NamespaceTarget(NS)];
    assert ExcludeKey(IDENTITY_B) in Excludes(n.owned, n.captured, NS);
    RefOrder();
    SortSpec(RefLe, [A, NamespaceTarget(NS)]);
  }

  lemma RootKeys()
    ensures KeysOf(Own(TREE, "r")) == [CapturedKey(NS, A), NamespaceKey(NS)]
  {
    Captures();
  }

  lemma RootCaptures()
    ensures CapturesPlan(TREE, "r", NS, Planned(NS, PLANS["r"]))
  {
    RootKeys();
    RootPlanned();
    TwoElements(Planned(NS, PLANS["r"]), A, NamespaceTarget(NS));
  }

  lemma RootAnswered()
    ensures AnswersOfChildren(TREE, "r", [IDENTITY_B])
  {
    KeysDiffer();
    forall key ensures Answered([IDENTITY_B], key) <==> BelowKey(TREE, "r", key) {
      BelowRoot(key);
      assert IDENTITY_B in [IDENTITY_B];
    }
  }

  lemma RootPlan()
    ensures PlannedByExclusion(TREE, "r", NS, PLANS["r"])
  {
    RootCaptures();
    RootAnswered();
  }

  lemma TwoElements(plan: seq<Ref>, a: Ref, b: Ref)
    requires multiset(plan) == multiset([a, b]) && |plan| == 2
    ensures multiset(KeysOfTargets(NS, plan)) == multiset([CapturedKey(NS, a), CapturedKey(NS, b)])
  {
    assert plan == [plan[0], plan[1]];
    assert plan[0] in multiset(plan) && plan[1] in multiset(plan);
    assert plan == [a, b] || plan == [b, a];
    assert KeysOfTargets(NS, plan) == [CapturedKey(NS, plan[0]), CapturedKey(NS, plan[1])];
  }

  lemma Shape()
    ensures TreeShaped(Children(TREE), "r") && AllHealthy(TREE, "r") && ApartEverywhere(TREE, "r")
    ensures forall x :: Reach(Children(TREE), "r", x) <==> x == "r" || x == "m"
  {
    forall x ensures Reach(Children(TREE), "r", x) <==> x == "r" || x == "m" { Nodes(x); }
    Captures();
    ChildrenOf();
    forall x | Reach(Children(TREE), "r", x)
      ensures |Kids(TREE, x)| <= 1 && (forall i :: 0 <= i < |Kids(TREE, x)| ==> x == "r" && Kids(TREE, x)[i] == "m")
    {
    }
  }

  /** Planning by exclusion at two levels is possible, and here the root's subtree call is complete. */
  lemma NestedAggregatorsComplete()
    ensures TreePlanned(TREE, "r", NS, PLANS) && Complete(TREE, "r")
  {
    Shape();
    RootPlan();
    InnerPlan();
    KeysDiffer();
    BelowRoot(NamespaceKey(NS));
    TreeFreeOfDuplicates(TREE, "r", NS, PLANS);
  }
}
