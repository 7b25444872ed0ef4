/** The ordered walk over a content graph that rejects any node met twice. */
module Walk {
  import opened Ordering
  import opened OwnerRef
  import opened ContentGraph
  import Subtree

  function NonEmpty(names: seq<string>): seq<string> {
    if names == [] then []
    else NonEmpty(names[..|names| - 1]) + if names[|names| - 1] == "" then [] else [names[|names| - 1]]
  }

  /** The children the walk follows: sorted by name, empty references skipped. */
  function SortedKids(g: Graph, name: string): seq<string> {
    NonEmpty(Sort(LexLe, Subtree.Kids(g, name)))
  }

  function WalkKids(g: Graph): string -> seq<string> {
    name => SortedKids(g, name)
  }

  // ---- preorder, independently -----------------------------------------------------------------------

  /** `s` is the preorder listing of the unfolding of `n`. */
  ghost predicate Pre(g: Graph, n: string, s: seq<string>)
    decreases |s|, 0
  {
    s != [] && s[0] == n && PreList(g, SortedKids(g, n), s[1..])
  }

  /** `s` is the concatenation of the preorders of `ks`. */
  ghost predicate PreList(g: Graph, ks: seq<string>, s: seq<string>)
    decreases |s|, |ks| + 1
  {
    if ks == [] then s == []
    else exists j: nat :: j <= |s| && PreList(g, ks[..|ks| - 1], s[..j]) && Pre(g, ks[|ks| - 1], s[j..])
  }

  /** There is at most one preorder. */
  lemma {:induction false} PreUnique(g: Graph, n: string, s: seq<string>, t: seq<string>)
    requires Pre(g, n, s) && Pre(g, n, t)
    ensures s == t
    decreases |s|, 0
  {
    PreListUnique(g, SortedKids(g, n), s[1..], t[1..]);
    assert s == [s[0]] + s[1..] && t == [t[0]] + t[1..];
  }

  lemma {:induction false} PreListUnique(g: Graph, ks: seq<string>, s: seq<string>, t: seq<string>)
    requires PreList(g, ks, s) && PreList(g, ks, t)
    ensures s == t
    decreases |s|, |ks| + 1
  {
    if ks != [] {
      var i: nat :| i <= |s| && PreList(g, ks[..|ks| - 1], s[..i]) && Pre(g, ks[|ks| - 1], s[i..]);
      var j: nat :| j <= |t| && PreList(g, ks[..|ks| - 1], t[..j]) && Pre(g, ks[|ks| - 1], t[j..]);
      PreListUnique(g, ks[..|ks| - 1], s[..i], t[..j]);
      PreUnique(g, ks[|ks| - 1], s[i..], t[j..]);
      assert s == s[..i] + s[i..] && t == t[..j] + t[j..];
    }
  }

  lemma PreListSnoc(g: Graph, ks: seq<string>, k: string, s: seq<string>, t: seq<string>)
    requires PreList(g, ks, s) && Pre(g, k, t)
    ensures PreList(g, ks + [k], s + t)
  {
    var all, u := ks + [k], s + t;
    assert all[..|all| - 1] == ks && u[..|s|] == s && u[|s|..] == t;
  }

  // ---- the walk -----------------------------------------------------------------------------------------

  datatype Error = Cycle | Missing | Transport

  /** All nodes the walk would follow exist, and they form a tree: a diamond is rejected like a cycle. */
  ghost predicate WalkableTree(g: Graph, root: string) {
    && (forall x :: Reach(WalkKids(g), root, x) ==> GetContent(g, x).Found?)
    && TreeShaped(WalkKids(g), root)
  }

  /** The error names a reachable defect. */
  ghost predicate Blames(g: Graph, root: string, e: Error) {
    match e
    case Cycle => !TreeShaped(WalkKids(g), root)
    case Missing => exists x :: Reach(WalkKids(g), root, x) && GetContent(g, x).NotFound?
    case Transport => exists x :: Reach(WalkKids(g), root, x) && GetContent(g, x).ReadError?
  }

  type Edge = (string, nat)

  ghost predicate IsEdge(g: Graph, e: Edge, target: string) {
    e.1 < |SortedKids(g, e.0)| && SortedKids(g, e.0)[e.1] == target
  }

  /** Each visited node but the root was entered over one recorded edge of a visited node. */
  ghost predicate Entered(g: Graph, root: string, visited: set<string>, via: map<string, Edge>) {
    && via.Keys == visited - {root}
    && (forall v :: v in visited ==> GetContent(g, v).Found? && Reach(WalkKids(g), root, v))
    && (forall v :: v in via ==> via[v].0 in visited && IsEdge(g, via[v], v))
  }

  /** Every edge out of a node visited since `before` is the recorded one of its target. */
  ghost predicate Expanded(g: Graph, before: set<string>, visited: set<string>, via: map<string, Edge>) {
    forall v, i :: v in visited && v !in before && 0 <= i < |SortedKids(g, v)| ==>
      SortedKids(g, v)[i] in via && via[SortedKids(g, v)[i]] == (v, i)
  }

  ghost predicate Kept(via: map<string, Edge>, via': map<string, Edge>) {
    forall v :: v in via ==> v in via' && via'[v] == via[v]
  }

  /** Edges recorded since `via` start at nodes visited since `before`, or are the edge `e` just taken. */
  ghost predicate NewEdges(before: set<string>, via: map<string, Edge>, via': map<string, Edge>, e: Option<Edge>) {
    forall v :: v in via' && v !in via ==> via'[v].0 !in before || Some(via'[v]) == e
  }

  ghost predicate Unused(via: map<string, Edge>, e: Edge) {
    forall v :: v in via ==> via[v] != e
  }

  /** The call that starts at the root, or one over an edge of a visited node that was not taken yet. */
  ghost predicate Entry(g: Graph, root: string, visited: set<string>, via: map<string, Edge>, name: string, e: Option<Edge>) {
    if e == None then name == root && visited == {}
    else e.value.0 in visited && IsEdge(g, e.value, name) && Unused(via, e.value) && root in visited
  }

  /** The walker's state: nodes met, edges they were entered by, nodes in visiting order. */
  datatype State = State(visited: set<string>, via: map<string, Edge>, order: seq<string>)

  ghost function Segment(s: State, t: State): seq<string>
    requires s.order <= t.order
  {
    t.order[|s.order|..]
  }

  /** From `s` to `t` the walk only added nodes, edges and visits, and the visits are the new nodes. */
  ghost predicate Grew(s: State, t: State) {
    && s.visited <= t.visited && Kept(s.via, t.via) && s.order <= t.order
    && Elems(Segment(s, t)) == t.visited - s.visited
    && |Segment(s, t)| == |t.visited - s.visited|
  }

  /** What a successful visit of `name` over edge `e` has done. */
  ghost predicate Visited(g: Graph, root: string, s: State, t: State, name: string, e: Option<Edge>) {
    && Entered(g, root, t.visited, t.via) && Grew(s, t) && Expanded(g, s.visited, t.visited, t.via)
    && name in t.visited && name !in s.visited && root in t.visited
    && NewEdges(s.visited, s.via, t.via, e)
    && (e.Some? ==> name in t.via && t.via[name] == e.value)
    && Pre(g, name, Segment(s, t))
  }

  /** The loop over the children of `name` after following the children `ks`; `m` is its initial state. */
  ghost predicate Looping(g: Graph, root: string, name: string, before: set<string>, m: State, t: State, ks: seq<string>) {
    && m.visited == before + {name} && name !in before && root in m.visited
    && Entered(g, root, t.visited, t.via) && Grew(m, t) && Expanded(g, m.visited, t.visited, t.via)
    && NewEdges(before, m.via, t.via, None)
    && Taken(g, t.via, name, |ks|)
    && PreList(g, ks, Segment(m, t))
  }

  lemma GrewTrans(m: State, s: State, t: State)
    requires Grew(m, s) && Grew(s, t)
    ensures Grew(m, t) && Segment(m, t) == Segment(m, s) + Segment(s, t)
  {
    assert Segment(m, t) == Segment(m, s) + Segment(s, t);
    ElemsConcat(Segment(m, s), Segment(s, t));
    SetChain(m.visited, s.visited, t.visited);
  }

  lemma SetChain(a: set<string>, b: set<string>, c: set<string>)
    requires a <= b <= c
    ensures c - a == (b - a) + (c - b) && |c - a| == |b - a| + |c - b|
  {
    assert c - a == (b - a) + (c - b);
  }

  lemma NewEdgesTrans(before: set<string>, s: State, via: map<string, Edge>, via': map<string, Edge>, e: Edge)
    requires NewEdges(before, via, s.via, None) && NewEdges(s.visited, s.via, via', Some(e)) && Kept(s.via, via')
    requires before <= s.visited && e.0 !in before
    ensures NewEdges(before, via, via', None)
  {
    forall v | v in via' && v !in via ensures via'[v].0 !in before {
      if v in s.via { assert via'[v] == s.via[v]; }
    }
  }

  lemma LoopStep(g: Graph, root: string, name: string, before: set<string>, m: State, s: State, t: State, ks: seq<string>, child: string)
    requires Looping(g, root, name, before, m, s, ks)
    requires |ks| < |SortedKids(g, name)| && SortedKids(g, name)[|ks|] == child
    requires Visited(g, root, s, t, child, Some((name, |ks|)))
    ensures Looping(g, root, name, before, m, t, ks + [child])
  {
    GrewTrans(m, s, t);
    PreListSnoc(g, ks, child, Segment(m, s), Segment(s, t));
    ExpandedExtends(g, m.visited, s.visited, t.visited, s.via, t.via);
    NewEdgesTrans(before, s, m.via, t.via, (name, |ks|));
    assert name in s.visited;
    TakenNext(g, s.visited, s.via, t.via, name, |ks|);
  }

  /** The child at position |ks| may be visited next. */
  lemma LoopEntry(g: Graph, root: string, name: string, before: set<string>, m: State, s: State, ks: seq<string>, child: string)
    requires Looping(g, root, name, before, m, s, ks)
    requires |ks| < |SortedKids(g, name)| && SortedKids(g, name)[|ks|] == child
    ensures Entered(g, root, s.visited, s.via) && Entry(g, root, s.visited, s.via, child, Some((name, |ks|)))
    ensures Reach(WalkKids(g), root, child)
  {
    assert name in s.visited;
    ReachStep(WalkKids(g), root, name, |ks|);
  }

  lemma LoopStart(g: Graph, root: string, name: string, before: set<string>, m: State)
    requires Entered(g, root, m.visited, m.via)
    requires m.visited == before + {name} && name !in before && root in m.visited && Taken(g, m.via, name, 0)
    ensures Looping(g, root, name, before, m, m, [])
  {
    assert Segment(m, m) == [];
  }

  lemma LoopEndExpanded(g: Graph, before: set<string>, name: string, visited: set<string>, via: map<string, Edge>)
    requires Expanded(g, before + {name}, visited, via) && Taken(g, via, name, |SortedKids(g, name)|)
    ensures Expanded(g, before, visited, via)
  {
  }

  lemma LoopEndEdges(before: set<string>, via: map<string, Edge>, mid: map<string, Edge>, via': map<string, Edge>, e: Option<Edge>)
    requires NewEdges(before, via, mid, e) && NewEdges(before, mid, via', None) && Kept(mid, via')
    ensures NewEdges(before, via, via', e)
  {
    forall v | v in via' && v !in via ensures via'[v].0 !in before || Some(via'[v]) == e {
      if v in mid { assert via'[v] == mid[v]; }
    }
  }

  lemma GrewByOne(s: State, m: State, name: string)
    requires m.visited == s.visited + {name} && name !in s.visited && m.order == s.order + [name] && Kept(s.via, m.via)
    ensures Grew(s, m) && Segment(s, m) == [name]
  {
    assert Segment(s, m) == [name];
    assert m.visited - s.visited == {name} && Elems([name]) == {name};
  }

  lemma PreOfList(g: Graph, name: string, s: seq<string>)
    requires PreList(g, SortedKids(g, name), s)
    ensures Pre(g, name, [name] + s)
  {
    assert ([name] + s)[1..] == s;
  }

  lemma LoopEnd(g: Graph, root: string, s: State, m: State, t: State, name: string, e: Option<Edge>)
    requires Looping(g, root, name, s.visited, m, t, SortedKids(g, name))
    requires m.order == s.order + [name] && Kept(s.via, m.via) && NewEdges(s.visited, s.via, m.via, e)
    requires e.Some? ==> name in m.via && m.via[name] == e.value
    ensures Visited(g, root, s, t, name, e)
  {
    GrewByOne(s, m, name);
    GrewTrans(s, m, t);
    LoopEndExpanded(g, s.visited, name, t.visited, t.via);
    LoopEndEdges(s.visited, s.via, m.via, t.via, e);
    PreOfList(g, name, Segment(m, t));
  }

  class Walker {
    const g: Graph
    var visited: set<string>
    var order: seq<string>
    ghost var via: map<string, Edge>

    constructor (g: Graph)
      ensures this.g == g && Now() == State({}, map[], [])
    {
      this.g := g;
      visited, order, via := {}, [], map[];
    }

    ghost function Now(): State
      reads this
    {
      State(visited, via, order)
    }

    method Visit(name: string, ghost root: string, ghost e: Option<Edge>) returns (err: Option<Error>)
      requires Entered(g, root, visited, via) && Entry(g, root, visited, via, name, e)
      requires Reach(WalkKids(g), root, name)
      modifies this
      ensures err == None ==> Visited(g, root, old(Now()), Now(), name, e)
      ensures err.Some? ==> !WalkableTree(g, root) && Blames(g, root, err.value)
      decreases g.contents.Keys - visited, 0, 0
    {
      if name in visited {
        RevisitBreaks(g, root, visited, via, name, e);
        return Some(Cycle);
      }
      visited := visited + {name};
      var content := GetContent(g, name);
      if content.NotFound? { return Some(Missing); }
      if content.ReadError? { return Some(Transport); }
      order := order + [name];
      if e.Some? { via := via[name := e.value]; }
      ghost var m := Now();
      EnteredNext(g, root, old(Now()), m, name, e);
      err := VisitChildren(name, root, old(visited));
      if err == None {
        LoopEnd(g, root, old(Now()), m, Now(), name, e);
      }
    }

    /** The loop over the sorted copy of the children. */
    method VisitChildren(name: string, ghost root: string, ghost before: set<string>) returns (err: Option<Error>)
      requires Entered(g, root, visited, via) && GetContent(g, name).Found?
      requires visited == before + {name} && name !in before && root in visited && Taken(g, via, name, 0)
      modifies this
      ensures err == None ==> Looping(g, root, name, before, old(Now()), Now(), SortedKids(g, name))
      ensures err.Some? ==> !WalkableTree(g, root) && Blames(g, root, err.value)
      decreases g.contents.Keys - visited, 1, 0
    {
      var children := Sort(LexLe, GetContent(g, name).value.children);
      assert NonEmpty(children) == SortedKids(g, name);
      LoopStart(g, root, name, before, Now());
      for i := 0 to |children|
        invariant Looping(g, root, name, before, old(Now()), Now(), NonEmpty(children[..i]))
      {
        NonEmptyNext(children, i);
        if children[i] == "" { continue; }
        PrefixOfKids(children, i);
        err := VisitNext(children[i], root, name, before, old(Now()), NonEmpty(children[..i]));
        if err.Some? { return; }
      }
      assert children[..|children|] == children;
      return None;
    }

    /** One round of that loop. */
    method VisitNext(child: string, ghost root: string, ghost name: string, ghost before: set<string>, ghost m: State, ghost ks: seq<string>)
      returns (err: Option<Error>)
      requires Looping(g, root, name, before, m, Now(), ks)
      requires |ks| < |SortedKids(g, name)| && SortedKids(g, name)[|ks|] == child
      modifies this
      ensures err == None ==> Looping(g, root, name, before, m, Now(), ks + [child])
      ensures err.Some? ==> !WalkableTree(g, root) && Blames(g, root, err.value)
      decreases g.contents.Keys - m.visited, 0, 1
    {
      LoopEntry(g, root, name, before, m, Now(), ks, child);
      ghost var s := Now();
      assert g.contents.Keys - visited <= g.contents.Keys - m.visited;
      err := Visit(child, root, Some((name, |ks|)));
      if err == None {
        LoopStep(g, root, name, before, m, s, Now(), ks, child);
      }
    }
  }

  /** Recording the node just met and the edge it was entered by. */
  lemma EnteredNext(g: Graph, root: string, s: State, m: State, name: string, e: Option<Edge>)
    requires Entered(g, root, s.visited, s.via) && Entry(g, root, s.visited, s.via, name, e)
    requires name !in s.visited && GetContent(g, name).Found? && Reach(WalkKids(g), root, name)
    requires m == State(s.visited + {name}, if e.Some? then s.via[name := e.value] else s.via, s.order + [name])
    ensures Entered(g, root, m.visited, m.via) && Taken(g, m.via, name, 0) && root in m.visited
    ensures Kept(s.via, m.via) && NewEdges(s.visited, s.via, m.via, e)
  {
    NothingTaken(g, root, s, m, name, e);
  }

  /** No edge of a node just met is recorded. */
  lemma NothingTaken(g: Graph, root: string, s: State, m: State, name: string, e: Option<Edge>)
    requires Entered(g, root, s.visited, s.via) && Entry(g, root, s.visited, s.via, name, e) && name !in s.visited
    requires m.via == if e.Some? then s.via[name := e.value] else s.via
    ensures Taken(g, m.via, name, 0)
  {
  }

  /** The first `k` edges of `name` are recorded, the others are unused. */
  ghost predicate Taken(g: Graph, via: map<string, Edge>, name: string, k: nat) {
    && (forall i :: i >= k ==> Unused(via, (name, i)))
    && (forall i :: 0 <= i < k && i < |SortedKids(g, name)| ==>
          SortedKids(g, name)[i] in via && via[SortedKids(g, name)[i]] == (name, i))
  }

  lemma TakenNext(g: Graph, was: set<string>, via: map<string, Edge>, via': map<string, Edge>, name: string, k: nat)
    requires Taken(g, via, name, k) && name in was && Kept(via, via') && NewEdges(was, via, via', Some((name, k)))
    requires k < |SortedKids(g, name)| && SortedKids(g, name)[k] in via' && via'[SortedKids(g, name)[k]] == (name, k)
    ensures Taken(g, via', name, k + 1)
  {
  }

  lemma ExpandedExtends(g: Graph, before: set<string>, mid: set<string>, done: set<string>, via: map<string, Edge>, via': map<string, Edge>)
    requires before <= mid <= done && Expanded(g, before, mid, via) && Expanded(g, mid, done, via') && Kept(via, via')
    ensures Expanded(g, before, done, via')
  {
  }

  lemma NonEmptyNext(names: seq<string>, i: nat)
    requires i < |names|
    ensures NonEmpty(names[..i + 1]) == if names[i] == "" then NonEmpty(names[..i]) else NonEmpty(names[..i]) + [names[i]]
  {
    assert names[..i + 1][..i] == names[..i];
  }

  lemma {:induction false} PrefixOfKids(names: seq<string>, i: nat)
    requires i < |names| && names[i] != ""
    ensures |NonEmpty(names[..i])| < |NonEmpty(names)| && NonEmpty(names)[|NonEmpty(names[..i])|] == names[i]
    decreases |names|
  {
    if i < |names| - 1 {
      PrefixOfKids(names[..|names| - 1], i);
      assert names[..|names| - 1][..i] == names[..i];
    }
  }

  /** Meeting a visited node again is the root re-entered, or a second edge into the same node. */
  lemma RevisitBreaks(g: Graph, root: string, visited: set<string>, via: map<string, Edge>, name: string, e: Option<Edge>)
    requires Entered(g, root, visited, via) && Entry(g, root, visited, via, name, e) && name in visited
    ensures !TreeShaped(WalkKids(g), root)
  {
    var (x, i) := e.value;
    assert WalkKids(g)(x)[i] == name;
    if name != root {
      var (y, j) := via[name];
      assert WalkKids(g)(y)[j] == name;
    }
  }

  /** A finished walk has recorded every edge below the root, each as the only way into its target. */
  lemma FinishedIsTree(g: Graph, root: string, t: State)
    requires Entered(g, root, t.visited, t.via) && Expanded(g, {}, t.visited, t.via) && root in t.visited
    ensures WalkableTree(g, root)
    ensures forall x :: x in t.visited <==> Reach(WalkKids(g), root, x)
  {
    var kids := WalkKids(g);
    assert ClosedUnder(kids, t.visited) by {
      forall x, i | x in t.visited && 0 <= i < |kids(x)| ensures kids(x)[i] in t.visited {
        assert SortedKids(g, x)[i] in t.via;
      }
    }
    forall x ensures x in t.visited <==> Reach(kids, root, x) {
      if Reach(kids, root, x) {
        var p :| Follow(kids, root, p) == Some(x);
        ClosedContains(kids, t.visited, root, p);
      }
    }
    forall x, i | Reach(kids, root, x) && 0 <= i < |kids(x)| ensures kids(x)[i] != root && t.via[kids(x)[i]] == (x, i) {
      assert x in t.visited && SortedKids(g, x)[i] in t.via;
    }
  }

  /** WalkSnapshotContentSubtree with a callback that never fails: it succeeds exactly on trees, and then
      visits every reachable node once, in preorder with children by name. */
  method WalkSnapshotContentSubtree(g: Graph, root: string) returns (err: Option<Error>, order: seq<string>)
    ensures err == None <==> WalkableTree(g, root)
    ensures err == None ==> Pre(g, root, order) && NoDup(order)
    ensures err == None ==> forall x :: x in order <==> Reach(WalkKids(g), root, x)
    ensures err.Some? ==> Blames(g, root, err.value)
  {
    var w := new Walker(g);
    ReachSelf(WalkKids(g), root);
    err := w.Visit(root, root, None);
    order := w.order;
    if err == None {
      FinishedIsTree(g, root, w.Now());
      assert Segment(State({}, map[], []), w.Now()) == order;
      SameSizeNoDup(order);
      forall x ensures x in order <==> x in w.visited {
        assert x in Elems(order) <==> x in w.visited;
      }
    }
  }

  lemma {:induction false} SameSizeNoDup(s: seq<string>)
    requires |s| == |Elems(s)|
    ensures NoDup(s)
  {
    if s != [] {
      var p, x := s[..|s| - 1], s[|s| - 1];
      assert s == p + [x];
      ElemsConcat(p, [x]);
      assert Elems([x]) == {x};
      ElemsAtMost(p);
      assert x !in Elems(p);
      SameSizeNoDup(p);
    }
  }

  lemma {:induction false} ElemsAtMost(s: seq<string>)
    ensures |Elems(s)| <= |s|
  {
    if s != [] {
      var p, x := s[..|s| - 1], s[|s| - 1];
      assert s == p + [x];
      ElemsConcat(p, [x]);
      assert Elems([x]) == {x};
      ElemsAtMost(p);
    }
  }

  // ---- the same nodes as the listing walk ------------------------------------------------------------------

  lemma {:induction false} NonEmptyKeeps(names: seq<string>)
    requires "" !in names
    ensures NonEmpty(names) == names
  {
    if names != [] {
      NonEmptyKeeps(names[..|names| - 1]);
    }
  }

  /** Without empty references the two walks follow the same children, in another order. */
  lemma SameChildren(g: Graph, x: string)
    requires "" !in Subtree.Kids(g, x)
    ensures multiset(SortedKids(g, x)) == multiset(Subtree.Kids(g, x))
  {
    LexOrder();
    SortSpec(LexLe, Subtree.Kids(g, x));
    assert "" !in multiset(Subtree.Kids(g, x));
    NonEmptyKeeps(Sort(LexLe, Subtree.Kids(g, x)));
  }

  lemma {:induction false} SameNodesOneWay(from: string -> seq<string>, to: string -> seq<string>, root: string, p: seq<nat>)
    requires Follow(from, root, p).Some?
    requires forall x :: Reach(from, root, x) ==> multiset(from(x)) == multiset(to(x))
    ensures Reach(to, root, Follow(from, root, p).value)
  {
    if p == [] {
      ReachSelf(to, root);
    } else {
      SameNodesOneWay(from, to, root, p[..|p| - 1]);
      var y := Follow(from, root, p[..|p| - 1]).value;
      assert Reach(from, root, y);
      var c := from(y)[p[|p| - 1]];
      assert c in multiset(from(y));
      var j :| 0 <= j < |to(y)| && to(y)[j] == c;
      ReachStep(to, root, y, j);
    }
  }

  /** When no reachable node declares an empty reference, the ordered walk visits exactly the nodes whose
      objects the listing walk collects. */
  lemma SameNodes(g: Graph, root: string, x: string)
    requires forall y :: Reach(Subtree.Children(g), root, y) || Reach(WalkKids(g), root, y) ==> "" !in Subtree.Kids(g, y)
    ensures Reach(WalkKids(g), root, x) <==> Reach(Subtree.Children(g), root, x)
  {
    forall y | Reach(Subtree.Children(g), root, y) || Reach(WalkKids(g), root, y)
      ensures multiset(WalkKids(g)(y)) == multiset(Subtree.Children(g)(y))
    {
      SameChildren(g, y);
    }
    if Reach(WalkKids(g), root, x) {
      var p :| Follow(WalkKids(g), root, p) == Some(x);
      SameNodesOneWay(WalkKids(g), Subtree.Children(g), root, p);
    }
    if Reach(Subtree.Children(g), root, x) {
      var p :| Follow(Subtree.Children(g), root, p) == Some(x);
      SameNodesOneWay(Subtree.Children(g), WalkKids(g), root, p);
    }
  }

  // ---- the order, in terms of the store ------------------------------------------------------------------

  lemma {:induction false} NonEmptyExactly(names: seq<string>)
    ensures forall x :: x in NonEmpty(names) <==> x in names && x != ""
  {
    if names != [] {
      NonEmptyExactly(names[..|names| - 1]);
      assert names == names[..|names| - 1] + [names[|names| - 1]];
    }
  }

  lemma SortedSnoc(s: seq<string>, x: string)
    requires Sorted(LexLe, s) && forall y :: y in s ==> LexLe(y, x)
    ensures Sorted(LexLe, s + [x])
  {
    forall i, j | 0 <= i < j < |s + [x]| ensures LexLe((s + [x])[i], (s + [x])[j]) {
      assert s[i] in s;
    }
  }

  lemma {:induction false} NonEmptySorted(names: seq<string>)
    requires Sorted(LexLe, names)
    ensures Sorted(LexLe, NonEmpty(names))
  {
    if names != [] {
      var init, last := names[..|names| - 1], names[|names| - 1];
      NonEmptySorted(init);
      NonEmptyExactly(init);
      forall y | y in NonEmpty(init) ensures LexLe(y, last) {
        var i :| 0 <= i < |init| && init[i] == y;
        assert names[i] == y;
      }
      SortedSnoc(NonEmpty(init), last);
    }
  }

  /** The children of a stored node as the walk takes them: the declared names that are not empty, by name. */
  lemma KidsByName(g: Graph, x: string)
    requires x in g.contents && x !in g.failing
    ensures forall y :: y in SortedKids(g, x) <==> y in g.contents[x].children && y != ""
    ensures forall p, q :: 0 <= p < q < |SortedKids(g, x)| ==> LexLe(SortedKids(g, x)[p], SortedKids(g, x)[q])
  {
    var kids := g.contents[x].children;
    LexOrder();
    SortSpec(LexLe, kids);
    NonEmptyExactly(Sort(LexLe, kids));
    NonEmptySorted(Sort(LexLe, kids));
    forall y ensures y in Sort(LexLe, kids) <==> y in kids {
      assert y in Elems(Sort(LexLe, kids)) <==> y in Elems(kids);
    }
  }

  /** Where the preorder of the p-th child begins. */
  lemma {:induction false} KidAt(g: Graph, ks: seq<string>, s: seq<string>, p: nat) returns (j: nat)
    requires PreList(g, ks, s) && p < |ks|
    ensures j < |s| && s[j] == ks[p]
    decreases |ks|
  {
    var m: nat :| m <= |s| && PreList(g, ks[..|ks| - 1], s[..m]) && Pre(g, ks[|ks| - 1], s[m..]);
    j := m;
    if p < |ks| - 1 { j := KidAt(g, ks[..|ks| - 1], s[..m], p); }
  }

  lemma {:induction false} KidsInOrder(g: Graph, ks: seq<string>, s: seq<string>, p: nat, q: nat) returns (j: nat, k: nat)
    requires PreList(g, ks, s) && p < q < |ks|
    ensures j < k < |s| && s[j] == ks[p] && s[k] == ks[q]
    decreases |ks|
  {
    var m: nat :| m <= |s| && PreList(g, ks[..|ks| - 1], s[..m]) && Pre(g, ks[|ks| - 1], s[m..]);
    if q == |ks| - 1 {
      j := KidAt(g, ks[..|ks| - 1], s[..m], p);
      k := m;
    } else {
      j, k := KidsInOrder(g, ks[..|ks| - 1], s[..m], p, q);
    }
  }

  lemma SliceOfHead(s: seq<string>, m: nat, i: nat, hi: nat)
    requires i < hi <= m <= |s|
    ensures s[..m][i] == s[i] && s[..m][i..hi] == s[i..hi]
  {
  }

  lemma SliceOfTail(s: seq<string>, m: nat, i: nat, hi: nat)
    requires m <= i < hi <= |s|
    ensures s[m..][i - m] == s[i] && s[m..][i - m..hi - m] == s[i..hi]
  {
  }

  /** The preorder of a node inside a longer one. */
  lemma {:induction false} PreInside(g: Graph, n: string, s: seq<string>, i: nat) returns (hi: nat)
    requires Pre(g, n, s) && i < |s|
    ensures i < hi <= |s| && Pre(g, s[i], s[i..hi])
    decreases |s|, 0
  {
    if i == 0 {
      hi := |s|;
      assert s[0..|s|] == s;
    } else {
      var inner := PreInsideList(g, SortedKids(g, n), s[1..], i - 1);
      hi := inner + 1;
      SliceOfTail(s, 1, i, hi);
    }
  }

  lemma SplitLast(g: Graph, ks: seq<string>, s: seq<string>) returns (m: nat)
    requires PreList(g, ks, s) && s != []
    ensures ks != [] && m < |s| && PreList(g, ks[..|ks| - 1], s[..m]) && Pre(g, ks[|ks| - 1], s[m..])
  {
    m :| m <= |s| && PreList(g, ks[..|ks| - 1], s[..m]) && Pre(g, ks[|ks| - 1], s[m..]);
  }

  lemma {:induction false} PreInsideList(g: Graph, ks: seq<string>, s: seq<string>, i: nat) returns (hi: nat)
    requires PreList(g, ks, s) && i < |s|
    ensures i < hi <= |s| && Pre(g, s[i], s[i..hi])
    decreases |s|, |ks| + 1
  {
    var m := SplitLast(g, ks, s);
    if i < m {
      hi := PreInsideList(g, ks[..|ks| - 1], s[..m], i);
      SliceOfHead(s, m, i, hi);
    } else {
      var inner := PreInside(g, ks[|ks| - 1], s[m..], i - m);
      hi := inner + m;
      SliceOfTail(s, m, i, hi);
    }
  }

  /** Parents come first: after a node, each of its declared children. */
  lemma ParentFirst(g: Graph, root: string, order: seq<string>, i: nat, a: string) returns (j: nat)
    requires Pre(g, root, order) && i < |order| && order[i] in g.contents && order[i] !in g.failing
    requires a in g.contents[order[i]].children && a != ""
    ensures i < j < |order| && order[j] == a
  {
    var p := PlaceByName(g, order[i], a);
    var hi := PreInside(g, root, order, i);
    var rest := order[i + 1..hi];
    assert order[i..hi][1..] == rest;
    var m := KidAt(g, SortedKids(g, order[i]), rest, p);
    j := i + 1 + m;
    assert rest[m] == order[j];
  }

  lemma PlaceByName(g: Graph, x: string, a: string) returns (p: nat)
    requires x in g.contents && x !in g.failing && a in g.contents[x].children && a != ""
    ensures p < |SortedKids(g, x)| && SortedKids(g, x)[p] == a
  {
    KidsByName(g, x);
    assert a in SortedKids(g, x);
    p :| p < |SortedKids(g, x)| && SortedKids(g, x)[p] == a;
  }

  lemma PlacesByName(g: Graph, x: string, a: string, b: string) returns (p: nat, q: nat)
    requires x in g.contents && x !in g.failing && a in g.contents[x].children && b in g.contents[x].children
    requires a != "" && a != b && LexLe(a, b)
    ensures p < q < |SortedKids(g, x)| && SortedKids(g, x)[p] == a && SortedKids(g, x)[q] == b
  {
    KidsByName(g, x);
    LexTotal(a, b);
    var kids := SortedKids(g, x);
    p :| p < |kids| && kids[p] == a;
    q :| q < |kids| && kids[q] == b;
  }

  /** Siblings come by name: of two children a node declares, the one with the smaller name first. */
  lemma SiblingsByName(g: Graph, root: string, order: seq<string>, i: nat, a: string, b: string) returns (j: nat, k: nat)
    requires Pre(g, root, order) && i < |order| && order[i] in g.contents && order[i] !in g.failing
    requires a in g.contents[order[i]].children && b in g.contents[order[i]].children
    requires a != "" && a != b && LexLe(a, b)
    ensures i < j < k < |order| && order[j] == a && order[k] == b
  {
    var p, q := PlacesByName(g, order[i], a, b);
    var hi := PreInside(g, root, order, i);
    var rest := order[i + 1..hi];
    assert order[i..hi][1..] == rest;
    var m, n := KidsInOrder(g, SortedKids(g, order[i]), rest, p, q);
    j, k := i + 1 + m, i + 1 + n;
    assert rest[m] == order[j] && rest[n] == order[k];
  }
}
