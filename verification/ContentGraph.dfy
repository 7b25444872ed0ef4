/** The SnapshotContent graph: nodes by name, child references in order, paths as child positions. */
module ContentGraph {
  import opened OwnerRef
  import opened ManifestKeys

  datatype Fetched<+T> = Found(value: T) | NotFound | ReadError

  datatype Content = Content(checkpointName: string, children: seq<string>)

  /** A checkpoint as the archive service answers for it. */
  datatype Checkpoint = NotReady | Unreadable | Archive(objects: seq<Manifest>)

  /** The store; names in `failing` answer every read with an API error. */
  datatype Graph = Graph(contents: map<string, Content>, checkpoints: map<string, Checkpoint>, failing: set<string>)

  function GetContent(g: Graph, name: string): Fetched<Content> {
    if name in g.failing then ReadError else if name in g.contents then Found(g.contents[name]) else NotFound
  }

  function GetCheckpoint(g: Graph, name: string): Fetched<Checkpoint> {
    if name in g.failing then ReadError else if name in g.checkpoints then Found(g.checkpoints[name]) else NotFound
  }

  // ---- paths ----------------------------------------------------------------------------------------

  /** The node reached from `a` by taking the children at positions `p`. */
  function Follow(kids: string -> seq<string>, a: string, p: seq<nat>): Option<string> {
    if p == [] then Some(a)
    else match Follow(kids, a, p[..|p| - 1])
      case None => None
      case Some(y) => if p[|p| - 1] < |kids(y)| then Some(kids(y)[p[|p| - 1]]) else None
  }

  ghost predicate Reach(kids: string -> seq<string>, a: string, b: string) {
    exists p :: Follow(kids, a, p) == Some(b)
  }

  lemma FollowSnoc(kids: string -> seq<string>, a: string, p: seq<nat>, i: nat)
    ensures Follow(kids, a, p + [i]) == match Follow(kids, a, p)
      case None => None
      case Some(y) => if i < |kids(y)| then Some(kids(y)[i]) else None
  {
    assert (p + [i])[..|p|] == p;
  }

  lemma {:induction false} FollowConcat(kids: string -> seq<string>, a: string, p: seq<nat>, q: seq<nat>)
    ensures Follow(kids, a, p + q) == match Follow(kids, a, p)
      case None => None
      case Some(b) => Follow(kids, b, q)
  {
    if q == [] {
      assert p + q == p;
    } else {
      FollowConcat(kids, a, p, q[..|q| - 1]);
      assert (p + q)[..|p + q| - 1] == p + q[..|q| - 1];
    }
  }

  lemma ReachSelf(kids: string -> seq<string>, a: string)
    ensures Reach(kids, a, a)
  {
    assert Follow(kids, a, []) == Some(a);
  }

  lemma ReachStep(kids: string -> seq<string>, a: string, b: string, i: nat)
    requires Reach(kids, a, b) && i < |kids(b)|
    ensures Reach(kids, a, kids(b)[i])
  {
    var p :| Follow(kids, a, p) == Some(b);
    FollowSnoc(kids, a, p, i);
    assert Follow(kids, a, p + [i]) == Some(kids(b)[i]);
  }

  lemma ReachTrans(kids: string -> seq<string>, a: string, b: string, c: string)
    requires Reach(kids, a, b) && Reach(kids, b, c)
    ensures Reach(kids, a, c)
  {
    var p :| Follow(kids, a, p) == Some(b);
    var q :| Follow(kids, b, q) == Some(c);
    FollowConcat(kids, a, p, q);
    assert Follow(kids, a, p + q) == Some(c);
  }

  ghost predicate ClosedUnder(kids: string -> seq<string>, s: set<string>) {
    forall x, i :: x in s && 0 <= i < |kids(x)| ==> kids(x)[i] in s
  }

  /** A set that contains the start and is closed under children contains everything reachable. */
  lemma {:induction false} ClosedContains(kids: string -> seq<string>, s: set<string>, a: string, p: seq<nat>)
    requires a in s && ClosedUnder(kids, s) && Follow(kids, a, p).Some?
    ensures Follow(kids, a, p).value in s
  {
    if p != [] {
      ClosedContains(kids, s, a, p[..|p| - 1]);
    }
  }

  // ---- trees ------------------------------------------------------------------------------------------

  /** Every node below the root hangs on exactly one edge, and none leads back to the root. */
  ghost predicate TreeShaped(kids: string -> seq<string>, root: string) {
    && (forall x, i :: Reach(kids, root, x) && 0 <= i < |kids(x)| ==> kids(x)[i] != root)
    && (forall x, i, y, j ::
          (Reach(kids, root, x) && Reach(kids, root, y) && 0 <= i < |kids(x)| && 0 <= j < |kids(y)| && kids(x)[i] == kids(y)[j]) ==>
          x == y && i == j)
  }

  /** In a tree a node is reached by one path only. */
  lemma {:induction false} UniquePath(kids: string -> seq<string>, root: string, p: seq<nat>, q: seq<nat>)
    requires TreeShaped(kids, root)
    requires Follow(kids, root, p).Some? && Follow(kids, root, p) == Follow(kids, root, q)
    ensures p == q
    decreases |p|
  {
    if p != [] && q != [] {
      var p', q' := p[..|p| - 1], q[..|q| - 1];
      var x, y := Follow(kids, root, p').value, Follow(kids, root, q').value;
      assert Reach(kids, root, x) && Reach(kids, root, y);
      assert kids(x)[p[|p| - 1]] == kids(y)[q[|q| - 1]];
      UniquePath(kids, root, p', q');
      assert p == p' + [p[|p| - 1]] && q == q' + [q[|q| - 1]];
    } else if p != [] {
      var x := Follow(kids, root, p[..|p| - 1]).value;
      assert Reach(kids, root, x);
    } else if q != [] {
      var y := Follow(kids, root, q[..|q| - 1]).value;
      assert Reach(kids, root, y);
    }
  }

  /** Subtrees under different edges of one node share no node. */
  lemma SiblingsDisjoint(kids: string -> seq<string>, root: string, n: string, i: nat, j: nat, x: string)
    requires TreeShaped(kids, root) && Reach(kids, root, n)
    requires i < |kids(n)| && j < |kids(n)| && i != j
    ensures !(Reach(kids, kids(n)[i], x) && Reach(kids, kids(n)[j], x))
  {
    if Reach(kids, kids(n)[i], x) && Reach(kids, kids(n)[j], x) {
      var p :| Follow(kids, root, p) == Some(n);
      var a :| Follow(kids, kids(n)[i], a) == Some(x);
      var b :| Follow(kids, kids(n)[j], b) == Some(x);
      FollowSnoc(kids, root, p, i);
      FollowSnoc(kids, root, p, j);
      FollowConcat(kids, root, p + [i], a);
      FollowConcat(kids, root, p + [j], b);
      assert (p + [i] + a)[|p|] == i && (p + [j] + b)[|p|] == j;
      UniquePath(kids, root, p + [i] + a, p + [j] + b);
    }
  }

  /** A node is not below itself. */
  lemma NotBelowItself(kids: string -> seq<string>, root: string, n: string, i: nat)
    requires TreeShaped(kids, root) && Reach(kids, root, n) && i < |kids(n)|
    ensures !Reach(kids, kids(n)[i], n)
  {
    if Reach(kids, kids(n)[i], n) {
      var p :| Follow(kids, root, p) == Some(n);
      var a :| Follow(kids, kids(n)[i], a) == Some(n);
      FollowSnoc(kids, root, p, i);
      FollowConcat(kids, root, p + [i], a);
      UniquePath(kids, root, p + [i] + a, p);
    }
  }

  /** A path is its first edge and the rest. */
  lemma FollowFirst(kids: string -> seq<string>, n: string, p: seq<nat>)
    requires p != [] && Follow(kids, n, p).Some?
    ensures p[0] < |kids(n)| && Follow(kids, kids(n)[p[0]], p[1..]) == Follow(kids, n, p)
  {
    assert p == [p[0]] + p[1..];
    FollowConcat(kids, n, [p[0]], p[1..]);
    FollowSnoc(kids, n, [], p[0]);
    assert [] + [p[0]] == [p[0]];
  }

  /** Everything reachable is the node itself or lies under one of its edges. */
  lemma ReachSplit(kids: string -> seq<string>, n: string, x: string) returns (i: nat)
    requires Reach(kids, n, x) && x != n
    ensures i < |kids(n)| && Reach(kids, kids(n)[i], x)
  {
    var p :| Follow(kids, n, p) == Some(x);
    FollowFirst(kids, n, p);
    i := p[0];
  }

  lemma TreeBelow(kids: string -> seq<string>, root: string, n: string)
    requires TreeShaped(kids, root) && Reach(kids, root, n)
    ensures TreeShaped(kids, n)
  {
    forall x, i | Reach(kids, n, x) && 0 <= i < |kids(x)| ensures kids(x)[i] != n {
      if kids(x)[i] == n {
        ReachTrans(kids, root, n, x);
        if x == n {
          ReachSelf(kids, n);
          NotBelowItself(kids, root, n, i);
        } else {
          var k := ReachSplit(kids, n, x);
          ReachStep(kids, kids(n)[k], x, i);
          NotBelowItself(kids, root, n, k);
        }
      }
    }
    forall x | Reach(kids, n, x) ensures Reach(kids, root, x) { ReachTrans(kids, root, n, x); }
  }
}
