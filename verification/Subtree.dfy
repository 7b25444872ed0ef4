/** The fail-closed walk that lists every object captured in a content subtree. */
module Subtree {
  import opened Ordering
  import opened OwnerRef
  import opened ManifestKeys
  import opened ContentGraph

  /** HTTP 400, 404, 409, 500, and an API error that carries no status. */
  datatype Error = BadRequest | Missing | Conflict | Internal | Transport

  datatype Result<+T> = Ok(value: T) | Err(error: Error)

  // ---- what the walk is supposed to see ---------------------------------------------------------------

  /** All declared children, empty names included. */
  function Kids(g: Graph, name: string): seq<string> {
    if GetContent(g, name).Found? then GetContent(g, name).value.children else []
  }

  function Children(g: Graph): string -> seq<string> {
    name => Kids(g, name)
  }

  /** The node exists, names a checkpoint, and the checkpoint is Ready and made of identifiable objects. */
  ghost predicate Healthy(g: Graph, name: string) {
    && GetContent(g, name).Found?
    && var cp := GetContent(g, name).value.checkpointName;
    && cp != "" && GetCheckpoint(g, cp).Found? && GetCheckpoint(g, cp).value.Archive?
    && forall i :: 0 <= i < |GetCheckpoint(g, cp).value.objects| ==> AggregatedKey(GetCheckpoint(g, cp).value.objects[i]).Some?
  }

  ghost function Own(g: Graph, name: string): seq<Manifest> {
    if Healthy(g, name) then GetCheckpoint(g, GetContent(g, name).value.checkpointName).value.objects else []
  }

  function KeyOf(m: Manifest): string {
    if AggregatedKey(m).Some? then AggregatedKey(m).value else ""
  }

  ghost function KeyAt(g: Graph, at: (string, nat)): string
    requires at.1 < |Own(g, at.0)|
  {
    KeyOf(Own(g, at.0)[at.1])
  }

  /** The i-th object of a reachable node. */
  ghost predicate Slot(g: Graph, root: string, at: (string, nat)) {
    Reach(Children(g), root, at.0) && at.1 < |Own(g, at.0)|
  }

  ghost predicate DistinctKeys(g: Graph, root: string) {
    forall a, b :: Slot(g, root, a) && Slot(g, root, b) && KeyAt(g, a) == KeyAt(g, b) ==> a == b
  }

  ghost predicate AllHealthy(g: Graph, root: string) {
    forall x :: Reach(Children(g), root, x) ==> x != "" && Healthy(g, x)
  }

  /** A complete, consistent subtree. */
  ghost predicate Complete(g: Graph, root: string) {
    AllHealthy(g, root) && DistinctKeys(g, root)
  }

  // ---- what an error says ---------------------------------------------------------------------------------

  /** The node names a checkpoint that answers with an archive. */
  predicate HasArchive(g: Graph, name: string) {
    && GetContent(g, name).Found?
    && var cp := GetContent(g, name).value.checkpointName;
    cp != "" && GetCheckpoint(g, cp).Found? && GetCheckpoint(g, cp).value.Archive?
  }

  /** The archive of a node, whether its objects are identifiable or not. */
  function Raw(g: Graph, name: string): seq<Manifest> {
    if HasArchive(g, name) then GetCheckpoint(g, GetContent(g, name).value.checkpointName).value.objects else []
  }

  /** A defect of one node, by the status it is reported with. */
  ghost predicate Fault(g: Graph, x: string, e: Error) {
    var content := GetContent(g, x);
    match e
    case BadRequest => false
    case Missing =>
      content.NotFound? ||
      (content.Found? && content.value.checkpointName != "" && GetCheckpoint(g, content.value.checkpointName).NotFound?)
    case Transport =>
      content.ReadError? ||
      (content.Found? && content.value.checkpointName != "" && GetCheckpoint(g, content.value.checkpointName).ReadError?)
    case Conflict =>
      x == "" ||
      (content.Found? && (content.value.checkpointName == "" || GetCheckpoint(g, content.value.checkpointName) == Found(NotReady)))
    case Internal =>
      || (content.Found? && GetCheckpoint(g, content.value.checkpointName) == Found(Unreadable))
      || exists i :: 0 <= i < |Raw(g, x)| && AggregatedKey(Raw(g, x)[i]) == None
  }

  ghost predicate RawSlot(g: Graph, root: string, at: (string, nat)) {
    Reach(Children(g), root, at.0) && at.1 < |Raw(g, at.0)|
  }

  /** One object is captured in two places of the subtree. */
  ghost predicate Repeats(g: Graph, root: string) {
    exists a: (string, nat), b: (string, nat) ::
      && RawSlot(g, root, a) && RawSlot(g, root, b) && a != b
      && AggregatedKey(Raw(g, a.0)[a.1]).Some? && AggregatedKey(Raw(g, a.0)[a.1]) == AggregatedKey(Raw(g, b.0)[b.1])
  }

  /** The status names a defect the subtree has. A repeated object shares its status with a subtree that is
      not persisted yet. */
  ghost predicate Explained(g: Graph, root: string, e: Error) {
    (exists x :: Reach(Children(g), root, x) && Fault(g, x, e)) || (e == Conflict && Repeats(g, root))
  }

  lemma HealthyHasNoFault(g: Graph, x: string, e: Error)
    requires x != "" && Healthy(g, x)
    ensures !Fault(g, x, e) && Raw(g, x) == Own(g, x)
  {
  }

  /** In a subtree whose nodes are all healthy only a repeated object is left to report. */
  lemma HealthyReportsRepeats(g: Graph, root: string, e: Error)
    requires AllHealthy(g, root) && Explained(g, root, e)
    ensures e == Conflict && !DistinctKeys(g, root)
  {
    if x :| Reach(Children(g), root, x) && Fault(g, x, e) {
      HealthyHasNoFault(g, x, e);
    }
    var a: (string, nat), b: (string, nat) :|
      && RawSlot(g, root, a) && RawSlot(g, root, b) && a != b
      && AggregatedKey(Raw(g, a.0)[a.1]).Some? && AggregatedKey(Raw(g, a.0)[a.1]) == AggregatedKey(Raw(g, b.0)[b.1]);
    HealthyHasNoFault(g, a.0, e);
    HealthyHasNoFault(g, b.0, e);
    assert Slot(g, root, a) && Slot(g, root, b);
    assert KeyAt(g, a) == KeyAt(g, b);
  }

  // ---- the walk -------------------------------------------------------------------------------------------

  ghost predicate ValidLog(g: Graph, log: seq<(string, nat)>) {
    forall k :: 0 <= k < |log| ==> log[k].1 < |Own(g, log[k].0)|
  }

  ghost function LogObjects(g: Graph, log: seq<(string, nat)>): seq<Manifest>
    requires ValidLog(g, log)
  {
    seq(|log|, k requires 0 <= k < |log| => Own(g, log[k].0)[log[k].1])
  }

  ghost function LogKeys(g: Graph, log: seq<(string, nat)>): seq<string>
    requires ValidLog(g, log)
  {
    seq(|log|, k requires 0 <= k < |log| => KeyAt(g, log[k]))
  }

  ghost function Slots(g: Graph, name: string): seq<(string, nat)> {
    seq(|Own(g, name)|, i requires 0 <= i < |Own(g, name)| => (name, i))
  }

  ghost function KeysOf(arr: seq<Manifest>): seq<string> {
    seq(|arr|, i requires 0 <= i < |arr| => KeyOf(arr[i]))
  }

  /** What the shared `objects` and `seenKeys` hold, given whose objects have been listed so far. */
  ghost predicate Consistent(g: Graph, log: seq<(string, nat)>, objects: seq<Manifest>, seenKeys: set<string>) {
    && ValidLog(g, log) && objects == LogObjects(g, log)
    && seenKeys == Elems(LogKeys(g, log)) && NoDup(LogKeys(g, log))
  }

  /** Every node of `done` is healthy and listed in full, and nothing else is listed. */
  ghost predicate Listed(g: Graph, done: set<string>, log: seq<(string, nat)>) {
    && (forall x :: x in done ==> x != "" && Healthy(g, x) && forall at :: at in Slots(g, x) ==> at in log)
    && (forall at :: at in log ==> at.0 in done)
  }

  ghost predicate Reached(g: Graph, root: string, done: set<string>) {
    forall x :: x in done ==> Reach(Children(g), root, x)
  }

  ghost predicate ChildrenIn(g: Graph, x: string, s: set<string>) {
    forall i :: 0 <= i < |Kids(g, x)| ==> Kids(g, x)[i] != "" && Kids(g, x)[i] in s
  }

  /** Nodes visited since `before` have all their children visited. */
  ghost predicate ClosedSince(g: Graph, before: set<string>, done: set<string>) {
    forall x :: x in done && x !in before ==> ChildrenIn(g, x, done)
  }

  lemma NoDupConcat<T>(a: seq<T>, b: seq<T>)
    requires NoDup(a) && NoDup(b) && Elems(a) !! Elems(b)
    ensures NoDup(a + b) && Elems(a + b) == Elems(a) + Elems(b)
  {
    forall i, j | 0 <= i < j < |a + b| ensures (a + b)[i] != (a + b)[j] {
      if i < |a| && j >= |a| {
        assert a[i] in Elems(a) && b[j - |a|] in Elems(b);
      }
    }
  }

  /** The next key of a list was met before the list or in it, or it extends the keys of the list. */
  lemma KeyMetOrNew(arr: seq<Manifest>, i: nat, before: set<string>)
    requires i < |arr| && NoDup(KeysOf(arr[..i])) && Elems(KeysOf(arr[..i])) !! before
    ensures var key, done := KeyOf(arr[i]), Elems(KeysOf(arr[..i]));
      if key in before + done then key in before || exists j: nat :: j < i && KeyOf(arr[j]) == key
      else NoDup(KeysOf(arr[..i + 1])) && Elems(KeysOf(arr[..i + 1])) == done + {key} && Elems(KeysOf(arr[..i + 1])) !! before
    ensures arr[..i + 1] == arr[..i] + [arr[i]]
  {
    var key, done := KeyOf(arr[i]), KeysOf(arr[..i]);
    if key in Elems(done) {
      var j: nat :| j < i && done[j] == key;
      assert KeyOf(arr[j]) == key;
    } else {
      NoDupConcat(done, [key]);
      assert Elems([key]) == {key};
      assert KeysOf(arr[..i + 1]) == done + [key];
    }
  }

  /** Listing one more healthy node whose keys are new keeps the listing consistent. */
  lemma ListNode(g: Graph, log: seq<(string, nat)>, objects: seq<Manifest>, seenKeys: set<string>, name: string)
    requires Consistent(g, log, objects, seenKeys)
    requires NoDup(KeysOf(Own(g, name))) && Elems(KeysOf(Own(g, name))) !! seenKeys
    ensures Consistent(g, log + Slots(g, name), objects + Own(g, name), seenKeys + Elems(KeysOf(Own(g, name))))
  {
    var log' := log + Slots(g, name);
    assert LogObjects(g, log') == LogObjects(g, log) + Own(g, name);
    assert LogKeys(g, log') == LogKeys(g, log) + KeysOf(Own(g, name));
    NoDupConcat(LogKeys(g, log), KeysOf(Own(g, name)));
  }

  /** A repeated key means two slots of the subtree share it - unless some node is not healthy anyway. */
  lemma DuplicateBreaks(g: Graph, root: string, log: seq<(string, nat)>, seenKeys: set<string>, done: set<string>, name: string, i: nat)
    requires ValidLog(g, log) && seenKeys == Elems(LogKeys(g, log))
    requires Listed(g, done, log) && Reached(g, root, done) && name !in done && Reach(Children(g), root, name)
    requires i < |Own(g, name)|
    requires KeyAt(g, (name, i)) in seenKeys || exists j: nat :: j < i && KeyAt(g, (name, j)) == KeyAt(g, (name, i))
    ensures !DistinctKeys(g, root)
  {
    assert Slot(g, root, (name, i));
    if KeyAt(g, (name, i)) in seenKeys {
      var k :| 0 <= k < |log| && LogKeys(g, log)[k] == KeyAt(g, (name, i));
      assert log[k] in log && Slot(g, root, log[k]);
    } else {
      var j: nat :| j < i && KeyAt(g, (name, j)) == KeyAt(g, (name, i));
      assert Slot(g, root, (name, j));
    }
  }

  /** The same for the status: the two places are a listed object and one of the archive at hand. */
  lemma DuplicateRepeats(g: Graph, root: string, log: seq<(string, nat)>, seenKeys: set<string>, done: set<string>, name: string, i: nat)
    requires ValidLog(g, log) && seenKeys == Elems(LogKeys(g, log))
    requires Listed(g, done, log) && Reached(g, root, done) && name !in done && Reach(Children(g), root, name)
    requires i < |Raw(g, name)| && AggregatedKey(Raw(g, name)[i]).Some?
    requires forall j :: 0 <= j < i ==> AggregatedKey(Raw(g, name)[j]).Some?
    requires KeyOf(Raw(g, name)[i]) in seenKeys || exists j: nat :: j < i && KeyOf(Raw(g, name)[j]) == KeyOf(Raw(g, name)[i])
    ensures Repeats(g, root)
  {
    assert RawSlot(g, root, (name, i));
    if KeyOf(Raw(g, name)[i]) in seenKeys {
      var k :| 0 <= k < |log| && LogKeys(g, log)[k] == KeyOf(Raw(g, name)[i]);
      assert log[k] in log && Healthy(g, log[k].0);
      assert RawSlot(g, root, log[k]);
    } else {
      var j: nat :| j < i && KeyOf(Raw(g, name)[j]) == KeyOf(Raw(g, name)[i]);
      assert RawSlot(g, root, (name, j));
    }
  }

  /** The shared mutable state of the recursion; `log` records whose object each entry is. */
  class Collector {
    const g: Graph
    var objects: seq<Manifest>
    var seenKeys: set<string>
    var visited: set<string>
    ghost var log: seq<(string, nat)>

    constructor (g: Graph)
      ensures this.g == g && visited == {} && objects == [] && log == [] && Consistent(g, log, objects, seenKeys)
    {
      this.g := g;
      objects, seenKeys, visited, log := [], {}, {}, [];
    }

    /** The append loop of appendObjectsFromManifestCheckpoint: fails at the first object without an
        identity or with a key met before. */
    method AppendAll(arr: seq<Manifest>) returns (e: Option<Error>, ghost at: nat)
      modifies this`objects, this`seenKeys
      ensures e == None ==> objects == old(objects) + arr && seenKeys == old(seenKeys) + Elems(KeysOf(arr))
      ensures e == None ==> NoDup(KeysOf(arr)) && Elems(KeysOf(arr)) !! old(seenKeys)
      ensures e == None ==> forall i :: 0 <= i < |arr| ==> AggregatedKey(arr[i]).Some?
      ensures e.Some? ==> at < |arr| && e.value == if AggregatedKey(arr[at]) == None then Internal else Conflict
      ensures e.Some? && AggregatedKey(arr[at]).Some? ==>
                KeyOf(arr[at]) in old(seenKeys) || exists j: nat :: j < at && KeyOf(arr[j]) == KeyOf(arr[at])
      ensures e.Some? ==> forall j :: 0 <= j < at ==> AggregatedKey(arr[j]).Some?
    {
      at := 0;
      for i := 0 to |arr|
        invariant objects == old(objects) + arr[..i] && seenKeys == old(seenKeys) + Elems(KeysOf(arr[..i]))
        invariant NoDup(KeysOf(arr[..i])) && Elems(KeysOf(arr[..i])) !! old(seenKeys)
        invariant forall j :: 0 <= j < i ==> AggregatedKey(arr[j]).Some?
      {
        at := i;
        var key := AggregatedKey(arr[i]);
        if key == None { return Some(Internal), at; }
        KeyMetOrNew(arr, i, old(seenKeys));
        if key.value in seenKeys {
          return Some(Conflict), at;
        }
        seenKeys := seenKeys + {key.value};
        objects := objects + [arr[i]];
      }
      assert arr[..|arr|] == arr;
      return None, at;
    }

    /** appendObjectsFromManifestCheckpoint for the checkpoint of node `name`. */
    method AppendOwn(name: string, mcpName: string, ghost root: string, ghost done: set<string>) returns (e: Option<Error>)
      requires Consistent(g, log, objects, seenKeys) && Listed(g, done, log) && Reached(g, root, done)
      requires name != "" && name !in done && Reach(Children(g), root, name)
      requires GetContent(g, name).Found? && GetContent(g, name).value.checkpointName == mcpName && mcpName != ""
      modifies this`objects, this`seenKeys, this`log
      ensures e == None ==> Consistent(g, log, objects, seenKeys) && Listed(g, done + {name}, log)
      ensures e.Some? ==> !Complete(g, root) && Explained(g, root, e.value)
    {
      var mcp := GetCheckpoint(g, mcpName);
      if mcp.NotFound? { return Some(Missing); }
      if mcp.ReadError? { return Some(Transport); }
      if mcp.value.NotReady? { return Some(Conflict); }
      if mcp.value.Unreadable? { return Some(Internal); }
      var arr := mcp.value.objects;
      ghost var at;
      e, at := AppendAll(arr);
      assert Raw(g, name) == arr;
      if e.Some? {
        if e.value.Conflict? { DuplicateRepeats(g, root, log, old(seenKeys), done, name, at); }
        if Healthy(g, name) {
          assert Own(g, name) == arr && AggregatedKey(arr[at]).Some?;
          assert forall j: nat :: j < |arr| ==> KeyAt(g, (name, j)) == KeyOf(arr[j]);
          DuplicateBreaks(g, root, log, old(seenKeys), done, name, at);
        }
        return;
      }
      assert Healthy(g, name) && Own(g, name) == arr;
      ListNode(g, log, old(objects), old(seenKeys), name);
      log := log + Slots(g, name);
    }

    /** collectSubtreeObjects. Success closes the newly visited nodes under children; any failure exhibits a
        defect of the subtree of `root`. */
    method Collect(name: string, ghost root: string) returns (e: Option<Error>)
      requires Consistent(g, log, objects, seenKeys) && Listed(g, visited, log) && Reached(g, root, visited)
      requires Reach(Children(g), root, name)
      modifies this
      ensures e == None ==> Consistent(g, log, objects, seenKeys) && Listed(g, visited, log) && Reached(g, root, visited)
      ensures e == None ==> name != "" && name in visited && old(visited) <= visited && ClosedSince(g, old(visited), visited)
      ensures e.Some? ==> !Complete(g, root) && Explained(g, root, e.value)
      decreases g.contents.Keys - visited, 0
    {
      if name == "" { return Some(Conflict); }
      if name in visited { return None; }
      visited := visited + {name};
      var content := GetContent(g, name);
      if content.NotFound? { return Some(Missing); }
      if content.ReadError? { return Some(Transport); }
      var mcpName := content.value.checkpointName;
      if mcpName == "" { return Some(Conflict); }
      e := AppendOwn(name, mcpName, root, old(visited));
      if e.Some? { return; }
      e := CollectChildren(name, root, old(visited));
    }

    /** The loop over the declared children of a node just visited. */
    method CollectChildren(name: string, ghost root: string, ghost before: set<string>) returns (e: Option<Error>)
      requires Consistent(g, log, objects, seenKeys) && Listed(g, visited, log) && Reached(g, root, visited)
      requires GetContent(g, name).Found? && name in visited && visited == before + {name}
      modifies this
      ensures e == None ==> Consistent(g, log, objects, seenKeys) && Listed(g, visited, log) && Reached(g, root, visited)
      ensures e == None ==> old(visited) <= visited && ClosedSince(g, before, visited)
      ensures e.Some? ==> !Complete(g, root) && Explained(g, root, e.value)
      decreases g.contents.Keys - visited, 1
    {
      var kids := GetContent(g, name).value.children;
      assert kids == Kids(g, name);
      for i := 0 to |kids|
        invariant Consistent(g, log, objects, seenKeys) && Listed(g, visited, log) && Reached(g, root, visited)
        invariant before + {name} <= visited && ClosedSince(g, before + {name}, visited)
        invariant forall j :: 0 <= j < i ==> kids[j] != "" && kids[j] in visited
      {
        ReachStep(Children(g), root, name, i);
        ghost var was := visited;
        assert g.contents.Keys - visited <= g.contents.Keys - old(visited);
        e := Collect(kids[i], root);
        if e.Some? { return; }
        ClosedExtends(g, before + {name}, was, visited);
      }
      return None;
    }
  }

  lemma ClosedExtends(g: Graph, before: set<string>, mid: set<string>, done: set<string>)
    requires before <= mid <= done && ClosedSince(g, before, mid) && ClosedSince(g, mid, done)
    ensures ClosedSince(g, before, done)
  {
    forall x | x in done && x !in before ensures ChildrenIn(g, x, done) {
      if x in mid { assert ChildrenIn(g, x, mid); }
    }
  }

  /** What is closed under children and contains the root holds everything reachable. */
  lemma ReachableListed(g: Graph, root: string, done: set<string>, x: string)
    requires root in done && ClosedSince(g, {}, done) && Reach(Children(g), root, x)
    ensures x in done
  {
    assert ClosedUnder(Children(g), done) by {
      forall y, i | y in done && 0 <= i < |Children(g)(y)| ensures Children(g)(y)[i] in done {
        assert ChildrenIn(g, y, done);
        assert Children(g)(y)[i] == Kids(g, y)[i];
      }
    }
    var p :| Follow(Children(g), root, p) == Some(x);
    ClosedContains(Children(g), done, root, p);
  }

  /** A closed listing holds exactly the slots of the subtree. */
  lemma SlotsListed(g: Graph, root: string, done: set<string>, log: seq<(string, nat)>, at: (string, nat))
    requires ValidLog(g, log) && Listed(g, done, log) && Reached(g, root, done)
    requires root in done && ClosedSince(g, {}, done)
    ensures at in log <==> Slot(g, root, at)
  {
    if at in log {
      var k :| 0 <= k < |log| && log[k] == at;
    }
    if Slot(g, root, at) {
      ReachableListed(g, root, done, at.0);
      assert Slots(g, at.0)[at.1] == at;
    }
  }

  /** A closed, consistent listing is a listing of a complete subtree. */
  lemma ListingIsComplete(g: Graph, root: string, done: set<string>, log: seq<(string, nat)>)
    requires ValidLog(g, log) && NoDup(LogKeys(g, log)) && Listed(g, done, log) && Reached(g, root, done)
    requires root in done && ClosedSince(g, {}, done)
    ensures Complete(g, root) && NoDup(log)
    ensures forall at: (string, nat) :: at in log <==> Slot(g, root, at)
  {
    forall x | Reach(Children(g), root, x) ensures x != "" && Healthy(g, x) {
      ReachableListed(g, root, done, x);
    }
    forall at: (string, nat) ensures at in log <==> Slot(g, root, at) {
      SlotsListed(g, root, done, log, at);
    }
    forall a: (string, nat), b: (string, nat) | Slot(g, root, a) && Slot(g, root, b) && KeyAt(g, a) == KeyAt(g, b) ensures a == b {
      SlotsListed(g, root, done, log, a);
      SlotsListed(g, root, done, log, b);
      SameKeySameSlot(g, log, a, b);
    }
    forall k, l | 0 <= k < l < |log| ensures log[k] != log[l] {
      assert LogKeys(g, log)[k] != LogKeys(g, log)[l];
    }
  }

  lemma SameKeySameSlot(g: Graph, log: seq<(string, nat)>, a: (string, nat), b: (string, nat))
    requires ValidLog(g, log) && NoDup(LogKeys(g, log)) && a in log && b in log
    ensures KeyAt(g, a) == KeyAt(g, b) ==> a == b
  {
    var k :| 0 <= k < |log| && log[k] == a;
    var l :| 0 <= l < |log| && log[l] == b;
    assert LogKeys(g, log)[k] == KeyAt(g, a) && LogKeys(g, log)[l] == KeyAt(g, b);
  }

  /** `ids` lists every object of every reachable node, each once. */
  ghost predicate Lists(g: Graph, root: string, log: seq<(string, nat)>, ids: seq<Identity>) {
    && ValidLog(g, log) && NoDup(log) && |ids| == |log|
    && (forall at: (string, nat) :: at in log <==> Slot(g, root, at))
    && (forall k :: 0 <= k < |log| ==> IdentityFrom(LogObjects(g, log)[k]) == Some(ids[k]))
  }

  /** A node as the store has it: it exists, its checkpoint exists and is an archive of identifiable objects. */
  ghost predicate NodeStored(g: Graph, x: string) {
    && x in g.contents && x !in g.failing
    && var cp := g.contents[x].checkpointName;
    && cp != "" && cp in g.checkpoints && cp !in g.failing && g.checkpoints[cp].Archive?
    && forall m :: m in g.checkpoints[cp].objects ==> Identifiable(m)
  }

  lemma HealthyExactly(g: Graph, x: string)
    ensures Healthy(g, x) <==> NodeStored(g, x)
    ensures NodeStored(g, x) ==> Own(g, x) == g.checkpoints[g.contents[x].checkpointName].objects && Kids(g, x) == g.contents[x].children
  {
    if x in g.contents && x !in g.failing {
      var cp := g.contents[x].checkpointName;
      if cp in g.checkpoints && cp !in g.failing && g.checkpoints[cp].Archive? {
        var objects := g.checkpoints[cp].objects;
        forall i | 0 <= i < |objects| ensures AggregatedKey(objects[i]).Some? <==> Identifiable(objects[i]) { IdentityExactly(objects[i]); }
        if Healthy(g, x) {
          forall m | m in objects ensures Identifiable(m) {
            var i :| 0 <= i < |objects| && objects[i] == m;
          }
        }
        if NodeStored(g, x) {
          forall i | 0 <= i < |objects| ensures AggregatedKey(objects[i]).Some? { assert objects[i] in objects; }
        }
      }
    }
  }

  /** The k-th identity is that of the k-th listed object, field by field. */
  lemma ListedFieldByField(g: Graph, root: string, log: seq<(string, nat)>, ids: seq<Identity>, k: nat)
    requires Lists(g, root, log, ids) && k < |log|
    ensures Slot(g, root, log[k]) && Describes(ids[k], Own(g, log[k].0)[log[k].1])
  {
    assert log[k] in log;
    IdentityExactly(LogObjects(g, log)[k]);
  }

  /** What the answer for a node's part of the subtree has to contain: the node is stored, its declared children
      are part of the subtree, and every object of its checkpoint is described. */
  ghost predicate Answers(g: Graph, root: string, x: string, ids: seq<Identity>) {
    && NodeStored(g, x)
    && (forall y :: y in g.contents[x].children ==> y != "" && Reach(Children(g), root, y))
    && (forall m :: m in g.checkpoints[g.contents[x].checkpointName].objects ==> exists id :: id in ids && Describes(id, m))
  }

  /** The answer in terms of the store alone: it goes on to every declared child of every node it covers, it
      describes every object of their checkpoints, and nothing else. */
  lemma AnswerIsWhole(g: Graph, root: string, log: seq<(string, nat)>, ids: seq<Identity>)
    requires Complete(g, root) && Lists(g, root, log, ids)
    ensures Reach(Children(g), root, root)
    ensures forall x :: Reach(Children(g), root, x) ==> Answers(g, root, x, ids)
    ensures forall id :: id in ids ==>
              exists x, m :: Reach(Children(g), root, x) && NodeStored(g, x) && Describes(id, m)
                && m in g.checkpoints[g.contents[x].checkpointName].objects
  {
    ReachSelf(Children(g), root);
    forall x | Reach(Children(g), root, x) ensures Answers(g, root, x, ids) {
      NodeAnswered(g, root, log, ids, x);
    }
    forall id | id in ids
      ensures exists x, m :: Reach(Children(g), root, x) && NodeStored(g, x) && Describes(id, m)
                && m in g.checkpoints[g.contents[x].checkpointName].objects
    {
      var k :| 0 <= k < |ids| && ids[k] == id;
      ListedFieldByField(g, root, log, ids, k);
      HealthyExactly(g, log[k].0);
      assert Own(g, log[k].0)[log[k].1] in g.checkpoints[g.contents[log[k].0].checkpointName].objects;
    }
  }

  lemma NodeAnswered(g: Graph, root: string, log: seq<(string, nat)>, ids: seq<Identity>, x: string)
    requires Complete(g, root) && Lists(g, root, log, ids) && Reach(Children(g), root, x)
    ensures Answers(g, root, x, ids)
  {
    HealthyExactly(g, x);
    forall y | y in g.contents[x].children ensures y != "" && Reach(Children(g), root, y) {
      var i :| 0 <= i < |Kids(g, x)| && Kids(g, x)[i] == y;
      ReachStep(Children(g), root, x, i);
    }
    forall m | m in Own(g, x) ensures exists id :: id in ids && Describes(id, m) {
      var i :| 0 <= i < |Own(g, x)| && Own(g, x)[i] == m;
      assert Slot(g, root, (x, i)) && (x, i) in log;
      var k :| 0 <= k < |log| && log[k] == (x, i);
      ListedFieldByField(g, root, log, ids, k);
      assert ids[k] in ids;
    }
  }

  lemma ListedIdentifiable(g: Graph, done: set<string>, log: seq<(string, nat)>, k: nat)
    requires ValidLog(g, log) && Listed(g, done, log) && k < |log|
    ensures IdentityFrom(LogObjects(g, log)[k]).Some?
  {
    assert log[k] in log && Healthy(g, log[k].0);
    RenderersAgree(LogObjects(g, log)[k]);
  }

  /** The projection loop. The walk has already required the fields it needs, so its error branch is dead. */
  method Identities(objects: seq<Manifest>) returns (ids: seq<Identity>)
    requires forall k :: 0 <= k < |objects| ==> IdentityFrom(objects[k]).Some?
    ensures |ids| == |objects|
    ensures forall k :: 0 <= k < |objects| ==> IdentityFrom(objects[k]) == Some(ids[k])
  {
    ids := [];
    for k := 0 to |objects|
      invariant |ids| == k && forall j :: 0 <= j < k ==> IdentityFrom(objects[j]) == Some(ids[j])
    {
      ids := ids + [IdentityFrom(objects[k]).value];
    }
  }

  /** BuildSubtreeManifestIdentities: on any graph, cyclic or with shared nodes, the call succeeds exactly
      when the subtree is complete, and then answers with all of it; otherwise it never answers in part. */
  method BuildSubtreeManifestIdentities(g: Graph, contentName: string) returns (r: Result<seq<Identity>>, ghost log: seq<(string, nat)>)
    ensures r.Ok? <==> contentName != "" && Complete(g, contentName)
    ensures r.Ok? ==> Lists(g, contentName, log, r.value)
    ensures contentName == "" ==> r == Err(BadRequest)
    ensures r.Err? && contentName != "" ==> Explained(g, contentName, r.error)
  {
    log := [];
    if contentName == "" { return Err(BadRequest), log; }
    var c := new Collector(g);
    ReachSelf(Children(g), contentName);
    var e := c.Collect(contentName, contentName);
    if e.Some? { return Err(e.value), log; }
    log := c.log;
    ListingIsComplete(g, contentName, c.visited, log);
    forall k | 0 <= k < |log| ensures IdentityFrom(LogObjects(g, log)[k]).Some? {
      ListedIdentifiable(g, c.visited, log, k);
    }
    var ids := Identities(c.objects);
    return Ok(ids), log;
  }
}
