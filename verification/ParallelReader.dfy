/** The archive's reader: chunks are fetched and decoded by goroutines that append to one list under a mutex,
    in whatever order they complete. */
module ParallelReader {
  import opened Ordering
  import opened OwnerRef
  import opened KeyValue
  import opened ChunkCodec
  import opened UploadProtocol

  // ---- one chunk -------------------------------------------------------------------------------------------

  predicate NullFree(items: seq<Json>) {
    forall i :: 0 <= i < |items| ==> !items[i].JNull?
  }

  /** The maps among the items, converted, in order; other items are skipped. */
  function Normalised(sprint: Json -> string, items: seq<Json>): seq<Json> {
    if items == [] then []
    else
      var init := Normalised(sprint, items[..|items| - 1]);
      match DecodeItem(sprint, items[|items| - 1])
      case None => init
      case Some(o) => init + [o]
  }

  /** What one item of a chunk becomes: a map is converted, a list is read as pairs, and anything else is left
      out. */
  function OneItem(sprint: Json -> string, item: Json): seq<Json> {
    if item.JObj? then [Convert(sprint, item)] else if item.JArr? then [JObj(ConvertPairs(sprint, item.items))] else []
  }

  lemma {:induction false} NormalisedOneByOne(sprint: Json -> string, items: seq<Json>)
    ensures Normalised(sprint, items) == Flat(seq(|items|, i requires 0 <= i < |items| => OneItem(sprint, items[i])))
    decreases |items|
  {
    var parts := seq(|items|, i requires 0 <= i < |items| => OneItem(sprint, items[i]));
    if items != [] {
      var init := items[..|items| - 1];
      NormalisedOneByOne(sprint, init);
      assert parts[..|items| - 1] == seq(|init|, i requires 0 <= i < |init| => OneItem(sprint, init[i]));
    }
  }

  /** Reporting a skipped item asks for its type, which a null does not have: there the source panics inside the
      goroutine and the process ends. NullItem stands for that. */
  function Decoded(c: Codec, sprint: Json -> string, data: string, checksum: string): ReadResult {
    match Verified(c, data, checksum)
    case None => Err(CorruptChunk)
    case Some(items) => if NullFree(items) then Ok(Normalised(sprint, items)) else Err(NullItem)
  }

  method DecodeChunkData(c: Codec, sprint: Json -> string, data: string, checksum: string) returns (r: ReadResult)
    ensures r == Decoded(c, sprint, data, checksum)
  {
    var b := c.unb64(data);
    if b == None { return Err(CorruptChunk); }
    if checksum != "" && c.sha(b.value) != checksum { return Err(CorruptChunk); }
    var parsed := c.gunzip(b.value);
    if parsed == None { return Err(CorruptChunk); }
    var items, objects: seq<Json> := parsed.value, [];
    for i := 0 to |items|
      invariant NullFree(items[..i]) && objects == Normalised(sprint, items[..i])
    {
      assert items[..i + 1][..i] == items[..i];
      match items[i]
      case JArr(pairs) =>
        var m := ConvertKeyValueArrayToMap(sprint, pairs);
        objects := objects + [JObj(m)];
      case JObj(_) =>
        var m := ConvertMapSliceToMap(sprint, items[i]);
        objects := objects + [m];
      case JNull => return Err(NullItem);
      case _ =>
    }
    assert items[..|items|] == items;
    return Ok(objects);
  }

  /** What the goroutine of one recorded chunk ends with. */
  function ReadChunk(c: Codec, sprint: Json -> string, chunks: map<ChunkName, Chunk>, checkpoint: string, info: Info): ReadResult {
    if info.name !in chunks then Err(MissingChunk)
    else if chunks[info.name].checkpoint != checkpoint || chunks[info.name].index != info.index then Err(ForeignChunk)
    else Decoded(c, sprint, chunks[info.name].data, info.checksum)
  }

  // ---- all chunks ------------------------------------------------------------------------------------------

  predicate InSequence(infos: seq<Info>) {
    forall i :: 0 <= i < |infos| ==> infos[i].index == i
  }

  /** Every chunk number below n once: an order in which n goroutines complete. */
  ghost predicate Completion(order: seq<nat>, n: nat) {
    NoDup(order) && forall i: nat :: i in order <==> i < n
  }

  ghost predicate AllRead(rs: seq<ReadResult>) {
    forall i :: 0 <= i < |rs| ==> rs[i].Ok?
  }

  ghost predicate AllDone(rs: seq<ReadResult>, order: seq<nat>) {
    forall k :: 0 <= k < |order| ==> order[k] < |rs| && rs[order[k]].Ok?
  }

  /** What has been appended when the chunks in `order` are done. */
  ghost function Appended(rs: seq<ReadResult>, order: seq<nat>): seq<Json>
    requires AllDone(rs, order)
  {
    if order == [] then [] else Appended(rs, order[..|order| - 1]) + rs[order[|order| - 1]].objects
  }

  ghost function Results(c: Codec, sprint: Json -> string, chunks: map<ChunkName, Chunk>, checkpoint: string, infos: seq<Info>): seq<ReadResult> {
    seq(|infos|, i requires 0 <= i < |infos| => ReadChunk(c, sprint, chunks, checkpoint, infos[i]))
  }

  ghost predicate Collectable(c: Codec, sprint: Json -> string, chunks: map<ChunkName, Chunk>, checkpoint: string, infos: seq<Info>) {
    infos != [] && InSequence(infos) && AllRead(Results(c, sprint, chunks, checkpoint, infos))
  }

  lemma {:induction false} InsertLength(x: Info, infos: seq<Info>)
    ensures |Insert(IndexLe, x, infos)| == |infos| + 1
  {
    if infos != [] && !IndexLe(x, infos[0]) { InsertLength(x, infos[1..]); }
  }

  lemma {:induction false} SortLength(infos: seq<Info>)
    ensures |Sort(IndexLe, infos)| == |infos|
  {
    if infos != [] {
      SortLength(infos[1..]);
      InsertLength(infos[0], Sort(IndexLe, infos[1..]));
    }
  }

  /** A goroutine never ends with one of the errors of the checks before. */
  lemma ChunkErrors(c: Codec, sprint: Json -> string, chunks: map<ChunkName, Chunk>, checkpoint: string, info: Info)
    ensures ReadChunk(c, sprint, chunks, checkpoint, info) !in {Err(NoChunks), Err(BadSequence)}
  {
  }

  /** collectObjectsFromCheckpoint; `:|` is the scheduler. */
  method CollectObjects(c: Codec, sprint: Json -> string, store: ChunkStore, checkpoint: string, recorded: seq<Info>)
    returns (r: ReadResult, ghost order: seq<nat>)
    ensures r.Ok? <==> Collectable(c, sprint, store.chunks, checkpoint, Sort(IndexLe, recorded))
    ensures r.Ok? ==> var rs := Results(c, sprint, store.chunks, checkpoint, Sort(IndexLe, recorded));
              Completion(order, |rs|) && AllDone(rs, order) && r.objects == Appended(rs, order)
    ensures r == Err(NoChunks) <==> recorded == []
    ensures r.Ok? ==> var infos := Sort(IndexLe, recorded); |infos| == |recorded| && forall i :: 0 <= i < |infos| ==> infos[i].index == i
    ensures r == Err(BadSequence) <==> recorded != [] && !InSequence(Sort(IndexLe, recorded))
    ensures r.Err? && recorded != [] && InSequence(Sort(IndexLe, recorded)) ==>
              r in Results(c, sprint, store.chunks, checkpoint, Sort(IndexLe, recorded))
  {
    var infos := Sort(IndexLe, recorded);
    SortLength(recorded);
    order := [];
    if |infos| == 0 { return Err(NoChunks), order; }
    for i := 0 to |infos|
      invariant forall j :: 0 <= j < i ==> infos[j].index == j
    {
      if infos[i].index != i { return Err(BadSequence), order; }
    }
    ghost var rs := Results(c, sprint, store.chunks, checkpoint, infos);
    var all: seq<Json> := [];
    var pending: set<nat> := {};
    for i := 0 to |infos|
      invariant forall j: nat :: j in pending <==> j < i
    {
      pending := pending + {i};
    }
    while pending != {}
      invariant Progress(rs, order, pending) && all == Appended(rs, order)
      decreases |pending|
    {
      var i :| i in pending;
      var one := FetchChunk(c, sprint, store, checkpoint, infos[i]);
      assert one == rs[i] && one in rs;
      ChunkErrors(c, sprint, store.chunks, checkpoint, infos[i]);
      if one.Err? { return one, order; }
      OneMore(rs, order, pending, i);
      all := all + one.objects;
      order := order + [i];
      pending := pending - {i};
    }
    Finish(rs, order);
    return Ok(all), order;
  }

  /** Goroutines that are done and goroutines that are not. */
  ghost predicate Progress(rs: seq<ReadResult>, order: seq<nat>, pending: set<nat>) {
    && NoDup(order) && AllDone(rs, order)
    && (forall k :: 0 <= k < |order| ==> order[k] !in pending)
    && (forall i: nat :: i in pending ==> i < |rs|)
    && forall i: nat :: i < |rs| && i !in pending ==> i in order
  }

  lemma OneMore(rs: seq<ReadResult>, order: seq<nat>, pending: set<nat>, i: nat)
    requires Progress(rs, order, pending) && i in pending && rs[i].Ok?
    ensures Progress(rs, order + [i], pending - {i})
    ensures Appended(rs, order + [i]) == Appended(rs, order) + rs[i].objects
  {
    assert (order + [i])[..|order|] == order;
  }

  lemma Finish(rs: seq<ReadResult>, order: seq<nat>)
    requires Progress(rs, order, {})
    ensures Completion(order, |rs|) && AllRead(rs)
  {
    forall i | 0 <= i < |rs| ensures rs[i].Ok? {
      assert i in order;
    }
  }

  method FetchChunk(c: Codec, sprint: Json -> string, store: ChunkStore, checkpoint: string, info: Info) returns (r: ReadResult)
    ensures r == ReadChunk(c, sprint, store.chunks, checkpoint, info)
  {
    if info.name !in store.chunks { return Err(MissingChunk); }
    var chunk := store.chunks[info.name];
    if chunk.checkpoint != checkpoint { return Err(ForeignChunk); }
    if chunk.index != info.index { return Err(ForeignChunk); }
    r := DecodeChunkData(c, sprint, chunk.data, info.checksum);
  }

  // ---- the order does not matter -----------------------------------------------------------------------------

  ghost function Total(rs: seq<ReadResult>, n: nat): multiset<Json>
    requires n <= |rs| && AllRead(rs)
  {
    if n == 0 then multiset{} else Total(rs, n - 1) + multiset(rs[n - 1].objects)
  }

  ghost function Bag(rs: seq<ReadResult>, order: seq<nat>): multiset<Json>
    requires AllDone(rs, order)
  {
    if order == [] then multiset{} else Bag(rs, order[..|order| - 1]) + multiset(rs[order[|order| - 1]].objects)
  }

  lemma {:induction false} BagOfAppended(rs: seq<ReadResult>, order: seq<nat>)
    requires AllDone(rs, order)
    ensures multiset(Appended(rs, order)) == Bag(rs, order)
  {
    if order != [] { BagOfAppended(rs, order[..|order| - 1]); }
  }

  lemma BagSnoc(rs: seq<ReadResult>, order: seq<nat>, i: nat)
    requires AllDone(rs, order) && i < |rs| && rs[i].Ok?
    ensures AllDone(rs, order + [i]) && Bag(rs, order + [i]) == Bag(rs, order) + multiset(rs[i].objects)
  {
    assert (order + [i])[..|order|] == order;
  }

  lemma {:induction false} BagWithout(rs: seq<ReadResult>, pre: seq<nat>, i: nat, post: seq<nat>)
    requires AllDone(rs, pre + post) && i < |rs| && rs[i].Ok?
    ensures AllDone(rs, pre + [i] + post)
    ensures Bag(rs, pre + [i] + post) == Bag(rs, pre + post) + multiset(rs[i].objects)
  {
    if post == [] {
      assert pre + [i] + post == pre + [i] && pre + post == pre;
      BagSnoc(rs, pre, i);
    } else {
      var init, j := post[..|post| - 1], post[|post| - 1];
      assert pre + post == pre + init + [j] && pre + [i] + post == pre + [i] + init + [j];
      assert (pre + post)[|pre + init|] == j;
      assert forall k :: 0 <= k < |pre + init| ==> (pre + init)[k] == (pre + post)[k];
      BagWithout(rs, pre, i, init);
      BagSnoc(rs, pre + init, j);
      BagSnoc(rs, pre + [i] + init, j);
    }
  }

  lemma Below(order: seq<nat>, n: nat)
    requires Completion(order, n)
    ensures forall k :: 0 <= k < |order| ==> order[k] < n
    ensures n == 0 ==> order == []
  {
    forall k | 0 <= k < |order| ensures order[k] < n {
      assert order[k] in order;
    }
    if order != [] { assert order[0] < n; }
  }

  /** Leaving out the place of the highest-numbered chunk. */
  lemma WithoutTop(order: seq<nat>, n: nat, k: nat)
    requires n > 0 && Completion(order, n) && k < |order| && order[k] == n - 1
    ensures Completion(order[..k] + order[k + 1..], n - 1)
  {
    var rest := order[..k] + order[k + 1..];
    Below(order, n);
    assert forall j :: 0 <= j < |rest| ==> rest[j] == order[if j < k then j else j + 1];
    forall i: nat | i < n - 1 ensures i in rest {
      assert i in order;
      var j :| 0 <= j < |order| && order[j] == i;
      assert i == rest[if j < k then j else j - 1];
    }
  }

  /** The chunk that is numbered last was done at some point. */
  lemma SplitAtTop(order: seq<nat>, n: nat) returns (pre: seq<nat>, post: seq<nat>)
    requires n > 0 && Completion(order, n)
    ensures order == pre + [n - 1] + post && Completion(pre + post, n - 1)
  {
    assert n - 1 in order;
    var k :| 0 <= k < |order| && order[k] == n - 1;
    pre, post := order[..k], order[k + 1..];
    WithoutTop(order, n, k);
  }

  /** Whatever order the goroutines complete in, the same objects are collected. */
  lemma {:induction false} AnyOrder(rs: seq<ReadResult>, order: seq<nat>, n: nat)
    requires AllRead(rs) && n <= |rs| && Completion(order, n)
    ensures AllDone(rs, order) && Bag(rs, order) == Total(rs, n)
    decreases n
  {
    Below(order, n);
    if n > 0 {
      var pre, post := SplitAtTop(order, n);
      AnyOrder(rs, pre + post, n - 1);
      BagWithout(rs, pre, n - 1, post);
    }
  }

  // ---- what a parallel read of a recorded upload returns -------------------------------------------------------

  lemma {:induction false} NormalisedConcat(sprint: Json -> string, a: seq<Json>, b: seq<Json>)
    ensures Normalised(sprint, a + b) == Normalised(sprint, a) + Normalised(sprint, b)
  {
    if b == [] {
      assert a + b == a;
    } else {
      assert (a + b)[..|a + b| - 1] == a + b[..|b| - 1];
      NormalisedConcat(sprint, a, b[..|b| - 1]);
    }
  }

  lemma NullFreeEach(items: seq<Json>)
    ensures NullFree(items) <==> forall x :: x in items ==> x != JNull
  {
    if forall x :: x in items ==> x != JNull {
      forall i | 0 <= i < |items| ensures !items[i].JNull? { assert items[i] in items; }
    }
  }

  lemma NullFreeConcat(a: seq<Json>, b: seq<Json>)
    ensures NullFree(a + b) <==> NullFree(a) && NullFree(b)
  {
    if NullFree(a + b) {
      forall i | 0 <= i < |a| ensures !a[i].JNull? { assert (a + b)[i] == a[i]; }
      forall i | 0 <= i < |b| ensures !b[i].JNull? { assert (a + b)[|a| + i] == b[i]; }
    }
  }

  /** The chunk of group i is stored as recorded, under this checkpoint and index. */
  ghost predicate Intact(c: Codec, chunks: map<ChunkName, Chunk>, checkpoint: string, info: Info) {
    ChunkMatches(c, chunks, info) && chunks[info.name].checkpoint == checkpoint && chunks[info.name].index == info.index
  }

  lemma ReadIntact(c: Codec, sprint: Json -> string, chunks: map<ChunkName, Chunk>, checkpoint: string, uid: nat, group: seq<Json>, i: nat)
    requires Lawful(c)
    ensures var info := InfoOf(c, uid, group, i); var r := ReadChunk(c, sprint, chunks, checkpoint, info);
      && (r.Ok? <==> Intact(c, chunks, checkpoint, info) && NullFree(group))
      && (r.Ok? ==> r.objects == Normalised(sprint, group))
  {
    var info := InfoOf(c, uid, group, i);
    assert info.checksum == c.sha(c.gzip(group)) && info.checksum != "";
    if ChunkMatches(c, chunks, info) {
      assert c.unb64(chunks[info.name].data).value == c.gzip(group);
      assert c.gunzip(c.gzip(group)) == Some(group);
    }
  }

  ghost predicate AllIntact(c: Codec, chunks: map<ChunkName, Chunk>, checkpoint: string, infos: seq<Info>) {
    forall i :: 0 <= i < |infos| ==> Intact(c, chunks, checkpoint, infos[i])
  }

  lemma {:induction false} GroupsNullFree(groups: seq<seq<Json>>)
    ensures NullFree(Flat(groups)) <==> forall i :: 0 <= i < |groups| ==> NullFree(groups[i])
  {
    if groups != [] {
      GroupsNullFree(groups[..|groups| - 1]);
      NullFreeConcat(Flat(groups[..|groups| - 1]), groups[|groups| - 1]);
    }
  }

  lemma {:induction false} TotalOfGroups(sprint: Json -> string, rs: seq<ReadResult>, groups: seq<seq<Json>>, n: nat)
    requires AllRead(rs) && |rs| == |groups| && n <= |rs|
    requires forall i :: 0 <= i < |rs| ==> rs[i].objects == Normalised(sprint, groups[i])
    ensures Total(rs, n) == multiset(Normalised(sprint, Flat(groups[..n])))
  {
    if n > 0 {
      TotalOfGroups(sprint, rs, groups, n - 1);
      assert groups[..n] == groups[..n - 1] + [groups[n - 1]];
      FlatSnoc(groups[..n - 1], groups[n - 1]);
      NormalisedConcat(sprint, Flat(groups[..n - 1]), groups[n - 1]);
      var a, b := Normalised(sprint, Flat(groups[..n - 1])), Normalised(sprint, groups[n - 1]);
      assert multiset(a + b) == multiset(a) + multiset(b);
    }
  }

  lemma CollectedInAnyOrder(sprint: Json -> string, rs: seq<ReadResult>, groups: seq<seq<Json>>, order: seq<nat>)
    requires AllRead(rs) && |rs| == |groups| && Completion(order, |rs|)
    requires forall i :: 0 <= i < |rs| ==> rs[i].objects == Normalised(sprint, groups[i])
    ensures AllDone(rs, order) && multiset(Appended(rs, order)) == multiset(Normalised(sprint, Flat(groups)))
  {
    AnyOrder(rs, order, |rs|);
    BagOfAppended(rs, order);
    TotalOfGroups(sprint, rs, groups, |rs|);
    assert groups[..|groups|] == groups;
  }

  /** What the goroutines end with on a recorded upload. */
  lemma ResultsOfUpload(c: Codec, sprint: Json -> string, chunks: map<ChunkName, Chunk>, checkpoint: string, uid: nat, payload: seq<Json>)
    requires Lawful(c)
    ensures var infos, groups := Infos(c, uid, payload), Groups(c, payload);
      var rs := Results(c, sprint, chunks, checkpoint, infos);
      && (AllRead(rs) <==> NullFree(payload) && AllIntact(c, chunks, checkpoint, infos))
      && (AllRead(rs) ==> forall i :: 0 <= i < |rs| ==> rs[i].objects == Normalised(sprint, groups[i]))
  {
    var infos, groups := Infos(c, uid, payload), Groups(c, payload);
    GroupsHold(c, payload);
    GroupsNullFree(groups);
    var rs := Results(c, sprint, chunks, checkpoint, infos);
    forall i | 0 <= i < |infos|
      ensures rs[i].Ok? <==> Intact(c, chunks, checkpoint, infos[i]) && NullFree(groups[i])
      ensures rs[i].Ok? ==> rs[i].objects == Normalised(sprint, groups[i])
    {
      ReadIntact(c, sprint, chunks, checkpoint, uid, groups[i], i);
    }
  }

  /** The parallel reader on the status one upload recorded, over whatever chunks are stored: it succeeds
      exactly when no item is null and every chunk is intact, and then - in any order of completion - it
      returns the normalised upload up to order. */
  lemma ParallelReadExactly(c: Codec, sprint: Json -> string, chunks: map<ChunkName, Chunk>, checkpoint: string, uid: nat,
      payload: seq<Json>, order: seq<nat>)
    requires Lawful(c)
    ensures var infos := Infos(c, uid, payload);
      && Sort(IndexLe, infos) == infos
      && (Collectable(c, sprint, chunks, checkpoint, infos) <==>
            (forall x :: x in payload ==> x != JNull) && AllIntact(c, chunks, checkpoint, infos))
      && (Collectable(c, sprint, chunks, checkpoint, infos) && Completion(order, |infos|) ==>
            AllDone(Results(c, sprint, chunks, checkpoint, infos), order)
            && multiset(Appended(Results(c, sprint, chunks, checkpoint, infos), order)) == multiset(Normalised(sprint, payload)))
  {
    var infos, groups := Infos(c, uid, payload), Groups(c, payload);
    SortedStays(infos);
    ResultsOfUpload(c, sprint, chunks, checkpoint, uid, payload);
    NullFreeEach(payload);
    var rs := Results(c, sprint, chunks, checkpoint, infos);
    if AllRead(rs) && Completion(order, |infos|) {
      GroupsHold(c, payload);
      CollectedInAnyOrder(sprint, rs, groups, order);
    }
  }

  // ---- both readers over runs of uploads ------------------------------------------------------------------------

  /** What a Ready state of any run records is one upload's. */
  lemma ReadyRecords(c: Codec, events: seq<Event>)
    requires Ready(Run(c, START, events))
    ensures var s := Run(c, START, events); s.author.Some? && s.cp.value.chunks == Infos(c, s.cp.value.uid, s.author.value)
  {
    RunKeeps(c, START, events);
  }

  /** In a Ready state of any run, both readers ask the same of the chunks. */
  lemma IntactIsMatching(c: Codec, events: seq<Event>)
    requires Ready(Run(c, START, events))
    ensures var s := Run(c, START, events);
      forall i :: 0 <= i < |s.cp.value.chunks| ==>
        (Intact(c, s.chunks, NAME, s.cp.value.chunks[i]) <==> ChunkMatches(c, s.chunks, s.cp.value.chunks[i]))
  {
    RunKeeps(c, START, events);
    var s := Run(c, START, events);
    forall i | 0 <= i < |s.cp.value.chunks|
      ensures Intact(c, s.chunks, NAME, s.cp.value.chunks[i]) <==> ChunkMatches(c, s.chunks, s.cp.value.chunks[i])
    {
      assert s.cp.value.chunks[i].name == ChunkName(s.cp.value.uid, i);
      assert ChunkName(s.cp.value.uid, i) in s.chunks;
    }
  }

  /** No blend through the parallel reader either: whatever uploads ran, a read that succeeds returns the
      whole upload of the last committer, normalised, up to order; and on uploads of maps it succeeds exactly
      when the ordered reader does. */
  lemma ParallelNeverBlends(c: Codec, sprint: Json -> string, events: seq<Event>, order: seq<nat>)
    requires Lawful(c) && Ready(Run(c, START, events))
    requires Completion(order, |Run(c, START, events).cp.value.chunks|)
    ensures var s := Run(c, START, events); var infos := s.cp.value.chunks; var p := s.author;
      && p.Some? && Sort(IndexLe, infos) == infos
      && (Collectable(c, sprint, s.chunks, NAME, infos) ==>
            AllDone(Results(c, sprint, s.chunks, NAME, infos), order)
            && multiset(Appended(Results(c, sprint, s.chunks, NAME, infos), order)) == multiset(Normalised(sprint, p.value)))
      && (NullFree(p.value) && AllReadable(p.value) ==>
            (Collectable(c, sprint, s.chunks, NAME, infos) <==> OrderedRead(c, s.chunks, infos).Ok?))
  {
    ReadyRecords(c, events);
    var s := Run(c, START, events);
    NullFreeEach(s.author.value);
    ParallelReadExactly(c, sprint, s.chunks, NAME, s.cp.value.uid, s.author.value, order);
    OrderedReadExactly(c, s.chunks, s.cp.value.uid, s.author.value);
    IntactIsMatching(c, events);
  }

  ghost predicate AllMaps(items: seq<Json>) {
    forall i :: 0 <= i < |items| ==> items[i].JObj?
  }

  /** Normalising a list of maps converts each, and returns the list itself exactly when no map in it holds a
      list headed by a Key/Value pair. */
  lemma {:induction false} NormalisedMaps(sprint: Json -> string, items: seq<Json>)
    requires AllMaps(items)
    ensures |Normalised(sprint, items)| == |items|
    ensures forall i :: 0 <= i < |items| ==> Normalised(sprint, items)[i] == Convert(sprint, items[i])
    ensures Normalised(sprint, items) == items <==> forall i :: 0 <= i < |items| ==> NoPairHead(items[i])
  {
    if items != [] {
      NormalisedMaps(sprint, items[..|items| - 1]);
    }
    forall i | 0 <= i < |items| ensures Convert(sprint, items[i]) == items[i] <==> NoPairHead(items[i]) {
      FixedExactly(sprint, items[i]);
    }
  }

  /** Crash safety through the parallel reader: when all attempts carry one list of maps, every Ready state
      of every run can be collected in every order of completion, and gives each map, converted, once. */
  lemma ParallelRoundTrip(c: Codec, sprint: Json -> string, events: seq<Event>, p: seq<Json>, order: seq<nat>)
    requires Lawful(c) && OnlyPayload(events, p) && AllMaps(p) && Ready(Run(c, START, events))
    requires Completion(order, |Run(c, START, events).cp.value.chunks|)
    ensures var s := Run(c, START, events); var infos := s.cp.value.chunks;
      && Collectable(c, sprint, s.chunks, NAME, infos) && AllDone(Results(c, sprint, s.chunks, NAME, infos), order)
      && multiset(Appended(Results(c, sprint, s.chunks, NAME, infos), order)) == multiset(Normalised(sprint, p))
      && OrderedRead(c, s.chunks, infos) == Ok(p)
  {
    CrashSafeRoundTrip(c, events, p);
    ParallelNeverBlends(c, sprint, events, order);
    RunCarries(c, START, events, p);
    RunKeeps(c, START, events);
  }
}
