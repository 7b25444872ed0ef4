/** Checkpoint chunks: how a group of objects is stored, and the two readers. */
module ChunkCodec {
  import opened Ordering
  import opened OwnerRef
  import opened KeyValue
  import opened Packing

  type Bytes = string

  /** json.Marshal followed by gzip (RFC 1952), base64 (RFC 4648, section 4) and SHA-256 in hex, with their
      inverses where they have one. */
  datatype Codec = Codec(
    gzip: seq<Json> -> Bytes, gunzip: Bytes -> Option<seq<Json>>,
    b64: Bytes -> string, unb64: string -> Option<Bytes>,
    sha: Bytes -> string)

  /** Decoding inverts encoding, and the hash separates byte strings; its text is never empty. */
  ghost predicate Lawful(c: Codec) {
    && (forall g :: c.gunzip(c.gzip(g)) == Some(g))
    && (forall b :: c.unb64(c.b64(b)) == Some(b))
    && (forall a, b :: c.sha(a) == c.sha(b) ==> a == b)
    && (forall a :: c.sha(a) != "")
  }

  lemma HashSeparatesGroups(c: Codec, g: seq<Json>, h: seq<Json>)
    requires Lawful(c)
    ensures c.sha(c.gzip(g)) == c.sha(c.gzip(h)) <==> g == h
  {
    if c.sha(c.gzip(g)) == c.sha(c.gzip(h)) {
      assert c.gunzip(c.gzip(g)) == Some(g) && c.gunzip(c.gzip(h)) == Some(h);
    }
  }

  /** Chunk names are derived from the checkpoint's UID and the index. */
  datatype ChunkName = ChunkName(uid: nat, index: nat)

  datatype Chunk = Chunk(checkpoint: string, index: nat, data: string, objectsCount: nat, checksum: string)

  datatype Info = Info(name: ChunkName, index: nat, objectsCount: nat, sizeBytes: nat, checksum: string)

  function Measure(c: Codec): seq<Json> -> Measured {
    g => Size(|c.gzip(g)|)
  }

  /** An empty upload is one empty chunk. */
  function Groups(c: Codec, payload: seq<Json>): (groups: seq<seq<Json>>)
    ensures groups != []
  {
    var g := Pack(Measure(c), payload);
    if g == [] then [[]] else g
  }

  function ChunkOf(c: Codec, checkpoint: string, group: seq<Json>, index: nat): Chunk {
    Chunk(checkpoint, index, c.b64(c.gzip(group)), |group|, c.sha(c.gzip(group)))
  }

  function InfoOf(c: Codec, uid: nat, group: seq<Json>, index: nat): Info {
    Info(ChunkName(uid, index), index, |group|, |c.gzip(group)|, c.sha(c.gzip(group)))
  }

  /** What has been recorded after n groups. */
  function InfosUpTo(c: Codec, uid: nat, groups: seq<seq<Json>>, n: nat): seq<Info>
    requires n <= |groups|
  {
    seq(n, i requires 0 <= i < n => InfoOf(c, uid, groups[i], i))
  }

  function Infos(c: Codec, uid: nat, payload: seq<Json>): seq<Info> {
    InfosUpTo(c, uid, Groups(c, payload), |Groups(c, payload)|)
  }

  function SizeOf(infos: seq<Info>): nat {
    if infos == [] then 0 else SizeOf(infos[..|infos| - 1]) + infos[|infos| - 1].sizeBytes
  }

  /** The groups of an upload hold it whole and in order. */
  lemma GroupsHold(c: Codec, payload: seq<Json>)
    ensures Flat(Groups(c, payload)) == payload
  {
    PackingIsSound(Measure(c), payload);
    if Pack(Measure(c), payload) == [] {
      var none: seq<seq<Json>> := [];
      FlatSnoc(none, []);
      assert Groups(c, payload) == none + [[]] && payload == [];
    }
  }

  // ---- what is recorded, in bytes -------------------------------------------------------------------------

  ghost function Gzips(c: Codec, groups: seq<seq<Json>>): seq<Bytes> {
    seq(|groups|, i requires 0 <= i < |groups| => c.gzip(groups[i]))
  }

  /** The i-th record tells the truth about the i-th group. */
  ghost predicate RecordedAs(c: Codec, uid: nat, groups: seq<seq<Json>>, infos: seq<Info>, i: nat)
    requires i < |groups| && i < |infos|
  {
    && infos[i].name == ChunkName(uid, i) && infos[i].index == i
    && infos[i].objectsCount == |groups[i]|
    && infos[i].sizeBytes == |c.gzip(groups[i])| && infos[i].checksum == c.sha(c.gzip(groups[i]))
  }

  /** Chunk i could not have taken the first object of the next one. */
  ghost predicate FullAt(c: Codec, groups: seq<seq<Json>>, i: nat)
    requires i + 1 < |groups|
  {
    groups[i + 1] != [] && |c.gzip(groups[i] + [groups[i + 1][0]])| > 800000
  }

  /** `groups` cut the upload, in order, into the recorded chunks. A chunk of several objects has at most 800000
      compressed bytes, and with the first object of the next chunk it would have more. Only an empty upload has
      an empty chunk. */
  ghost predicate CutInto(c: Codec, uid: nat, payload: seq<Json>, groups: seq<seq<Json>>, infos: seq<Info>) {
    && Flat(groups) == payload && |infos| == |groups| > 0
    && (forall i :: 0 <= i < |infos| ==> RecordedAs(c, uid, groups, infos, i))
    && (forall i :: 0 <= i < |infos| && infos[i].objectsCount > 1 ==> infos[i].sizeBytes <= 800000)
    && (forall i :: 0 <= i < |infos| && infos[i].objectsCount == 0 ==> payload == [] && |infos| == 1)
    && (forall i :: 0 <= i < |groups| - 1 ==> FullAt(c, groups, i))
  }

  /** The groups are within the limit, not empty, and full. */
  lemma GroupsFit(c: Codec, payload: seq<Json>)
    ensures var groups := Groups(c, payload);
      && (forall i :: 0 <= i < |groups| && |groups[i]| > 1 ==> |c.gzip(groups[i])| <= 800000)
      && (forall i :: 0 <= i < |groups| && groups[i] == [] ==> payload == [] && |groups| == 1)
      && (forall i :: 0 <= i < |groups| - 1 ==> FullAt(c, groups, i))
  {
    var measure, groups := Measure(c), Groups(c, payload);
    PackingIsSound(measure, payload);
    PackingIsTight(measure, payload);
    if Pack(measure, payload) == [] {
      GroupsHold(c, payload);
      assert groups == [[]] && Flat(groups) == payload;
    } else {
      forall i | 0 <= i < |groups| ensures GroupOk(measure, groups[i]) { assert groups[i] in Pack(measure, payload); }
      forall i | 0 <= i < |groups| - 1 ensures FullAt(c, groups, i) { assert TightAt(measure, groups, i); }
    }
  }

  lemma InfosCut(c: Codec, uid: nat, payload: seq<Json>)
    ensures CutInto(c, uid, payload, Groups(c, payload), Infos(c, uid, payload))
  {
    GroupsHold(c, payload);
    GroupsFit(c, payload);
    var groups, infos := Groups(c, payload), Infos(c, uid, payload);
    forall i | 0 <= i < |infos| ensures RecordedAs(c, uid, groups, infos, i) {
      assert infos[i] == InfoOf(c, uid, groups[i], i);
    }
    RecordsFit(c, uid, payload, groups, infos);
  }

  lemma RecordsFit(c: Codec, uid: nat, payload: seq<Json>, groups: seq<seq<Json>>, infos: seq<Info>)
    requires |infos| == |groups| && forall i :: 0 <= i < |infos| ==> RecordedAs(c, uid, groups, infos, i)
    requires forall i :: 0 <= i < |groups| && |groups[i]| > 1 ==> |c.gzip(groups[i])| <= 800000
    requires forall i :: 0 <= i < |groups| && groups[i] == [] ==> payload == [] && |groups| == 1
    ensures forall i :: 0 <= i < |infos| && infos[i].objectsCount > 1 ==> infos[i].sizeBytes <= 800000
    ensures forall i :: 0 <= i < |infos| && infos[i].objectsCount == 0 ==> payload == [] && |infos| == 1
  {
    forall i | 0 <= i < |infos|
      ensures infos[i].objectsCount > 1 ==> infos[i].sizeBytes <= 800000
      ensures infos[i].objectsCount == 0 ==> payload == [] && |infos| == 1
    {
      assert RecordedAs(c, uid, groups, infos, i);
    }
  }

  lemma {:induction false} SizeIsBytes(c: Codec, uid: nat, groups: seq<seq<Json>>, n: nat)
    requires n <= |groups|
    ensures SizeOf(InfosUpTo(c, uid, groups, n)) == |Flat(Gzips(c, groups[..n]))|
  {
    if n > 0 {
      SizeIsBytes(c, uid, groups, n - 1);
      assert InfosUpTo(c, uid, groups, n)[..n - 1] == InfosUpTo(c, uid, groups, n - 1);
      assert Gzips(c, groups[..n])[..n - 1] == Gzips(c, groups[..n - 1]);
    }
  }

  ghost predicate TooLarge(c: Codec, payload: seq<Json>, i: nat, j: nat)
    requires i <= j <= |payload|
  {
    |c.gzip(payload[i..j])| > 800000
  }

  /** Compressed sizes are monotone on the stretches of this upload, as far as the limit goes. */
  ghost predicate GzipMonotone(c: Codec, payload: seq<Json>) {
    forall i: nat, i': nat, j': nat, j: nat ::
      (i <= i' <= j' <= j <= |payload| && TooLarge(c, payload, i', j')) ==> TooLarge(c, payload, i, j)
  }

  /** Then no other cut of the upload into single objects and chunks within the limit has fewer chunks. */
  lemma FewestChunks(c: Codec, uid: nat, payload: seq<Json>, parts: seq<seq<Json>>)
    requires GzipMonotone(c, payload) && Flat(parts) == payload && parts != []
    requires forall g :: g in parts ==> |g| <= 1 || |c.gzip(g)| <= 800000
    ensures |Infos(c, uid, payload)| <= |parts|
  {
    var measure := Measure(c);
    assert forall i: nat, j: nat :: i <= j <= |payload| ==> (OverAt(measure, payload, i, j) <==> TooLarge(c, payload, i, j));
    GreedyIsOptimal(measure, payload, parts);
  }

  // ---- the writer --------------------------------------------------------------------------------------

  class ChunkStore {
    var chunks: map<ChunkName, Chunk>

    constructor ()
      ensures chunks == map[]
    {
      chunks := map[];
    }

    /** Create tolerates AlreadyExists: what is there stays. */
    method Create(name: ChunkName, chunk: Chunk)
      modifies this
      ensures chunks == if name in old(chunks) then old(chunks) else old(chunks)[name := chunk]
    {
      if name !in chunks {
        chunks := chunks[name := chunk];
      }
    }
  }

  /** Of the first n groups: every chunk exists, those that existed before are untouched, and the new ones
      hold these groups. */
  ghost predicate Written(c: Codec, checkpoint: string, uid: nat, groups: seq<seq<Json>>, n: nat,
      before: map<ChunkName, Chunk>, after: map<ChunkName, Chunk>)
    requires n <= |groups|
  {
    && (forall k :: k in before ==> k in after && after[k] == before[k])
    && (forall i: nat :: i < n ==> ChunkName(uid, i) in after)
    && (forall k :: k in after && k !in before ==>
          k.uid == uid && k.index < n && after[k] == ChunkOf(c, checkpoint, groups[k.index], k.index))
  }

  lemma WrittenNext(c: Codec, checkpoint: string, uid: nat, groups: seq<seq<Json>>, i: nat,
      before: map<ChunkName, Chunk>, after: map<ChunkName, Chunk>)
    requires i < |groups| && Written(c, checkpoint, uid, groups, i, before, after)
    ensures var name := ChunkName(uid, i);
      Written(c, checkpoint, uid, groups, i + 1, before,
        if name in after then after else after[name := ChunkOf(c, checkpoint, groups[i], i)])
  {
  }

  /** What the loop has to report after n groups. */
  ghost predicate Reported(c: Codec, uid: nat, groups: seq<seq<Json>>, n: nat, infos: seq<Info>, totalObjects: nat, totalSize: nat)
    requires n <= |groups|
  {
    infos == InfosUpTo(c, uid, groups, n) && totalSize == SizeOf(infos) && totalObjects == |Flat(groups[..n])|
  }

  lemma ReportedNext(c: Codec, uid: nat, groups: seq<seq<Json>>, n: nat, infos: seq<Info>, totalObjects: nat, totalSize: nat)
    requires n < |groups| && Reported(c, uid, groups, n, infos, totalObjects, totalSize)
    ensures var info := InfoOf(c, uid, groups[n], n);
      Reported(c, uid, groups, n + 1, infos + [info], totalObjects + |groups[n]|, totalSize + info.sizeBytes)
  {
    assert (infos + [InfoOf(c, uid, groups[n], n)])[..n] == infos;
    assert groups[..n + 1][..n] == groups[..n];
  }

  /** The chunk says what it is, and its data is the group. */
  ghost predicate HoldsGroup(c: Codec, chunk: Chunk, checkpoint: string, index: nat, group: seq<Json>) {
    && chunk.checkpoint == checkpoint && chunk.index == index && chunk.objectsCount == |group|
    && chunk.data == c.b64(c.gzip(group)) && chunk.checksum == c.sha(c.gzip(group))
  }

  /** One group: its chunk, unless one of that name exists, and its record. */
  method WriteChunk(store: ChunkStore, c: Codec, checkpoint: string, uid: nat, group: seq<Json>, index: nat) returns (info: Info)
    modifies store
    ensures var name := ChunkName(uid, index);
      store.chunks == if name in old(store.chunks) then old(store.chunks) else old(store.chunks)[name := ChunkOf(c, checkpoint, group, index)]
    ensures info == InfoOf(c, uid, group, index)
  {
    var gz := c.gzip(group);
    var checksum := c.sha(gz);
    store.Create(ChunkName(uid, index), Chunk(checkpoint, index, c.b64(gz), |group|, checksum));
    info := Info(ChunkName(uid, index), index, |group|, |gz|, checksum);
  }

  method WriteGroups(store: ChunkStore, c: Codec, checkpoint: string, uid: nat, groups: seq<seq<Json>>)
    returns (infos: seq<Info>, totalObjects: nat, totalSize: nat)
    modifies store
    ensures Reported(c, uid, groups, |groups|, infos, totalObjects, totalSize)
    ensures Written(c, checkpoint, uid, groups, |groups|, old(store.chunks), store.chunks)
  {
    infos, totalObjects, totalSize := [], 0, 0;
    for i := 0 to |groups|
      invariant Reported(c, uid, groups, i, infos, totalObjects, totalSize)
      invariant Written(c, checkpoint, uid, groups, i, old(store.chunks), store.chunks)
    {
      WrittenNext(c, checkpoint, uid, groups, i, old(store.chunks), store.chunks);
      ReportedNext(c, uid, groups, i, infos, totalObjects, totalSize);
      var info := WriteChunk(store, c, checkpoint, uid, groups[i], i);
      infos := infos + [info];
      totalSize := totalSize + info.sizeBytes;
      totalObjects := totalObjects + |groups[i]|;
    }
  }

  lemma CreatedHolds(c: Codec, checkpoint: string, uid: nat, groups: seq<seq<Json>>,
      before: map<ChunkName, Chunk>, after: map<ChunkName, Chunk>, i: nat)
    requires Written(c, checkpoint, uid, groups, |groups|, before, after) && i < |groups| && ChunkName(uid, i) !in before
    ensures ChunkName(uid, i) in after && HoldsGroup(c, after[ChunkName(uid, i)], checkpoint, i, groups[i])
  {
  }

  /** writeReconstructedChunks: what is reported is about this upload, whatever existing chunks hold; the upload
      is cut into chunks of bounded size, and each chunk that was not there is written. */
  method WriteChunks(store: ChunkStore, c: Codec, checkpoint: string, uid: nat, payload: seq<Json>)
    returns (infos: seq<Info>, totalObjects: nat, totalSize: nat, ghost cut: seq<seq<Json>>)
    modifies store
    ensures infos == Infos(c, uid, payload) && totalObjects == |payload| && totalSize == SizeOf(infos)
    ensures Written(c, checkpoint, uid, Groups(c, payload), |Groups(c, payload)|, old(store.chunks), store.chunks)
    ensures CutInto(c, uid, payload, cut, infos) && totalSize == |Flat(Gzips(c, cut))|
    ensures forall i: nat :: i < |cut| && ChunkName(uid, i) !in old(store.chunks) ==>
              ChunkName(uid, i) in store.chunks && HoldsGroup(c, store.chunks[ChunkName(uid, i)], checkpoint, i, cut[i])
  {
    var groups := GroupObjectsBySize(Measure(c), payload);
    if groups == [] { groups := [[]]; }
    infos, totalObjects, totalSize := WriteGroups(store, c, checkpoint, uid, groups);
    cut := groups;
    forall i: nat | i < |cut| && ChunkName(uid, i) !in old(store.chunks)
      ensures ChunkName(uid, i) in store.chunks && HoldsGroup(c, store.chunks[ChunkName(uid, i)], checkpoint, i, cut[i])
    {
      CreatedHolds(c, checkpoint, uid, groups, old(store.chunks), store.chunks, i);
    }
    CutReported(c, uid, payload, infos, totalObjects, totalSize);
  }

  /** The report of a whole upload. */
  lemma CutReported(c: Codec, uid: nat, payload: seq<Json>, infos: seq<Info>, totalObjects: nat, totalSize: nat)
    requires Reported(c, uid, Groups(c, payload), |Groups(c, payload)|, infos, totalObjects, totalSize)
    ensures infos == Infos(c, uid, payload) && totalObjects == |payload|
    ensures CutInto(c, uid, payload, Groups(c, payload), infos) && totalSize == |Flat(Gzips(c, Groups(c, payload)))|
  {
    var groups := Groups(c, payload);
    assert groups[..|groups|] == groups;
    GroupsHold(c, payload);
    InfosCut(c, uid, payload);
    SizeIsBytes(c, uid, groups, |groups|);
  }

  // ---- the ordered reader ------------------------------------------------------------------------------

  datatype ReadError = MissingChunk | CorruptChunk | NoChunks | BadSequence | ForeignChunk | NullItem

  datatype ReadResult = Ok(objects: seq<Json>) | Err(error: ReadError)

  /** Bytes of a chunk after the checksum test; None is a content fault. An empty checksum is not checked. */
  function Verified(c: Codec, data: string, checksum: string): Option<seq<Json>> {
    match c.unb64(data)
    case None => None
    case Some(b) => if checksum != "" && c.sha(b) != checksum then None else c.gunzip(b)
  }

  /** An item unmarshals into a map: an object, or null, which leaves the map nil. */
  predicate Readable(item: Json) {
    item.JObj? || item.JNull?
  }

  predicate AllReadable(items: seq<Json>) {
    forall i :: 0 <= i < |items| ==> Readable(items[i])
  }

  function DecodeChunk(c: Codec, data: string, checksum: string): ReadResult {
    match Verified(c, data, checksum)
    case None => Err(CorruptChunk)
    case Some(items) => if AllReadable(items) then Ok(items) else Err(CorruptChunk)
  }

  function ReadInOrder(c: Codec, chunks: map<ChunkName, Chunk>, infos: seq<Info>): ReadResult {
    if infos == [] then Ok([])
    else match ReadInOrder(c, chunks, infos[..|infos| - 1])
      case Err(e) => Err(e)
      case Ok(init) =>
        var info := infos[|infos| - 1];
        if info.name !in chunks then Err(MissingChunk)
        else match DecodeChunk(c, chunks[info.name].data, info.checksum)
          case Err(e) => Err(e)
          case Ok(items) => Ok(init + items)
  }

  predicate IndexLe(a: Info, b: Info) {
    a.index <= b.index
  }

  /** CollectReconstructedManifestObjects. */
  function OrderedRead(c: Codec, chunks: map<ChunkName, Chunk>, infos: seq<Info>): ReadResult {
    ReadInOrder(c, chunks, Sort(IndexLe, infos))
  }

  lemma {:induction false} ReadErrorStays(c: Codec, chunks: map<ChunkName, Chunk>, infos: seq<Info>, k: nat)
    requires k <= |infos| && ReadInOrder(c, chunks, infos[..k]).Err?
    ensures ReadInOrder(c, chunks, infos) == ReadInOrder(c, chunks, infos[..k])
    decreases |infos| - k
  {
    if k == |infos| {
      assert infos[..k] == infos;
    } else {
      assert infos[..k + 1][..k] == infos[..k];
      ReadErrorStays(c, chunks, infos, k + 1);
    }
  }

  method CollectOrdered(c: Codec, store: ChunkStore, recorded: seq<Info>) returns (r: ReadResult)
    ensures r == OrderedRead(c, store.chunks, recorded)
  {
    var infos := Sort(IndexLe, recorded);
    var out: seq<Json> := [];
    for i := 0 to |infos|
      invariant ReadInOrder(c, store.chunks, infos[..i]) == Ok(out)
    {
      assert infos[..i + 1][..i] == infos[..i];
      if infos[i].name !in store.chunks {
        ReadErrorStays(c, store.chunks, infos, i + 1);
        return Err(MissingChunk);
      }
      var d := DecodeChunk(c, store.chunks[infos[i].name].data, infos[i].checksum);
      if d.Err? {
        ReadErrorStays(c, store.chunks, infos, i + 1);
        return Err(d.error);
      }
      out := out + d.objects;
    }
    assert infos[..|infos|] == infos;
    return Ok(out);
  }

  lemma {:induction false} SortedStays(infos: seq<Info>)
    requires forall i, j :: 0 <= i < j < |infos| ==> infos[i].index <= infos[j].index
    ensures Sort(IndexLe, infos) == infos
  {
    if infos != [] {
      SortedStays(infos[1..]);
      assert infos == [infos[0]] + infos[1..];
    }
  }

  // Records are sorted by their index; where the indices differ, that leaves one arrangement.

  ghost predicate ByIndex(infos: seq<Info>) {
    forall i, j :: 0 <= i < j < |infos| ==> infos[i].index <= infos[j].index
  }

  ghost predicate IndicesDiffer(infos: seq<Info>) {
    forall a, b :: a in infos && b in infos && a.index == b.index ==> a == b
  }

  lemma {:induction false} InsertByIndex(x: Info, s: seq<Info>)
    requires ByIndex(s)
    ensures ByIndex(Insert(IndexLe, x, s)) && multiset(Insert(IndexLe, x, s)) == multiset{x} + multiset(s)
  {
    if s != [] {
      assert s == [s[0]] + s[1..];
      if !IndexLe(x, s[0]) {
        InsertByIndex(x, s[1..]);
        LeastByIndex(x, s, Insert(IndexLe, x, s[1..]));
      }
    }
  }

  lemma LeastByIndex(x: Info, s: seq<Info>, rest: seq<Info>)
    requires ByIndex(s) && s != [] && s[0].index <= x.index
    requires ByIndex(rest) && multiset(rest) == multiset{x} + multiset(s[1..])
    ensures ByIndex([s[0]] + rest)
  {
    forall y | y in rest ensures s[0].index <= y.index {
      assert y in multiset(rest);
      assert y == x || y in s[1..];
    }
    forall i, j | 0 <= i < j < |[s[0]] + rest| ensures ([s[0]] + rest)[i].index <= ([s[0]] + rest)[j].index {
      assert ([s[0]] + rest)[j] == rest[j - 1] && rest[j - 1] in rest;
    }
  }

  lemma {:induction false} SortByIndex(s: seq<Info>)
    ensures ByIndex(Sort(IndexLe, s)) && multiset(Sort(IndexLe, s)) == multiset(s)
  {
    if s != [] {
      SortByIndex(s[1..]);
      InsertByIndex(s[0], Sort(IndexLe, s[1..]));
      assert s == [s[0]] + s[1..];
    }
  }

  lemma FirstByIndex(a: seq<Info>, b: seq<Info>)
    requires ByIndex(a) && ByIndex(b) && multiset(a) == multiset(b) && IndicesDiffer(a) && a != [] && b != []
    ensures a[0] == b[0]
  {
    assert a[0] in multiset(a) && b[0] in multiset(b);
    var i :| 0 <= i < |a| && a[i] == b[0];
    var j :| 0 <= j < |b| && b[j] == a[0];
    assert a[0].index <= a[i].index && b[0].index <= b[j].index;
    assert a[0] in a && a[i] in a;
  }

  lemma TailByIndex(a: seq<Info>)
    requires ByIndex(a) && IndicesDiffer(a) && a != []
    ensures ByIndex(a[1..]) && IndicesDiffer(a[1..])
  {
    assert forall x :: x in a[1..] ==> x in a;
  }

  lemma {:induction false} ByIndexUnique(a: seq<Info>, b: seq<Info>)
    requires ByIndex(a) && ByIndex(b) && multiset(a) == multiset(b) && IndicesDiffer(a)
    ensures a == b
  {
    assert |a| == |multiset(a)| == |multiset(b)| == |b|;
    if a != [] {
      FirstByIndex(a, b);
      TailMultiset(a);
      TailMultiset(b);
      TailByIndex(a);
      assert ByIndex(b[1..]);
      ByIndexUnique(a[1..], b[1..]);
      assert a == [a[0]] + a[1..] && b == [b[0]] + b[1..];
    }
  }

  /** The order in which the records of an upload are listed does not matter to the reader. */
  lemma ListedInAnyOrder(c: Codec, chunks: map<ChunkName, Chunk>, uid: nat, payload: seq<Json>, listed: seq<Info>)
    requires multiset(listed) == multiset(Infos(c, uid, payload))
    ensures Sort(IndexLe, listed) == Infos(c, uid, payload)
    ensures OrderedRead(c, chunks, listed) == OrderedRead(c, chunks, Infos(c, uid, payload))
  {
    var infos := Infos(c, uid, payload);
    SortByIndex(listed);
    forall x, y | x in infos && y in infos && x.index == y.index ensures x == y {
      var i :| 0 <= i < |infos| && infos[i] == x;
      var j :| 0 <= j < |infos| && infos[j] == y;
    }
    ByIndexUnique(infos, Sort(IndexLe, listed));
    SortedStays(infos);
  }

  /** The chunk stored under the i-th recorded name holds bytes with the recorded checksum. */
  ghost predicate ChunkMatches(c: Codec, chunks: map<ChunkName, Chunk>, info: Info) {
    && info.name in chunks
    && c.unb64(chunks[info.name].data).Some?
    && c.sha(c.unb64(chunks[info.name].data).value) == info.checksum
  }

  ghost predicate MatchUpTo(c: Codec, chunks: map<ChunkName, Chunk>, infos: seq<Info>, k: nat)
    requires k <= |infos|
  {
    forall i :: 0 <= i < k ==> ChunkMatches(c, chunks, infos[i])
  }

  /** One more chunk of an ordered read. */
  lemma ReadNext(c: Codec, chunks: map<ChunkName, Chunk>, infos: seq<Info>, k: nat)
    requires k < |infos|
    ensures ReadInOrder(c, chunks, infos[..k + 1]) == match ReadInOrder(c, chunks, infos[..k])
      case Err(e) => Err(e)
      case Ok(init) =>
        if infos[k].name !in chunks then Err(MissingChunk)
        else match DecodeChunk(c, chunks[infos[k].name].data, infos[k].checksum)
          case Err(e) => Err(e)
          case Ok(items) => Ok(init + items)
  {
    assert infos[..k + 1][..k] == infos[..k];
  }

  /** What reading the first k of these records gives, over any stored chunks. */
  ghost predicate ReadsUpTo(c: Codec, chunks: map<ChunkName, Chunk>, infos: seq<Info>, groups: seq<seq<Json>>, k: nat)
    requires k <= |infos| == |groups|
  {
    var r, objects := ReadInOrder(c, chunks, infos[..k]), Flat(groups[..k]);
    && (r.Ok? <==> AllReadable(objects) && MatchUpTo(c, chunks, infos, k))
    && (r.Ok? ==> r.objects == objects)
  }

  lemma ReadsOneMore(c: Codec, chunks: map<ChunkName, Chunk>, infos: seq<Info>, groups: seq<seq<Json>>, k: nat)
    requires Lawful(c) && k < |infos| == |groups| && infos[k].checksum == c.sha(c.gzip(groups[k]))
    requires ReadsUpTo(c, chunks, infos, groups, k)
    ensures ReadsUpTo(c, chunks, infos, groups, k + 1)
  {
    ReadNext(c, chunks, infos, k);
    DecodeRecorded(c, chunks, infos[k], groups[k]);
    assert groups[..k + 1] == groups[..k] + [groups[k]];
    FlatSnoc(groups[..k], groups[k]);
    ReadableConcat(Flat(groups[..k]), groups[k]);
    assert MatchUpTo(c, chunks, infos, k + 1) <==> MatchUpTo(c, chunks, infos, k) && ChunkMatches(c, chunks, infos[k]);
  }

  lemma {:induction false} ReadRecorded(c: Codec, chunks: map<ChunkName, Chunk>, infos: seq<Info>, groups: seq<seq<Json>>, k: nat)
    requires Lawful(c) && k <= |infos| == |groups|
    requires forall i :: 0 <= i < |infos| ==> infos[i].checksum == c.sha(c.gzip(groups[i]))
    ensures ReadsUpTo(c, chunks, infos, groups, k)
  {
    if k > 0 {
      ReadRecorded(c, chunks, infos, groups, k - 1);
      ReadsOneMore(c, chunks, infos, groups, k - 1);
    }
  }

  lemma ReadableConcat(a: seq<Json>, b: seq<Json>)
    ensures AllReadable(a + b) <==> AllReadable(a) && AllReadable(b)
  {
    if AllReadable(a + b) {
      forall i | 0 <= i < |a| ensures Readable(a[i]) { assert (a + b)[i] == a[i]; }
      forall i | 0 <= i < |b| ensures Readable(b[i]) { assert (a + b)[|a| + i] == b[i]; }
    }
  }

  /** The checksum pins the bytes: a chunk that passes it decodes to the recorded group. */
  lemma DecodeRecorded(c: Codec, chunks: map<ChunkName, Chunk>, info: Info, group: seq<Json>)
    requires Lawful(c) && info.checksum == c.sha(c.gzip(group))
    ensures info.name in chunks ==>
      var d := DecodeChunk(c, chunks[info.name].data, info.checksum);
      (d.Ok? <==> ChunkMatches(c, chunks, info) && AllReadable(group)) && (d.Ok? ==> d.objects == group)
  {
    assert info.checksum != "";
    if ChunkMatches(c, chunks, info) {
      assert c.unb64(chunks[info.name].data).value == c.gzip(group);
      assert c.gunzip(c.gzip(group)) == Some(group);
    }
  }

  /** The ordered reader on the status one upload recorded, over whatever chunks are stored: it succeeds
      exactly when every item is an object (or null) and every chunk matches its checksum, and then it
      returns that upload, whole and in order. */
  lemma OrderedReadExactly(c: Codec, chunks: map<ChunkName, Chunk>, uid: nat, payload: seq<Json>)
    requires Lawful(c)
    ensures var r := OrderedRead(c, chunks, Infos(c, uid, payload));
      && (r.Ok? <==>
            && (forall x :: x in payload ==> x.JObj? || x.JNull?)
            && forall i :: 0 <= i < |Infos(c, uid, payload)| ==> ChunkMatches(c, chunks, Infos(c, uid, payload)[i]))
      && (r.Ok? ==> r.objects == payload)
  {
    var infos := Infos(c, uid, payload);
    SortedStays(infos);
    ReadRecorded(c, chunks, infos, Groups(c, payload), |infos|);
    assert infos[..|infos|] == infos && Groups(c, payload)[..|infos|] == Groups(c, payload);
    GroupsHold(c, payload);
    ReadableEach(payload);
  }

  lemma ReadableEach(items: seq<Json>)
    ensures AllReadable(items) <==> forall x :: x in items ==> x.JObj? || x.JNull?
  {
    if forall x :: x in items ==> x.JObj? || x.JNull? {
      forall i | 0 <= i < |items| ensures Readable(items[i]) { assert items[i] in items; }
    }
  }

  /** Reading one record: the chunk is there, its data is base64, has the recorded checksum unless none is
      recorded, unpacks, and holds objects or nulls only. */
  ghost predicate ReadsAs(c: Codec, chunks: map<ChunkName, Chunk>, info: Info, items: seq<Json>) {
    && info.name in chunks
    && var b := c.unb64(chunks[info.name].data);
    && b.Some? && (info.checksum == "" || c.sha(b.value) == info.checksum)
    && c.gunzip(b.value) == Some(items)
    && forall x :: x in items ==> x.JObj? || x.JNull?
  }

  /** `lists` are what the records hold, one by one. */
  ghost predicate AllReadAs(c: Codec, chunks: map<ChunkName, Chunk>, infos: seq<Info>, lists: seq<seq<Json>>) {
    |lists| == |infos| && forall i :: 0 <= i < |infos| ==> ReadsAs(c, chunks, infos[i], lists[i])
  }

  lemma DecodesAs(c: Codec, chunks: map<ChunkName, Chunk>, info: Info, items: seq<Json>)
    requires info.name in chunks
    ensures DecodeChunk(c, chunks[info.name].data, info.checksum) == Ok(items) <==> ReadsAs(c, chunks, info, items)
  {
    ReadableEach(items);
  }

  lemma ReadAsSnoc(c: Codec, chunks: map<ChunkName, Chunk>, init: seq<Info>, last: Info, lists: seq<seq<Json>>, items: seq<Json>)
    requires |lists| == |init|
    ensures AllReadAs(c, chunks, init + [last], lists + [items]) <==> AllReadAs(c, chunks, init, lists) && ReadsAs(c, chunks, last, items)
  {
    var infos, all := init + [last], lists + [items];
    assert infos[|init|] == last && all[|init|] == items;
    assert forall i :: 0 <= i < |init| ==> infos[i] == init[i] && all[i] == lists[i];
  }

  lemma {:induction false} ReadHasLists(c: Codec, chunks: map<ChunkName, Chunk>, infos: seq<Info>) returns (lists: seq<seq<Json>>)
    requires ReadInOrder(c, chunks, infos).Ok?
    ensures AllReadAs(c, chunks, infos, lists) && Flat(lists) == ReadInOrder(c, chunks, infos).objects
  {
    lists := [];
    if infos != [] {
      var init, last := infos[..|infos| - 1], infos[|infos| - 1];
      var items := DecodeChunk(c, chunks[last.name].data, last.checksum).objects;
      var before := ReadHasLists(c, chunks, init);
      DecodesAs(c, chunks, last, items);
      ReadAsSnoc(c, chunks, init, last, before, items);
      FlatSnoc(before, items);
      assert init + [last] == infos;
      lists := before + [items];
    }
  }

  lemma {:induction false} ListsAreRead(c: Codec, chunks: map<ChunkName, Chunk>, infos: seq<Info>, lists: seq<seq<Json>>)
    requires AllReadAs(c, chunks, infos, lists)
    ensures ReadInOrder(c, chunks, infos) == Ok(Flat(lists))
    decreases |infos|
  {
    if infos != [] {
      var init, last := infos[..|infos| - 1], infos[|infos| - 1];
      var before, items := lists[..|lists| - 1], lists[|lists| - 1];
      assert init + [last] == infos && before + [items] == lists;
      ReadAsSnoc(c, chunks, init, last, before, items);
      ListsAreRead(c, chunks, init, before);
      DecodesAs(c, chunks, last, items);
    }
  }

  /** The ordered reader on any records and any chunks, legacy records without a checksum included: it answers
      `objects` exactly when each record can be read and the records' lists, in order, make up `objects`. */
  lemma ReadsInOrderExactly(c: Codec, chunks: map<ChunkName, Chunk>, infos: seq<Info>, objects: seq<Json>)
    ensures ReadInOrder(c, chunks, infos) == Ok(objects) <==> exists lists :: AllReadAs(c, chunks, infos, lists) && Flat(lists) == objects
  {
    if ReadInOrder(c, chunks, infos) == Ok(objects) {
      var lists := ReadHasLists(c, chunks, infos);
    }
    if lists :| AllReadAs(c, chunks, infos, lists) && Flat(lists) == objects {
      ListsAreRead(c, chunks, infos, lists);
    }
  }
}
