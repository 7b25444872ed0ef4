/** The archive service: a cache in front of the parallel reader. */
module ArchiveCache {
  import opened Ordering
  import opened OwnerRef
  import opened KeyValue
  import opened ChunkCodec
  import opened UploadProtocol
  import opened ParallelReader

  const TTL: int := 5 * 60
  const MAX_OBJECTS: nat := 10000

  // ---- keys ------------------------------------------------------------------------------------------------

  function CacheKey(name: string, uid: string): string {
    name + ":" + uid
  }

  /** Kubernetes names hold no colon. */
  ghost predicate ColonFree(s: string) {
    ':' !in s
  }

  lemma CacheKeyExactly(name: string, uid: string, name': string, uid': string)
    requires ColonFree(name) && ColonFree(name')
    ensures CacheKey(name, uid) == CacheKey(name', uid') <==> name == name' && uid == uid'
  {
    var k, k' := CacheKey(name, uid), CacheKey(name', uid');
    assert k[|name|] == ':' && k'[|name'|] == ':';
    assert forall i :: 0 <= i < |name| ==> k[i] == name[i] && k[i] != ':';
    assert forall i :: 0 <= i < |name'| ==> k'[i] == name'[i] && k'[i] != ':';
    assert k[..|name|] == name && k'[..|name'|] == name' && k[|name| + 1..] == uid && k'[|name'| + 1..] == uid';
  }

  // ---- the cache -------------------------------------------------------------------------------------------

  datatype CacheItem = CacheItem(data: seq<Json>, createdAt: int, ttl: int)

  predicate Expired(item: CacheItem, now: int) {
    now - item.createdAt > item.ttl
  }

  function Lookup(items: map<string, CacheItem>, key: string, now: int): Option<CacheItem> {
    if key !in items || Expired(items[key], now) then None else Some(items[key])
  }

  ghost function Cleaned(items: map<string, CacheItem>, now: int): map<string, CacheItem> {
    map k | k in items && !Expired(items[k], now) :: items[k]
  }

  class Cache {
    var items: map<string, CacheItem>

    constructor ()
      ensures items == map[]
    {
      items := map[];
    }

    method Get(key: string, now: int) returns (r: Option<CacheItem>)
      ensures r == Lookup(items, key, now)
    {
      if key !in items { return None; }
      if now - items[key].createdAt > items[key].ttl { return None; }
      return Some(items[key]);
    }

    method Set(key: string, item: CacheItem)
      modifies this
      ensures items == old(items)[key := item]
    {
      items := items[key := item];
    }

    /** Deletes while ranging over the map, in any order. */
    method CleanupExpired(now: int)
      modifies this
      ensures items == Cleaned(old(items), now)
    {
      var rest := items.Keys;
      while rest != {}
        invariant rest <= old(items).Keys
        invariant items == map k | k in old(items) && (k in rest || !Expired(old(items)[k], now)) :: old(items)[k]
        decreases |rest|
      {
        var k :| k in rest;
        if now - items[k].createdAt > items[k].ttl {
          items := items - {k};
        }
        rest := rest - {k};
      }
    }
  }

  // ---- any sequence of fills and cleanups ---------------------------------------------------------------------

  function ArchiveAll(sprint: Json -> string, objects: seq<Json>): (r: seq<Json>)
    ensures |r| == |objects|
  {
    seq(|objects|, i requires 0 <= i < |objects| => ArchiveItem(sprint, objects[i]))
  }

  /** A fill ends the slow path of some request; the gets in between are free to happen at any point. */
  datatype CacheEvent =
    | Fill(name: string, uid: string, objects: seq<Json>, at: int)
    | Cleanup(at: int)

  ghost function Apply(sprint: Json -> string, items: map<string, CacheItem>, e: CacheEvent): map<string, CacheItem> {
    match e
    case Fill(name, uid, objects, at) => items[CacheKey(name, uid) := CacheItem(ArchiveAll(sprint, objects), at, TTL)]
    case Cleanup(at) => Cleaned(items, at)
  }

  ghost function Filled(sprint: Json -> string, events: seq<CacheEvent>): map<string, CacheItem> {
    if events == [] then map[] else Apply(sprint, Filled(sprint, events[..|events| - 1]), events[|events| - 1])
  }

  /** The latest fill for a name and UID; cleanups do not count. */
  ghost function LastFill(events: seq<CacheEvent>, name: string, uid: string): Option<CacheEvent> {
    if events == [] then None
    else
      var e := events[|events| - 1];
      if e.Fill? && e.name == name && e.uid == uid then Some(e) else LastFill(events[..|events| - 1], name, uid)
  }

  ghost predicate InOrder(events: seq<CacheEvent>, now: int) {
    && (forall i, j :: 0 <= i < j < |events| ==> events[i].at <= events[j].at)
    && (forall i :: 0 <= i < |events| ==> events[i].at <= now)
  }

  ghost predicate NamesOk(events: seq<CacheEvent>) {
    forall e :: e in events && e.Fill? ==> ColonFree(e.name)
  }

  /** With a clock that does not run backwards, a get is answered exactly by the latest fill of that name and
      UID while it is at most five minutes old, whatever cleanups ran and when. */
  lemma {:induction false} ServesLastFill(sprint: Json -> string, events: seq<CacheEvent>, name: string, uid: string, now: int)
    requires InOrder(events, now) && NamesOk(events) && ColonFree(name)
    ensures var r := Lookup(Filled(sprint, events), CacheKey(name, uid), now);
      match LastFill(events, name, uid)
      case None => r == None
      case Some(f) =>
        f.Fill? && f.at <= now && r == if now - f.at > 300 then None else Some(CacheItem(ArchiveAll(sprint, f.objects), f.at, 300))
  {
    if events != [] {
      var init, e := events[..|events| - 1], events[|events| - 1];
      assert e in events && forall x :: x in init ==> x in events;
      ServesLastFill(sprint, init, name, uid, now);
      if e.Fill? { CacheKeyExactly(e.name, e.uid, name, uid); }
    }
  }

  /** CleanupExpired changes the answer of a get exactly when the clock ran back: the entry was expired at the
      cleanup and is not at the get. */
  lemma CleanupVisibleExactly(items: map<string, CacheItem>, key: string, at: int, now: int)
    ensures Lookup(Cleaned(items, at), key, now) == Lookup(items, key, now) <==>
              !(key in items && Expired(items[key], at) && !Expired(items[key], now))
    ensures at <= now ==> Lookup(Cleaned(items, at), key, now) == Lookup(items, key, now)
  {
  }

  // ---- transparency ---------------------------------------------------------------------------------------------

  /** `truth` is what the slow path collects for a name and UID, up to order: a Ready checkpoint is immutable
      under its UID. */
  ghost predicate Immutable(events: seq<CacheEvent>, truth: (string, string) -> seq<Json>) {
    forall e :: e in events && e.Fill? ==> multiset(e.objects) == multiset(truth(e.name, e.uid))
  }

  ghost function Archived(sprint: Json -> string, objects: seq<Json>): multiset<Json> {
    if objects == [] then multiset{} else multiset{ArchiveItem(sprint, objects[0])} + Archived(sprint, objects[1..])
  }

  lemma {:induction false} ArchivedIsArchive(sprint: Json -> string, objects: seq<Json>)
    ensures multiset(ArchiveAll(sprint, objects)) == Archived(sprint, objects)
  {
    if objects != [] {
      ArchivedIsArchive(sprint, objects[1..]);
      assert ArchiveAll(sprint, objects) == [ArchiveItem(sprint, objects[0])] + ArchiveAll(sprint, objects[1..]);
    }
  }

  lemma ArchivedCons(sprint: Json -> string, x: Json, objects: seq<Json>)
    ensures Archived(sprint, [x] + objects) == multiset{ArchiveItem(sprint, x)} + Archived(sprint, objects)
  {
    assert ([x] + objects)[1..] == objects;
  }

  lemma Swap(x: multiset<Json>, y: multiset<Json>, rest: multiset<Json>)
    ensures x + (y + rest) == y + (x + rest)
  {
  }

  function Without(objects: seq<Json>, k: nat): seq<Json>
    requires k < |objects|
  {
    objects[..k] + objects[k + 1..]
  }

  lemma {:induction false} ArchivedWithout(sprint: Json -> string, objects: seq<Json>, k: nat)
    requires k < |objects|
    ensures Archived(sprint, objects) == multiset{ArchiveItem(sprint, objects[k])} + Archived(sprint, Without(objects, k))
  {
    if k == 0 {
      assert Without(objects, 0) == objects[1..];
    } else {
      ArchivedWithout(sprint, objects[1..], k - 1);
      var rest := Without(objects[1..], k - 1);
      assert Without(objects, k) == [objects[0]] + rest;
      ArchivedCons(sprint, objects[0], rest);
      Swap(multiset{ArchiveItem(sprint, objects[0])}, multiset{ArchiveItem(sprint, objects[k])}, Archived(sprint, rest));
    }
  }

  lemma MultisetWithout(objects: seq<Json>, k: nat)
    requires k < |objects|
    ensures multiset(Without(objects, k)) == multiset(objects) - multiset{objects[k]}
  {
    assert objects == objects[..k] + [objects[k]] + objects[k + 1..];
  }

  lemma {:induction false} ArchivedPermutes(sprint: Json -> string, a: seq<Json>, b: seq<Json>)
    requires multiset(a) == multiset(b)
    ensures Archived(sprint, a) == Archived(sprint, b)
  {
    if a == [] {
      assert |b| == |multiset(b)| == |multiset(a)| == 0;
    } else {
      assert a[0] in multiset(b);
      var k :| 0 <= k < |b| && b[k] == a[0];
      MultisetWithout(a, 0);
      MultisetWithout(b, k);
      assert Without(a, 0) == a[1..];
      ArchivedPermutes(sprint, a[1..], Without(b, k));
      ArchivedWithout(sprint, b, k);
    }
  }

  lemma ArchivePermutes(sprint: Json -> string, a: seq<Json>, b: seq<Json>)
    requires multiset(a) == multiset(b)
    ensures multiset(ArchiveAll(sprint, a)) == multiset(ArchiveAll(sprint, b))
  {
    ArchivedPermutes(sprint, a, b);
    ArchivedIsArchive(sprint, a);
    ArchivedIsArchive(sprint, b);
  }

  /** Every hit holds what the slow path would collect for that name and UID, up to order. */
  lemma HitsAreTrue(sprint: Json -> string, events: seq<CacheEvent>, truth: (string, string) -> seq<Json>, name: string, uid: string, now: int)
    requires InOrder(events, now) && NamesOk(events) && ColonFree(name) && Immutable(events, truth)
    ensures var r := Lookup(Filled(sprint, events), CacheKey(name, uid), now);
      r.Some? ==> multiset(r.value.data) == multiset(ArchiveAll(sprint, truth(name, uid)))
  {
    ServesLastFill(sprint, events, name, uid, now);
    var f := LastFill(events, name, uid);
    if f.Some? {
      LastFillOccurs(events, name, uid);
      ArchivePermutes(sprint, f.value.objects, truth(name, uid));
    }
  }

  lemma {:induction false} LastFillOccurs(events: seq<CacheEvent>, name: string, uid: string)
    requires LastFill(events, name, uid).Some?
    ensures var f := LastFill(events, name, uid).value; f in events && f.Fill? && f.name == name && f.uid == uid
  {
    var e := events[|events| - 1];
    if !(e.Fill? && e.name == name && e.uid == uid) { LastFillOccurs(events[..|events| - 1], name, uid); }
  }

  // ---- the service ----------------------------------------------------------------------------------------------

  /** A checkpoint as the caller loaded it. */
  datatype Loaded = Loaded(uid: string, ready: bool, totalObjects: nat, chunks: seq<Info>)

  datatype ArchiveError = NotReady | TooManyObjects | Unreadable(error: ReadError)

  datatype Archive = Served(data: seq<Json>) | Refused(reason: ArchiveError)

  method CreateJsonArchive(sprint: Json -> string, objects: seq<Json>) returns (data: seq<Json>)
    ensures data == ArchiveAll(sprint, objects)
  {
    data := [];
    for i := 0 to |objects|
      invariant data == ArchiveAll(sprint, objects[..i])
    {
      var m := ConvertMapSliceToMap(sprint, objects[i]);
      data := data + [m];
    }
    assert objects[..|objects|] == objects;
  }

  /** GetArchiveFromCheckpoint: the cache is asked under the requested UID before anything is checked, and
      filled under the checkpoint's own. */
  method GetArchiveFromCheckpoint(c: Codec, sprint: Json -> string, store: ChunkStore, cache: Cache, cp: Loaded,
      name: string, uid: string, now: int)
    returns (r: Archive, ghost order: seq<nat>)
    modifies cache
    ensures Lookup(old(cache.items), CacheKey(name, uid), now).Some? ==>
              r == Served(Lookup(old(cache.items), CacheKey(name, uid), now).value.data) && cache.items == old(cache.items)
    ensures Lookup(old(cache.items), CacheKey(name, uid), now) == None ==>
              var infos := Sort(IndexLe, cp.chunks);
              && (r.Served? <==> cp.ready && cp.totalObjects <= 10000 && Collectable(c, sprint, store.chunks, name, infos))
              && (r.Served? ==>
                    var rs := Results(c, sprint, store.chunks, name, infos);
                    && Completion(order, |rs|) && AllDone(rs, order)
                    && r.data == ArchiveAll(sprint, Appended(rs, order))
                    && cache.items == Apply(sprint, old(cache.items), Fill(name, cp.uid, Appended(rs, order), now)))
              && (r.Refused? ==> cache.items == old(cache.items))
              && (r.Refused? && r.reason.NotReady? <==> !cp.ready)
              && (r.Refused? && r.reason.TooManyObjects? <==> cp.ready && cp.totalObjects > 10000)
  {
    order := [];
    var cached := cache.Get(CacheKey(name, uid), now);
    if cached.Some? { return Served(cached.value.data), order; }
    if !cp.ready { return Refused(NotReady), order; }
    if cp.totalObjects > MAX_OBJECTS { return Refused(TooManyObjects), order; }
    var read: ReadResult;
    read, order := CollectObjects(c, sprint, store, name, cp.chunks);
    if read.Err? { return Refused(Unreadable(read.error)), order; }
    var data := CreateJsonArchive(sprint, read.objects);
    cache.Set(CacheKey(name, cp.uid), CacheItem(data, now, TTL));
    return Served(data), order;
  }

  // ---- what the assumption comes to for uploads ---------------------------------------------------------------------

  /** While all uploads to the checkpoint carry one list of maps, every slow path over it, at any time and in
      any order of completion, gives one archive up to order: the upload, each map converted twice. */
  lemma OneUploadIsImmutable(c: Codec, sprint: Json -> string, events: seq<Event>, p: seq<Json>, order: seq<nat>)
    requires Lawful(c) && OnlyPayload(events, p) && AllMaps(p) && Ready(Run(c, START, events))
    requires Completion(order, |Run(c, START, events).cp.value.chunks|)
    ensures var s := Run(c, START, events); var rs := Results(c, sprint, s.chunks, NAME, s.cp.value.chunks);
      && AllDone(rs, order)
      && multiset(ArchiveAll(sprint, Appended(rs, order))) == multiset(ArchiveAll(sprint, Normalised(sprint, p)))
      && ((forall i :: 0 <= i < |p| ==> NoPairHead(p[i])) ==> multiset(ArchiveAll(sprint, Appended(rs, order))) == multiset(p))
  {
    ParallelRoundTrip(c, sprint, events, p, order);
    var s := Run(c, START, events);
    var rs := Results(c, sprint, s.chunks, NAME, s.cp.value.chunks);
    ArchivePermutes(sprint, Appended(rs, order), Normalised(sprint, p));
    NormalisedMaps(sprint, p);
    if forall i :: 0 <= i < |p| ==> NoPairHead(p[i]) {
      forall i | 0 <= i < |p| ensures ArchiveItem(sprint, p[i]) == p[i] { FixedExactly(sprint, p[i]); }
      assert ArchiveAll(sprint, p) == p;
    }
  }
}
