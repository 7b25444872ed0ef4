/** Upload attempts to one checkpoint as interleaved steps: any attempt may stop after any step (a crash is
    an attempt that is never moved again), any number may run at once, and the checkpoint may be deleted
    and created anew. */
module UploadProtocol {
  import opened Ordering
  import opened OwnerRef
  import opened KeyValue
  import opened Packing
  import opened ChunkCodec

  const NAME := "checkpoint"

  /** `version` is the resourceVersion an optimistic update must carry. */
  datatype Checkpoint = Checkpoint(uid: nat, version: nat, ready: bool, chunks: seq<Info>, totalObjects: nat, totalSize: nat)

  datatype Stage = Looking | Creating | Regetting | Writing(next: nat) | Updating | Done(ok: bool)

  /** `payload` is None when the upload is not a JSON array; `uid` and `version` come from the re-get. */
  datatype Attempt = Attempt(stage: Stage, payload: Option<seq<Json>>, uid: nat, version: nat)

  /** `author` is the payload of the attempt that last committed the current status, `creator` the payload of
      the attempt that created each chunk: history, not stored. */
  datatype Store = Store(
    cp: Option<Checkpoint>, chunks: map<ChunkName, Chunk>, attempts: seq<Attempt>, nextUid: nat, clock: nat,
    author: Option<seq<Json>>, creator: map<ChunkName, seq<Json>>)

  datatype Event =
    | Begin(payload: Option<seq<Json>>)
    | Move(a: nat)
    | Touch
    | Delete
    | Collect(name: ChunkName)

  ghost function SetAttempt(s: Store, a: nat, t: Attempt): Store
    requires a < |s.attempts|
  {
    s.(attempts := s.attempts[a := t])
  }

  /** The first Get: a Ready checkpoint ends the attempt, a malformed payload fails it. */
  ghost function Look(s: Store, a: nat): Store
    requires a < |s.attempts|
  {
    var t := s.attempts[a];
    SetAttempt(s, a, t.(stage :=
      if s.cp.Some? && s.cp.value.ready then Done(true)
      else if t.payload == None then Done(false)
      else Creating))
  }

  /** Create, tolerating AlreadyExists. */
  ghost function CreateCheckpoint(s: Store, a: nat): Store
    requires a < |s.attempts|
  {
    var s' := if s.cp.Some? then s
      else s.(cp := Some(Checkpoint(s.nextUid, s.clock, false, [], 0, 0)), nextUid := s.nextUid + 1, clock := s.clock + 1, author := None);
    SetAttempt(s', a, s.attempts[a].(stage := Regetting))
  }

  ghost function Reget(s: Store, a: nat): Store
    requires a < |s.attempts|
  {
    SetAttempt(s, a, if s.cp == None then s.attempts[a].(stage := Done(false))
      else s.attempts[a].(stage := Writing(0), uid := s.cp.value.uid, version := s.cp.value.version))
  }

  ghost function PutChunk(c: Codec, s: Store, name: ChunkName, payload: seq<Json>): Store
    requires name.index < |Groups(c, payload)|
  {
    s.(chunks := s.chunks[name := ChunkOf(c, NAME, Groups(c, payload)[name.index], name.index)], creator := s.creator[name := payload])
  }

  /** The next chunk, tolerating AlreadyExists. */
  ghost function WriteNext(c: Codec, s: Store, a: nat, next: nat): Store
    requires a < |s.attempts| && s.attempts[a].payload.Some?
  {
    var t := s.attempts[a];
    var groups := Groups(c, t.payload.value);
    if next >= |groups| then SetAttempt(s, a, t.(stage := Updating))
    else
      var name := ChunkName(t.uid, next);
      var s' := if name in s.chunks then s else PutChunk(c, s, name, t.payload.value);
      SetAttempt(s', a, t.(stage := Writing(next + 1)))
  }

  /** The status update, under the version of the re-get. */
  ghost function Commit(c: Codec, s: Store, a: nat): Store
    requires a < |s.attempts| && s.attempts[a].payload.Some?
  {
    var t := s.attempts[a];
    if s.cp == None || s.cp.value.uid != t.uid || s.cp.value.version != t.version then SetAttempt(s, a, t.(stage := Done(false)))
    else
      var p := t.payload.value;
      var infos := Infos(c, t.uid, p);
      SetAttempt(s, a, t.(stage := Done(true)))
        .(cp := Some(Checkpoint(t.uid, s.clock, true, infos, |p|, SizeOf(infos))), clock := s.clock + 1, author := Some(p))
  }

  ghost predicate WellFormed(s: Store) {
    forall a :: 0 <= a < |s.attempts| && !s.attempts[a].stage.Looking? && !s.attempts[a].stage.Done? ==> s.attempts[a].payload.Some?
  }

  ghost function MoveAttempt(c: Codec, s: Store, a: nat): Store
    requires WellFormed(s) && a < |s.attempts|
  {
    match s.attempts[a].stage
    case Looking => Look(s, a)
    case Creating => CreateCheckpoint(s, a)
    case Regetting => Reget(s, a)
    case Writing(next) => WriteNext(c, s, a, next)
    case Updating => Commit(c, s, a)
    case Done(_) => s
  }

  /** Touch is any other write to the checkpoint; deleting it lets the garbage collector take its chunks at
      any later time. */
  ghost function Step(c: Codec, s: Store, e: Event): (s': Store)
    requires WellFormed(s)
    ensures WellFormed(s')
  {
    match e
    case Begin(payload) => s.(attempts := s.attempts + [Attempt(Looking, payload, 0, 0)])
    case Move(a) => if a < |s.attempts| then MoveAttempt(c, s, a) else s
    case Touch => if s.cp.Some? then s.(cp := Some(s.cp.value.(version := s.clock)), clock := s.clock + 1) else s
    case Delete => s.(cp := None, author := None)
    case Collect(name) =>
      if s.cp.Some? && s.cp.value.uid == name.uid then s
      else s.(chunks := s.chunks - {name}, creator := s.creator - {name})
  }

  ghost function Run(c: Codec, s: Store, events: seq<Event>): (s': Store)
    requires WellFormed(s)
    ensures WellFormed(s')
    decreases |events|
  {
    if events == [] then s else Run(c, Step(c, s, events[0]), events[1..])
  }

  const START := Store(None, map[], [], 0, 0, None, map[])

  // ---- what an attempt does at its turn ---------------------------------------------------------------------

  /** The first Get decides before the payload is looked at: an upload to a Ready checkpoint ends in success
      whatever it holds, and only then a malformed one fails; neither touches anything. */
  lemma FirstGetExactly(c: Codec, s: Store, a: nat)
    requires WellFormed(s) && a < |s.attempts| && s.attempts[a].stage == Looking
    ensures var s' := Step(c, s, Move(a)); var t' := s'.attempts[a];
      && (t'.stage == Done(true) <==> s.cp.Some? && s.cp.value.ready)
      && (t'.stage == Done(false) <==> !(s.cp.Some? && s.cp.value.ready) && s.attempts[a].payload == None)
      && (t'.stage in {Done(true), Done(false), Creating})
      && s'.cp == s.cp && s'.chunks == s.chunks && s'.author == s.author && t'.payload == s.attempts[a].payload
  {
  }

  /** No upload changes a chunk that is there: it stays until the garbage collector takes it, and the chunks of a
      living checkpoint are not taken. */
  lemma ChunksStay(c: Codec, s: Store, e: Event, n: ChunkName)
    requires WellFormed(s) && n in s.chunks
    ensures n in Step(c, s, e).chunks ==> Step(c, s, e).chunks[n] == s.chunks[n]
    ensures n !in Step(c, s, e).chunks <==> e == Collect(n) && (s.cp == None || s.cp.value.uid != n.uid)
  {
  }

  /** A checkpoint that is there is not created again, and a new one has a UID of its own and is not Ready. */
  lemma CreateExactly(c: Codec, s: Store, a: nat)
    requires WellFormed(s) && a < |s.attempts| && s.attempts[a].stage == Creating
    ensures var s' := Step(c, s, Move(a));
      && s'.cp.Some? && s'.chunks == s.chunks
      && (s.cp.Some? ==> s'.cp == s.cp && s'.author == s.author)
      && (s.cp == None ==> s'.cp.value.uid == s.nextUid < s'.nextUid && !s'.cp.value.ready && s'.author == None)
  {
  }

  /** What success means: the checkpoint was Ready at the first Get, or this attempt's own update was accepted. */
  lemma SuccessExactly(c: Codec, s: Store, a: nat)
    requires WellFormed(s) && a < |s.attempts| && !s.attempts[a].stage.Done?
    ensures var t, s' := s.attempts[a], Step(c, s, Move(a));
      s'.attempts[a].stage == Done(true) <==>
        || (t.stage == Looking && s.cp.Some? && s.cp.value.ready)
        || (t.stage == Updating && s.cp.Some? && s.cp.value.uid == t.uid && s.cp.value.version == t.version
            && s'.cp.Some? && s'.cp.value.ready && s'.author == t.payload)
  {
  }

  // ---- the invariant ---------------------------------------------------------------------------------------

  /** Chunks of the current checkpoint that an attempt has written or found. */
  ghost predicate Present(s: Store, uid: nat, n: nat) {
    forall i: nat :: i < n ==> ChunkName(uid, i) in s.chunks
  }

  ghost predicate AttemptOk(c: Codec, s: Store, t: Attempt) {
    && (t.stage.Writing? || t.stage.Updating? ==> t.payload.Some? && t.uid < s.nextUid)
    && (t.stage.Writing? && s.cp.Some? && s.cp.value.uid == t.uid ==> Present(s, t.uid, t.stage.next))
    && (t.stage.Writing? ==> t.stage.next <= |Groups(c, t.payload.value)|)
    && (t.stage.Updating? && s.cp.Some? && s.cp.value.uid == t.uid ==> Present(s, t.uid, |Groups(c, t.payload.value)|))
  }

  /** Each stored chunk is what its creator's upload puts at that index. */
  ghost predicate ChunksOk(c: Codec, s: Store) {
    && s.chunks.Keys == s.creator.Keys
    && forall n :: n in s.chunks ==>
         n.index < |Groups(c, s.creator[n])| && s.chunks[n] == ChunkOf(c, NAME, Groups(c, s.creator[n])[n.index], n.index)
  }

  ghost predicate StatusOk(c: Codec, s: Store) {
    s.cp.Some? ==>
      var cp := s.cp.value;
      && cp.uid < s.nextUid
      && cp.ready == s.author.Some?
      && (cp.ready ==>
            && cp.chunks == Infos(c, cp.uid, s.author.value)
            && cp.totalObjects == |s.author.value| && cp.totalSize == SizeOf(cp.chunks)
            && Present(s, cp.uid, |Groups(c, s.author.value)|))
  }

  ghost predicate Inv(c: Codec, s: Store) {
    && WellFormed(s) && ChunksOk(c, s) && StatusOk(c, s)
    && forall a :: 0 <= a < |s.attempts| ==> AttemptOk(c, s, s.attempts[a])
  }

  /** What one attempt's progress keeps for the others. */
  ghost predicate Extends(s: Store, s': Store) {
    && s.nextUid <= s'.nextUid
    && (s'.cp.Some? && s'.cp.value.uid < s.nextUid ==>
          s.cp.Some? && s.cp.value.uid == s'.cp.value.uid && forall n :: n in s.chunks && n.uid == s.cp.value.uid ==> n in s'.chunks)
  }

  lemma AttemptStable(c: Codec, s: Store, s': Store, t: Attempt)
    requires Extends(s, s') && AttemptOk(c, s, t)
    ensures AttemptOk(c, s', t)
  {
  }

  /** A move changes the store and one attempt. */
  lemma MovedOne(c: Codec, s: Store, s': Store, a: nat, t: Attempt)
    requires Inv(c, s) && a < |s.attempts| && s'.attempts == s.attempts[a := t]
    requires Extends(s, s') && ChunksOk(c, s') && StatusOk(c, s') && AttemptOk(c, s', t)
    requires !t.stage.Looking? && !t.stage.Done? ==> t.payload.Some?
    ensures Inv(c, s')
  {
    forall b | 0 <= b < |s'.attempts| ensures AttemptOk(c, s', s'.attempts[b]) {
      if b != a { AttemptStable(c, s, s', s.attempts[b]); }
    }
  }

  lemma PutKeeps(c: Codec, s: Store, name: ChunkName, payload: seq<Json>)
    requires ChunksOk(c, s) && StatusOk(c, s) && name.index < |Groups(c, payload)|
    ensures ChunksOk(c, PutChunk(c, s, name, payload)) && StatusOk(c, PutChunk(c, s, name, payload))
  {
    var s' := PutChunk(c, s, name, payload);
    if s.cp.Some? && s.cp.value.ready {
      assert Present(s', s.cp.value.uid, |Groups(c, s.author.value)|);
    }
  }

  lemma WriteKeeps(c: Codec, s: Store, a: nat)
    requires Inv(c, s) && a < |s.attempts| && s.attempts[a].stage.Writing?
    ensures Inv(c, WriteNext(c, s, a, s.attempts[a].stage.next))
  {
    var t := s.attempts[a];
    var next, p := t.stage.next, t.payload.value;
    assert AttemptOk(c, s, t);
    if next >= |Groups(c, p)| {
      MovedOne(c, s, SetAttempt(s, a, t.(stage := Updating)), a, t.(stage := Updating));
    } else {
      WriteOneKeeps(c, s, a, next, p);
    }
  }

  lemma WriteOneKeeps(c: Codec, s: Store, a: nat, next: nat, p: seq<Json>)
    requires Inv(c, s) && a < |s.attempts| && s.attempts[a].stage == Writing(next) && s.attempts[a].payload == Some(p)
    requires next < |Groups(c, p)|
    ensures Inv(c, WriteNext(c, s, a, next))
  {
    var t := s.attempts[a];
    var name, t' := ChunkName(t.uid, next), t.(stage := Writing(next + 1));
    var put := if name in s.chunks then s else PutChunk(c, s, name, p);
    PutKeeps(c, s, name, p);
    assert AttemptOk(c, s, t);
    WriteAdvances(c, s, put, t, next);
    var s' := SetAttempt(put, a, t');
    assert s' == WriteNext(c, s, a, next);
    assert StatusOk(c, s') && ChunksOk(c, s');
    MovedOne(c, s, s', a, t');
  }

  lemma WriteAdvances(c: Codec, s: Store, put: Store, t: Attempt, next: nat)
    requires AttemptOk(c, s, t) && t.stage == Writing(next) && next < |Groups(c, t.payload.value)|
    requires put == s || put == PutChunk(c, s, ChunkName(t.uid, next), t.payload.value)
    requires ChunkName(t.uid, next) in put.chunks
    ensures Extends(s, put) && AttemptOk(c, put, t.(stage := Writing(next + 1)))
  {
  }

  lemma CommitKeeps(c: Codec, s: Store, a: nat)
    requires Inv(c, s) && a < |s.attempts| && s.attempts[a].stage.Updating?
    ensures Inv(c, Commit(c, s, a))
  {
    assert AttemptOk(c, s, s.attempts[a]);
    var s' := Commit(c, s, a);
    MovedOne(c, s, s', a, s'.attempts[a]);
  }

  lemma OpeningKeeps(c: Codec, s: Store, a: nat)
    requires Inv(c, s) && a < |s.attempts|
    ensures s.attempts[a].stage.Looking? ==> Inv(c, Look(s, a))
    ensures s.attempts[a].stage.Creating? ==> Inv(c, CreateCheckpoint(s, a))
    ensures s.attempts[a].stage.Regetting? ==> Inv(c, Reget(s, a))
  {
    var stage := s.attempts[a].stage;
    if stage.Looking? {
      MovedOne(c, s, Look(s, a), a, Look(s, a).attempts[a]);
    } else if stage.Creating? {
      MovedOne(c, s, CreateCheckpoint(s, a), a, CreateCheckpoint(s, a).attempts[a]);
    } else if stage.Regetting? {
      MovedOne(c, s, Reget(s, a), a, Reget(s, a).attempts[a]);
    }
  }

  lemma MoveKeeps(c: Codec, s: Store, a: nat)
    requires Inv(c, s) && a < |s.attempts|
    ensures Inv(c, MoveAttempt(c, s, a))
  {
    match s.attempts[a].stage
    case Writing(_) => WriteKeeps(c, s, a);
    case Updating => CommitKeeps(c, s, a);
    case Done(_) =>
    case _ => OpeningKeeps(c, s, a);
  }

  lemma StepKeeps(c: Codec, s: Store, e: Event)
    requires Inv(c, s)
    ensures Inv(c, Step(c, s, e))
  {
    var s' := Step(c, s, e);
    if e.Move? && e.a < |s.attempts| {
      MoveKeeps(c, s, e.a);
    } else {
      OutsideExtends(c, s, e);
      forall b | 0 <= b < |s'.attempts| ensures AttemptOk(c, s', s'.attempts[b]) {
        if b < |s.attempts| { AttemptStable(c, s, s', s.attempts[b]); }
      }
    }
  }

  /** A step that moves no attempt. */
  lemma OutsideExtends(c: Codec, s: Store, e: Event)
    requires Inv(c, s) && !(e.Move? && e.a < |s.attempts|)
    ensures var s' := Step(c, s, e);
      && Extends(s, s') && ChunksOk(c, s') && StatusOk(c, s') && s.attempts <= s'.attempts
      && forall b :: |s.attempts| <= b < |s'.attempts| ==> s'.attempts[b].stage.Looking?
  {
  }

  lemma {:induction false} RunKeeps(c: Codec, s: Store, events: seq<Event>)
    requires Inv(c, s)
    ensures Inv(c, Run(c, s, events))
    decreases |events|
  {
    if events != [] {
      StepKeeps(c, s, events[0]);
      RunKeeps(c, Step(c, s, events[0]), events[1..]);
    }
  }

  // ---- no mixed checkpoint -----------------------------------------------------------------------------------

  ghost predicate Ready(s: Store) {
    s.cp.Some? && s.cp.value.ready
  }

  /** Whatever attempts ran, crashed or overlapped with whatever payloads: a Ready checkpoint was committed by
      one attempt, reports that attempt's totals, and is read back - if at all - as that attempt's whole
      payload. It can be read exactly when each of its chunks was first created by an attempt whose payload
      has the same group at that place. */
  lemma NoMixedCheckpoint(c: Codec, events: seq<Event>)
    requires Lawful(c) && Ready(Run(c, START, events))
    ensures var s := Run(c, START, events); var p := s.author; var r := OrderedRead(c, s.chunks, s.cp.value.chunks);
      && p.Some? && s.cp.value.totalObjects == |p.value|
      && (r.Ok? ==> r.objects == p.value)
      && (r.Ok? <==> AllReadable(p.value) && forall i: nat :: i < |Groups(c, p.value)| ==>
            var n := ChunkName(s.cp.value.uid, i);
            n in s.creator && i < |Groups(c, s.creator[n])| && Groups(c, s.creator[n])[i] == Groups(c, p.value)[i])
  {
    RunKeeps(c, START, events);
    var s := Run(c, START, events);
    var p, uid := s.author.value, s.cp.value.uid;
    OrderedReadExactly(c, s.chunks, uid, p);
    forall i: nat | i < |Groups(c, p)|
      ensures var n := ChunkName(uid, i);
        n in s.creator && i < |Groups(c, s.creator[n])|
        && (ChunkMatches(c, s.chunks, Infos(c, uid, p)[i]) <==> Groups(c, s.creator[n])[i] == Groups(c, p)[i])
    {
      var n := ChunkName(uid, i);
      assert n in s.chunks;
      HashSeparatesGroups(c, Groups(c, s.creator[n])[i], Groups(c, p)[i]);
      assert c.unb64(c.b64(c.gzip(Groups(c, s.creator[n])[i]))) == Some(c.gzip(Groups(c, s.creator[n])[i]));
    }
  }

  /** Every Ready state of every run: the recorded chunks are a cut of the committed payload into chunks of
      bounded size, with its totals, and a stored chunk that has the recorded checksum unpacks to its part. */
  lemma ReadyIsCut(c: Codec, events: seq<Event>) returns (cut: seq<seq<Json>>)
    requires Lawful(c) && Ready(Run(c, START, events))
    ensures var s := Run(c, START, events); var cp, p := s.cp.value, s.author;
      && p.Some? && CutInto(c, cp.uid, p.value, cut, cp.chunks)
      && cp.totalObjects == |p.value| && cp.totalSize == |Flat(Gzips(c, cut))|
      && (forall i :: 0 <= i < |cp.chunks| && ChunkMatches(c, s.chunks, cp.chunks[i]) ==>
            c.gunzip(c.unb64(s.chunks[cp.chunks[i].name].data).value) == Some(cut[i]))
  {
    RunKeeps(c, START, events);
    var s := Run(c, START, events);
    var cp, p := s.cp.value, s.author.value;
    cut := Groups(c, p);
    InfosCut(c, cp.uid, p);
    SizeIsBytes(c, cp.uid, cut, |cut|);
    assert cut[..|cut|] == cut;
    forall i | 0 <= i < |cp.chunks| && ChunkMatches(c, s.chunks, cp.chunks[i])
      ensures c.gunzip(c.unb64(s.chunks[cp.chunks[i].name].data).value) == Some(cut[i])
    {
      assert RecordedAs(c, cp.uid, cut, cp.chunks, i);
      assert c.unb64(s.chunks[cp.chunks[i].name].data).value == c.gzip(cut[i]);
    }
  }

  /** And where gzip is monotone on it, no cut within the limit has fewer chunks. */
  lemma ReadyIsSmallest(c: Codec, events: seq<Event>, parts: seq<seq<Json>>)
    requires Ready(Run(c, START, events)) && Run(c, START, events).author.Some?
    requires GzipMonotone(c, Run(c, START, events).author.value)
    requires Flat(parts) == Run(c, START, events).author.value && parts != []
    requires forall g :: g in parts ==> |g| <= 1 || |c.gzip(g)| <= 800000
    ensures |Run(c, START, events).cp.value.chunks| <= |parts|
  {
    RunKeeps(c, START, events);
    FewestChunks(c, Run(c, START, events).cp.value.uid, Run(c, START, events).author.value, parts);
  }

  // ---- attempts that agree -----------------------------------------------------------------------------------

  ghost predicate OnlyPayload(events: seq<Event>, p: seq<Json>) {
    forall e :: e in events && e.Begin? && e.payload.Some? ==> e.payload.value == p
  }

  ghost predicate AllCarry(s: Store, p: seq<Json>) {
    && (forall a :: 0 <= a < |s.attempts| && s.attempts[a].payload.Some? ==> s.attempts[a].payload.value == p)
    && (forall n :: n in s.creator ==> s.creator[n] == p)
    && (s.author.Some? ==> s.author.value == p)
  }

  lemma WriteCarries(c: Codec, s: Store, a: nat, p: seq<Json>)
    requires WellFormed(s) && AllCarry(s, p) && a < |s.attempts| && s.attempts[a].stage.Writing?
    ensures AllCarry(WriteNext(c, s, a, s.attempts[a].stage.next), p)
  {
    var t := s.attempts[a];
    var s' := WriteNext(c, s, a, t.stage.next);
    assert s'.attempts == s.attempts[a := s'.attempts[a]] && s'.attempts[a].payload == t.payload;
    assert forall n :: n in s'.creator ==> (n in s.creator && s'.creator[n] == s.creator[n]) || s'.creator[n] == p;
  }

  lemma MoveCarries(c: Codec, s: Store, a: nat, p: seq<Json>)
    requires WellFormed(s) && AllCarry(s, p) && a < |s.attempts|
    ensures AllCarry(MoveAttempt(c, s, a), p)
  {
    if s.attempts[a].stage.Writing? {
      WriteCarries(c, s, a, p);
    } else {
      var s' := MoveAttempt(c, s, a);
      assert s.attempts[a].payload.Some? ==> s.attempts[a].payload.value == p;
      assert s'.attempts == s.attempts[a := s'.attempts[a]] && s'.attempts[a].payload == s.attempts[a].payload;
    }
  }

  lemma StepCarries(c: Codec, s: Store, e: Event, p: seq<Json>)
    requires WellFormed(s) && AllCarry(s, p) && (e.Begin? && e.payload.Some? ==> e.payload.value == p)
    ensures AllCarry(Step(c, s, e), p)
  {
    if e.Move? && e.a < |s.attempts| { MoveCarries(c, s, e.a, p); }
  }

  lemma {:induction false} RunCarries(c: Codec, s: Store, events: seq<Event>, p: seq<Json>)
    requires WellFormed(s) && AllCarry(s, p) && OnlyPayload(events, p)
    ensures AllCarry(Run(c, s, events), p)
    decreases |events|
  {
    if events != [] {
      StepCarries(c, s, events[0], p);
      RunCarries(c, Step(c, s, events[0]), events[1..], p);
    }
  }

  /** Crash safety: when all well-formed attempts carry one list, every Ready state of every run reads back
      that list, in order, as soon as its items are objects - and only then. */
  lemma CrashSafeRoundTrip(c: Codec, events: seq<Event>, p: seq<Json>)
    requires Lawful(c) && OnlyPayload(events, p) && Ready(Run(c, START, events))
    ensures var s := Run(c, START, events); var r := OrderedRead(c, s.chunks, s.cp.value.chunks);
      && (r.Ok? <==> AllReadable(p)) && (r.Ok? ==> r.objects == p)
      && s.cp.value.totalObjects == |p| && s.cp.value.totalSize == SizeOf(s.cp.value.chunks)
      && |s.cp.value.chunks| == |Groups(c, p)|
  {
    NoMixedCheckpoint(c, events);
    RunKeeps(c, START, events);
    RunCarries(c, START, events, p);
    var s := Run(c, START, events);
    forall i: nat | i < |Groups(c, p)| ensures ChunkName(s.cp.value.uid, i) in s.creator {
      assert ChunkName(s.cp.value.uid, i) in s.chunks;
    }
  }

  /** An empty upload is recorded as one chunk of no objects and reads back empty. */
  lemma EmptyUpload(c: Codec, events: seq<Event>)
    requires Lawful(c) && OnlyPayload(events, []) && Ready(Run(c, START, events))
    ensures var s := Run(c, START, events);
      |s.cp.value.chunks| == 1 && s.cp.value.totalObjects == 0 && OrderedRead(c, s.chunks, s.cp.value.chunks) == Ok([])
  {
    CrashSafeRoundTrip(c, events, []);
    assert Pack(Measure(c), []) == [];
  }
}
