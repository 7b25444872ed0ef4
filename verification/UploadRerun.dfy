/** The run that matters for overlapping uploads: one attempt crashes before its status update, another with
    its own payload completes. */
module UploadRerun {
  import opened OwnerRef
  import opened KeyValue
  import opened ChunkCodec
  import opened UploadProtocol

  function Moves(a: nat, n: nat): seq<Event> {
    if n == 0 then [] else [Move(a)] + Moves(a, n - 1)
  }

  lemma {:induction false} RunSplit(c: Codec, s: Store, xs: seq<Event>, ys: seq<Event>)
    requires WellFormed(s)
    ensures Run(c, s, xs + ys) == Run(c, Run(c, s, xs), ys)
    decreases |xs|
  {
    if xs == [] {
      assert xs + ys == ys;
    } else {
      assert (xs + ys)[0] == xs[0] && (xs + ys)[1..] == xs[1..] + ys;
      RunSplit(c, Step(c, s, xs[0]), xs[1..], ys);
    }
  }

  lemma OneMove(c: Codec, s: Store, a: nat, n: nat)
    requires WellFormed(s) && n > 0
    ensures Run(c, s, Moves(a, n)) == Run(c, Step(c, s, Move(a)), Moves(a, n - 1))
  {
    assert Moves(a, n)[1..] == Moves(a, n - 1);
  }

  /** Opening an attempt on a checkpoint that is not Ready brings it to its first chunk. */
  lemma Opens(c: Codec, s: Store, p: seq<Json>)
    requires WellFormed(s) && (s.cp.Some? ==> !s.cp.value.ready)
    ensures var s0 := CreateCheckpoint(s.(attempts := s.attempts + [Attempt(Creating, Some(p), 0, 0)]), |s.attempts|);
      Run(c, s, [Begin(Some(p))] + Moves(|s.attempts|, 3)) ==
        s0.(attempts := s.attempts + [Attempt(Writing(0), Some(p), s0.cp.value.uid, s0.cp.value.version)])
  {
    var a := |s.attempts|;
    var s1 := Step(c, s, Begin(Some(p)));
    assert ([Begin(Some(p))] + Moves(a, 3))[1..] == Moves(a, 3);
    OneMove(c, s1, a, 3);
    var s2 := Step(c, s1, Move(a));
    assert s2.attempts == s.attempts + [Attempt(Creating, Some(p), 0, 0)];
    OneMove(c, s2, a, 2);
    var s3 := Step(c, s2, Move(a));
    OneMove(c, s3, a, 1);
    assert Step(c, s3, Move(a)).attempts == s.attempts + [Attempt(Writing(0), Some(p), s3.cp.value.uid, s3.cp.value.version)];
  }

  /** The chunk under each of these names is the first writer's: an earlier one, or this attempt's. */
  ghost predicate Filled(before: map<ChunkName, seq<Json>>, after: map<ChunkName, seq<Json>>, uid: nat, p: seq<Json>, lo: nat, hi: nat) {
    && (forall n :: n in before ==> n in after && after[n] == before[n])
    && (forall n :: n in after && n !in before ==> n.uid == uid && n.index < hi && after[n] == p)
    && (forall i: nat :: lo <= i < hi ==> ChunkName(uid, i) in after)
  }

  lemma FilledOnce(c: Codec, s: Store, a: nat, p: seq<Json>, next: nat)
    requires a < |s.attempts| && s.attempts[a].payload == Some(p) && next < |Groups(c, p)| && s.chunks.Keys == s.creator.Keys
    ensures var s' := WriteNext(c, s, a, next); var uid := s.attempts[a].uid;
      && s'.cp == s.cp && s'.attempts == s.attempts[a := s.attempts[a].(stage := Writing(next + 1))]
      && Filled(s.creator, s'.creator, uid, p, next, next + 1) && s'.chunks.Keys == s'.creator.Keys
  {
    var name := ChunkName(s.attempts[a].uid, next);
    if name !in s.chunks {
      var s' := PutChunk(c, s, name, p);
      assert s'.creator == s.creator[name := p] && s'.chunks.Keys == s.chunks.Keys + {name};
      assert s'.creator.Keys == s.creator.Keys + {name};
    }
  }

  lemma FilledTwice(m0: map<ChunkName, seq<Json>>, m1: map<ChunkName, seq<Json>>, m2: map<ChunkName, seq<Json>>,
      uid: nat, p: seq<Json>, lo: nat, mid: nat, hi: nat)
    requires lo <= mid <= hi && Filled(m0, m1, uid, p, lo, mid) && Filled(m1, m2, uid, p, mid, hi)
    ensures Filled(m0, m2, uid, p, lo, hi)
  {
  }

  ghost predicate Wrote(s: Store, s': Store, a: nat, p: seq<Json>, lo: nat, hi: nat)
    requires a < |s.attempts|
  {
    && s'.cp == s.cp && s'.attempts == s.attempts[a := s.attempts[a].(stage := Writing(hi))]
    && Filled(s.creator, s'.creator, s.attempts[a].uid, p, lo, hi)
  }

  lemma {:induction false} Writes(c: Codec, s: Store, a: nat, p: seq<Json>, next: nat)
    requires WellFormed(s) && a < |s.attempts| && s.attempts[a].stage == Writing(next) && s.attempts[a].payload == Some(p)
    requires next <= |Groups(c, p)| && s.chunks.Keys == s.creator.Keys
    ensures Wrote(s, Run(c, s, Moves(a, |Groups(c, p)| - next)), a, p, next, |Groups(c, p)|)
    decreases |Groups(c, p)| - next
  {
    var n := |Groups(c, p)|;
    if next < n {
      OneMove(c, s, a, n - next);
      FilledOnce(c, s, a, p, next);
      var s1 := Step(c, s, Move(a));
      assert s1 == WriteNext(c, s, a, next);
      assert s1.attempts[a] == s.attempts[a].(stage := Writing(next + 1));
      Writes(c, s1, a, p, next + 1);
      WroteTwice(s, s1, Run(c, s1, Moves(a, n - next - 1)), a, p, next, n);
    }
  }

  lemma WroteTwice(s: Store, s1: Store, s2: Store, a: nat, p: seq<Json>, lo: nat, hi: nat)
    requires a < |s.attempts| && lo < hi && Wrote(s, s1, a, p, lo, lo + 1) && Wrote(s1, s2, a, p, lo + 1, hi)
    ensures Wrote(s, s2, a, p, lo, hi)
  {
    FilledTwice(s.creator, s1.creator, s2.creator, s.attempts[a].uid, p, lo, lo + 1, hi);
  }

  lemma Closes(c: Codec, s: Store, a: nat, p: seq<Json>)
    requires WellFormed(s) && a < |s.attempts| && s.attempts[a].payload == Some(p)
    requires s.attempts[a].stage == Writing(|Groups(c, p)|)
    requires s.cp.Some? && s.cp.value.uid == s.attempts[a].uid && s.cp.value.version == s.attempts[a].version
    ensures var s' := Run(c, s, Moves(a, 2));
      && Ready(s') && s'.author == Some(p) && s'.cp.value.uid == s.cp.value.uid && s'.creator == s.creator
      && s'.attempts == s.attempts[a := s.attempts[a].(stage := Done(true))]
  {
    OneMove(c, s, a, 2);
    var s1 := Step(c, s, Move(a));
    assert s1 == SetAttempt(s, a, s.attempts[a].(stage := Updating));
    OneMove(c, s1, a, 1);
  }

  function Rest(c: Codec, a: nat, p: seq<Json>): seq<Event> {
    Moves(a, |Groups(c, p)|) + Moves(a, 2)
  }

  /** From its first chunk on, an attempt that is not disturbed completes. */
  lemma Completes(c: Codec, s: Store, a: nat, p: seq<Json>)
    requires WellFormed(s) && s.chunks.Keys == s.creator.Keys && s.cp.Some? && a < |s.attempts|
    requires s.attempts[a] == Attempt(Writing(0), Some(p), s.cp.value.uid, s.cp.value.version)
    ensures var s' := Run(c, s, Rest(c, a, p));
      && Ready(s') && s'.author == Some(p) && s'.cp.value.uid == s.cp.value.uid
      && Filled(s.creator, s'.creator, s.cp.value.uid, p, 0, |Groups(c, p)|)
      && s'.attempts == s.attempts[a := s.attempts[a].(stage := Done(true))]
  {
    Writes(c, s, a, p, 0);
    Closes(c, Run(c, s, Moves(a, |Groups(c, p)|)), a, p);
    RunSplit(c, s, Moves(a, |Groups(c, p)|), Moves(a, 2));
  }

  function Crashed(c: Codec, p: seq<Json>): seq<Event> {
    [Begin(Some(p))] + Moves(0, 3) + Moves(0, |Groups(c, p)|)
  }

  function Completed(c: Codec, q: seq<Json>): seq<Event> {
    ([Begin(Some(q))] + Moves(1, 3)) + Rest(c, 1, q)
  }

  /** The chunks of checkpoint 0 are exactly those of an upload of `p`. */
  ghost predicate Holds(c: Codec, creator: map<ChunkName, seq<Json>>, p: seq<Json>) {
    && (forall i: nat :: i < |Groups(c, p)| ==> ChunkName(0, i) in creator)
    && (forall n :: n in creator ==> n.uid == 0 && n.index < |Groups(c, p)| && creator[n] == p)
  }

  lemma AfterCrash(c: Codec, p: seq<Json>)
    ensures var s := Run(c, START, Crashed(c, p));
      && Inv(c, s) && Holds(c, s.creator, p) && |s.attempts| == 1
      && s.cp.Some? && !s.cp.value.ready && s.cp.value.uid == 0
  {
    var opening := [Begin(Some(p))] + Moves(0, 3);
    Opens(c, START, p);
    var s1 := Run(c, START, opening);
    assert s1.creator == map[] && s1.attempts == [Attempt(Writing(0), Some(p), 0, 0)];
    Writes(c, s1, 0, p, 0);
    RunSplit(c, START, opening, Moves(0, |Groups(c, p)|));
    RunKeeps(c, START, Crashed(c, p));
  }

  /** An attempt with payload `p` that crashed after its last chunk, then one with `q` that ran to its end:
      the checkpoint is Ready and records `q`, and it can be read exactly when the two uploads have the same
      group wherever both have one. */
  lemma CrashThenOtherPayload(c: Codec, p: seq<Json>, q: seq<Json>)
    requires Lawful(c)
    ensures var s := Run(c, START, Crashed(c, p) + Completed(c, q));
      var r := OrderedRead(c, s.chunks, if s.cp.Some? then s.cp.value.chunks else []);
      && Ready(s) && s.author == Some(q)
      && (r.Ok? <==> AllReadable(q) && forall i: nat :: i < |Groups(c, p)| && i < |Groups(c, q)| ==> Groups(c, p)[i] == Groups(c, q)[i])
  {
    var s1 := Run(c, START, Crashed(c, p));
    AfterCrash(c, p);
    RunSplit(c, START, Crashed(c, p), Completed(c, q));
    var opening := [Begin(Some(q))] + Moves(1, 3);
    RunSplit(c, s1, opening, Rest(c, 1, q));
    Opens(c, s1, q);
    Completes(c, Run(c, s1, opening), 1, q);
    NoMixedCheckpoint(c, Crashed(c, p) + Completed(c, q));
  }

  /** Attempt 0 with `q` stops after its first Get; attempt 1 with `p` runs to its end. */
  function Overtaken(c: Codec, p: seq<Json>, q: seq<Json>): seq<Event> {
    [Begin(Some(q)), Move(0)] + (([Begin(Some(p))] + Moves(1, 3)) + Rest(c, 1, p))
  }

  /** Attempt 0 goes on from its Create. */
  function Resumed(c: Codec, q: seq<Json>): seq<Event> {
    Moves(0, 2) + Rest(c, 0, q)
  }

  lemma Looked(c: Codec, q: seq<Json>)
    ensures Run(c, START, [Begin(Some(q)), Move(0)]) == START.(attempts := [Attempt(Creating, Some(q), 0, 0)])
  {
    var s1 := Step(c, START, Begin(Some(q)));
    assert [Begin(Some(q)), Move(0)][1..] == [Move(0)];
    assert Run(c, s1, [Move(0)]) == Step(c, s1, Move(0));
  }

  lemma WhenOvertaken(c: Codec, p: seq<Json>, q: seq<Json>)
    ensures var s := Run(c, START, Overtaken(c, p, q));
      && Ready(s) && s.author == Some(p) && s.cp.value.uid == 0
      && |s.attempts| == 2 && s.attempts[0] == Attempt(Creating, Some(q), 0, 0)
  {
    var first: seq<Event>, opening := [Begin(Some(q)), Move(0)], [Begin(Some(p))] + Moves(1, 3);
    Looked(c, q);
    var s1 := Run(c, START, first);
    Opens(c, s1, p);
    Completes(c, Run(c, s1, opening), 1, p);
    RunSplit(c, s1, opening, Rest(c, 1, p));
    RunSplit(c, START, first, opening + Rest(c, 1, p));
  }

  /** An attempt that still thinks the checkpoint absent re-reads it as it is. */
  lemma Rereads(c: Codec, s: Store, q: seq<Json>)
    requires WellFormed(s) && s.cp.Some? && s.attempts != [] && s.attempts[0] == Attempt(Creating, Some(q), 0, 0)
    ensures Run(c, s, Moves(0, 2)) == SetAttempt(s, 0, Attempt(Writing(0), Some(q), s.cp.value.uid, s.cp.value.version))
  {
    OneMove(c, s, 0, 2);
    var mid := Step(c, s, Move(0));
    assert mid == SetAttempt(s, 0, Attempt(Regetting, Some(q), 0, 0));
    OneMove(c, mid, 0, 1);
  }

  /** A Ready checkpoint is not immutable: an attempt that looked before it became Ready and re-reads it
      afterwards commits its own payload over it, under the same UID. UploadFinality says exactly when. */
  lemma ReadyIsOverwritten(c: Codec, p: seq<Json>, q: seq<Json>)
    ensures var s1 := Run(c, START, Overtaken(c, p, q)); var s2 := Run(c, START, Overtaken(c, p, q) + Resumed(c, q));
      && Ready(s1) && s1.author == Some(p) && Ready(s2) && s2.author == Some(q) && s1.cp.value.uid == s2.cp.value.uid
  {
    WhenOvertaken(c, p, q);
    RunKeeps(c, START, Overtaken(c, p, q));
    var s1 := Run(c, START, Overtaken(c, p, q));
    Rereads(c, s1, q);
    Completes(c, Run(c, s1, Moves(0, 2)), 0, q);
    RunSplit(c, s1, Moves(0, 2), Rest(c, 0, q));
    RunSplit(c, START, Overtaken(c, p, q), Resumed(c, q));
  }

  /** When all attempts carry one list, what is Ready under a UID is pinned for good. */
  lemma OnePayloadIsPinned(c: Codec, before: seq<Event>, after: seq<Event>, p: seq<Json>)
    requires OnlyPayload(before + after, p)
    ensures var s1 := Run(c, START, before); var s2 := Run(c, START, before + after);
      Ready(s1) && Ready(s2) && s1.cp.value.uid == s2.cp.value.uid ==>
        s1.cp.value.chunks == s2.cp.value.chunks && s1.cp.value.totalObjects == s2.cp.value.totalObjects
  {
    assert forall e :: e in before ==> e in before + after;
    RunKeeps(c, START, before);
    RunKeeps(c, START, before + after);
    RunCarries(c, START, before, p);
    RunCarries(c, START, before + after, p);
  }
}
