/** When a Ready checkpoint stays as it is. An upload tests Ready at its first Get only: the second Get, which
    supplies the version its status update is checked against, does not test it again. */
module UploadFinality {
  import opened OwnerRef
  import opened KeyValue
  import opened ChunkCodec
  import opened UploadProtocol
  import opened UploadRerun

  // ---- versions ------------------------------------------------------------------------------------------

  predicate Carries(t: Attempt) {
    t.stage.Writing? || t.stage.Updating?
  }

  /** The attempt carries the UID and version the checkpoint has now: its update would be accepted. */
  predicate Holder(s: Store, a: nat) {
    a < |s.attempts| && s.cp.Some? && Carries(s.attempts[a])
    && s.attempts[a].uid == s.cp.value.uid && s.attempts[a].version == s.cp.value.version
  }

  /** Every version in use was given out before. */
  ghost predicate Versioned(s: Store) {
    && (s.cp.Some? ==> s.cp.value.version < s.clock && s.cp.value.uid < s.nextUid)
    && forall a :: 0 <= a < |s.attempts| && Carries(s.attempts[a]) ==> s.attempts[a].version < s.clock
  }

  /** The second Get of an attempt that finds the checkpoint Ready: the place of the missing test. */
  ghost predicate RegetsReady(s: Store, e: Event) {
    Ready(s) && e.Move? && e.a < |s.attempts| && s.attempts[e.a].stage == Regetting
  }

  /** A move changes one attempt and not its payload. An attempt that carries a version afterwards carried it
      before, or has just got it. */
  lemma MoveGetsVersion(c: Codec, s: Store, a: nat)
    requires WellFormed(s) && a < |s.attempts|
    ensures var t, s' := s.attempts[a], MoveAttempt(c, s, a); var t' := s'.attempts[a];
      && s'.attempts == s.attempts[a := t'] && t'.payload == t.payload
      && (Carries(t') ==> s'.cp == s.cp && s'.clock == s.clock)
      && (Carries(t') && Carries(t) ==> t'.uid == t.uid && t'.version == t.version)
      && (Carries(t') && !Carries(t) ==>
            t.stage == Regetting && s.cp.Some? && t'.uid == s.cp.value.uid && t'.version == s.cp.value.version)
      && (t'.stage == Creating ==> t.stage == Looking && !Ready(s))
      && (t'.stage == Regetting ==> t.stage == Creating)
  {
  }

  lemma ClockStep(c: Codec, s: Store, e: Event)
    requires WellFormed(s)
    ensures s.clock <= Step(c, s, e).clock
    ensures var cp := Step(c, s, e).cp; cp == s.cp || (cp.Some? ==> s.clock <= cp.value.version)
  {
  }

  lemma CheckpointVersioned(c: Codec, s: Store, e: Event)
    requires WellFormed(s) && Versioned(s) && Step(c, s, e).cp.Some?
    ensures var cp := Step(c, s, e).cp.value; cp.version < Step(c, s, e).clock && cp.uid < Step(c, s, e).nextUid
  {
  }

  lemma StepVersioned(c: Codec, s: Store, e: Event)
    requires WellFormed(s) && Versioned(s)
    ensures Versioned(Step(c, s, e))
  {
    var s' := Step(c, s, e);
    ClockStep(c, s, e);
    if s'.cp.Some? { CheckpointVersioned(c, s, e); }
    forall a | 0 <= a < |s'.attempts| && Carries(s'.attempts[a]) ensures s'.attempts[a].version < s'.clock {
      if e.Move? && e.a < |s.attempts| { MoveGetsVersion(c, s, e.a); }
      assert a < |s.attempts| && Carries(s.attempts[a]) ==> s.attempts[a].version < s.clock;
    }
  }

  lemma {:induction false} RunVersioned(c: Codec, s: Store, events: seq<Event>)
    requires WellFormed(s) && Versioned(s)
    ensures Versioned(Run(c, s, events))
    decreases |events|
  {
    if events != [] {
      StepVersioned(c, s, events[0]);
      RunVersioned(c, Step(c, s, events[0]), events[1..]);
    }
  }

  ghost function At(c: Codec, events: seq<Event>, k: nat): Store
    requires k <= |events|
  {
    Run(c, START, events[..k])
  }

  lemma AtNext(c: Codec, events: seq<Event>, k: nat)
    requires k < |events|
    ensures At(c, events, k + 1) == Step(c, At(c, events, k), events[k]) && Versioned(At(c, events, k))
  {
    assert events[..k + 1] == events[..k] + [events[k]];
    RunSplit(c, START, events[..k], [events[k]]);
    var s := At(c, events, k);
    assert [events[k]][1..] == [];
    assert Run(c, s, [events[k]]) == Step(c, s, events[k]);
    RunVersioned(c, START, events[..k]);
  }

  // ---- who commits over a Ready status -----------------------------------------------------------------------

  /** The current version is carried only by an attempt that carried it before, or that just got it. */
  lemma HolderStep(c: Codec, s: Store, e: Event, a: nat)
    requires WellFormed(s) && Versioned(s) && Ready(Step(c, s, e)) && Holder(Step(c, s, e), a)
    ensures Step(c, s, e).cp == s.cp
    ensures Holder(s, a) || (e == Move(a) && RegetsReady(s, e))
  {
    ClockStep(c, s, e);
    if e.Move? && e.a < |s.attempts| { MoveGetsVersion(c, s, e.a); }
    assert a < |s.attempts| && Carries(s.attempts[a]) ==> s.attempts[a].version < s.clock;
  }

  /** Attempt `a` re-got the checkpoint at event k while it was Ready, and it has not been written since. */
  ghost predicate RegotAt(c: Codec, events: seq<Event>, a: nat, k: nat) {
    && k < |events| && events[k] == Move(a) && RegetsReady(At(c, events, k), events[k])
    && At(c, events, k).cp == At(c, events, |events|).cp
  }

  lemma {:induction false} HolderRegot(c: Codec, events: seq<Event>, a: nat, n: nat) returns (k: nat)
    requires n <= |events| && Ready(At(c, events, n)) && Holder(At(c, events, n), a)
    ensures k < n && events[k] == Move(a) && RegetsReady(At(c, events, k), events[k])
    ensures At(c, events, k).cp == At(c, events, n).cp
    decreases n
  {
    k := 0;
    if n > 0 {
      AtNext(c, events, n - 1);
      HolderStep(c, At(c, events, n - 1), events[n - 1], a);
      if Holder(At(c, events, n - 1), a) {
        k := HolderRegot(c, events, a, n - 1);
      } else {
        k := n - 1;
      }
    }
  }

  /** An attempt past its second Get keeps what it read there until it ends. */
  ghost predicate Bound(s: Store, a: nat, uid: nat, version: nat) {
    a < |s.attempts| && (s.attempts[a].stage.Done? || (Carries(s.attempts[a]) && s.attempts[a].uid == uid && s.attempts[a].version == version))
  }

  lemma BoundStep(c: Codec, s: Store, e: Event, a: nat, uid: nat, version: nat)
    requires WellFormed(s) && Bound(s, a, uid, version)
    ensures Bound(Step(c, s, e), a, uid, version)
  {
  }

  lemma {:induction false} BoundSince(c: Codec, events: seq<Event>, a: nat, k: nat, n: nat)
    requires k < n <= |events| && events[k] == Move(a) && RegetsReady(At(c, events, k), events[k])
    ensures var cp := At(c, events, k).cp.value; Bound(At(c, events, n), a, cp.uid, cp.version)
    decreases n
  {
    var cp := At(c, events, k).cp.value;
    AtNext(c, events, n - 1);
    if k < n - 1 {
      BoundSince(c, events, a, k, n - 1);
      BoundStep(c, At(c, events, n - 1), events[n - 1], a, cp.uid, cp.version);
    }
  }

  /** The status update of any attempt in any run, on a checkpoint that is Ready: it is accepted exactly when
      the attempt's second Get saw that very Ready version, and then the attempt's payload replaces the status
      under the same UID; otherwise nothing changes. */
  lemma CommitsOverExactly(c: Codec, events: seq<Event>, a: nat)
    requires Ready(Run(c, START, events)) && a < |Run(c, START, events).attempts|
    requires Run(c, START, events).attempts[a].stage == Updating
    ensures var s := Run(c, START, events); var s' := Step(c, s, Move(a)); var p := s.attempts[a].payload;
      && (s'.attempts[a].stage == Done(true) <==> exists k: nat :: RegotAt(c, events, a, k))
      && (s'.attempts[a].stage == Done(true) ==>
            && Ready(s') && p.Some? && s'.author == p
            && s'.cp.value.uid == s.cp.value.uid && s'.cp.value.chunks == Infos(c, s.cp.value.uid, p.value))
      && (s'.attempts[a].stage != Done(true) ==> s'.cp == s.cp && s'.author == s.author)
  {
    var n := |events|;
    assert events[..n] == events;
    var s := At(c, events, n);
    if Holder(s, a) {
      var k := HolderRegot(c, events, a, n);
      assert RegotAt(c, events, a, k);
    }
    if k: nat :| RegotAt(c, events, a, k) {
      BoundSince(c, events, a, k, n);
    }
  }

  // ---- runs in which nobody re-gets ------------------------------------------------------------------------------

  ghost predicate NeverRegotten(c: Codec, events: seq<Event>) {
    forall k :: 0 <= k < |events| ==> !RegetsReady(At(c, events, k), events[k])
  }

  /** Two stores hold one Ready status. */
  ghost predicate SameStatus(s: Store, s': Store) {
    && Ready(s) && Ready(s') && s'.author == s.author && s'.cp.value.uid == s.cp.value.uid
    && s'.cp.value.chunks == s.cp.value.chunks
    && s'.cp.value.totalObjects == s.cp.value.totalObjects && s'.cp.value.totalSize == s.cp.value.totalSize
  }

  /** A step of a store in which nobody holds the current version cannot touch the status. */
  lemma UnheldStep(c: Codec, s: Store, e: Event)
    requires WellFormed(s) && Versioned(s) && Ready(s) && forall a: nat :: !Holder(s, a)
    ensures var s' := Step(c, s, e); s'.cp.Some? && s'.cp.value.uid == s.cp.value.uid ==> SameStatus(s, s')
  {
    if e.Move? && e.a < |s.attempts| { assert !Holder(s, e.a); }
  }

  /** A checkpoint that was deleted does not come back under its UID. */
  lemma UidStays(c: Codec, s: Store, e: Event, uid: nat)
    requires WellFormed(s) && uid < s.nextUid && Step(c, s, e).cp.Some? && Step(c, s, e).cp.value.uid == uid
    ensures s.cp.Some? && s.cp.value.uid == uid
  {
  }

  lemma UidStep(c: Codec, s: Store, e: Event)
    requires WellFormed(s)
    ensures s.nextUid <= Step(c, s, e).nextUid
  {
  }

  /** Whatever the payloads and the interleaving: as long as no attempt re-gets a Ready checkpoint, a Ready
      status is never replaced under its UID. */
  lemma {:induction false} NeverRegottenIsFinal(c: Codec, events: seq<Event>, i: nat, j: nat)
    requires NeverRegotten(c, events) && i <= j <= |events| && Ready(At(c, events, i))
    ensures At(c, events, i).cp.value.uid < At(c, events, j).nextUid
    ensures At(c, events, j).cp.Some? && At(c, events, j).cp.value.uid == At(c, events, i).cp.value.uid ==>
              SameStatus(At(c, events, i), At(c, events, j))
    decreases j - i
  {
    RunVersioned(c, START, events[..i]);
    if i < j {
      var uid, s := At(c, events, i).cp.value.uid, At(c, events, j - 1);
      NeverRegottenIsFinal(c, events, i, j - 1);
      AtNext(c, events, j - 1);
      UidStep(c, s, events[j - 1]);
      if At(c, events, j).cp.Some? && At(c, events, j).cp.value.uid == uid {
        UidStays(c, s, events[j - 1], uid);
        forall a: nat ensures !Holder(s, a) {
          if Holder(s, a) {
            var k := HolderRegot(c, events, a, j - 1);
          }
        }
        UnheldStep(c, s, events[j - 1]);
      }
    }
  }

  // ---- which Ready states can still be replaced ---------------------------------------------------------------------

  /** The attempt found no Ready checkpoint at its first Get and has its update still ahead. */
  predicate MayReplace(s: Store, a: nat) {
    a < |s.attempts| && (s.attempts[a].stage == Creating || s.attempts[a].stage == Regetting || Holder(s, a))
  }

  ghost predicate Replaced(c: Codec, s: Store, after: seq<Event>)
    requires WellFormed(s) && Ready(s)
  {
    var s' := Run(c, s, after);
    s'.cp.Some? && s'.cp.value.uid == s.cp.value.uid && s'.author != s.author
  }

  /** Only attempts with the recorded payload can still write this checkpoint. */
  ghost predicate Settled(s: Store, uid: nat, author: Option<seq<Json>>) {
    && WellFormed(s) && Versioned(s) && uid < s.nextUid
    && (s.cp.Some? && s.cp.value.uid == uid ==>
          Ready(s) && s.author == author && forall a: nat :: MayReplace(s, a) ==> s.attempts[a].payload == author)
  }

  lemma MayReplaceStep(c: Codec, s: Store, e: Event, a: nat)
    requires WellFormed(s) && Versioned(s) && Ready(s) && Ready(Step(c, s, e)) && MayReplace(Step(c, s, e), a)
    ensures MayReplace(s, a) && Step(c, s, e).attempts[a].payload == s.attempts[a].payload
  {
    if Holder(Step(c, s, e), a) { HolderStep(c, s, e, a); }
    if e.Move? && e.a < |s.attempts| { MoveGetsVersion(c, s, e.a); }
  }

  /** A step leaves the author, or is the update of an attempt that may replace it. */
  lemma AuthorStep(c: Codec, s: Store, e: Event)
    requires WellFormed(s) && Ready(s) && Step(c, s, e).cp.Some? && Step(c, s, e).cp.value.uid == s.cp.value.uid
    ensures Ready(Step(c, s, e))
    ensures Step(c, s, e).author == s.author || (e.Move? && MayReplace(s, e.a) && Step(c, s, e).author == s.attempts[e.a].payload)
  {
  }

  lemma SettledStep(c: Codec, s: Store, e: Event, uid: nat, author: Option<seq<Json>>)
    requires Settled(s, uid, author)
    ensures Settled(Step(c, s, e), uid, author)
  {
    var s' := Step(c, s, e);
    StepVersioned(c, s, e);
    UidStep(c, s, e);
    if s'.cp.Some? && s'.cp.value.uid == uid {
      UidStays(c, s, e, uid);
      AuthorStep(c, s, e);
      forall a: nat | MayReplace(s', a) ensures s'.attempts[a].payload == author {
        MayReplaceStep(c, s, e, a);
      }
    }
  }

  lemma {:induction false} SettledRun(c: Codec, s: Store, after: seq<Event>, uid: nat, author: Option<seq<Json>>)
    requires Settled(s, uid, author)
    ensures Settled(Run(c, s, after), uid, author)
    decreases |after|
  {
    if after != [] {
      SettledStep(c, s, after[0], uid, author);
      SettledRun(c, Step(c, s, after[0]), after[1..], uid, author);
    }
  }

  /** From Create or the second Get on, an undisturbed attempt reaches its first chunk holding the version. */
  lemma ReachesFirstChunk(c: Codec, s: Store, a: nat) returns (events: seq<Event>)
    requires WellFormed(s) && s.cp.Some? && a < |s.attempts| && (s.attempts[a].stage == Creating || s.attempts[a].stage == Regetting)
    ensures Run(c, s, events) == SetAttempt(s, a, s.attempts[a].(stage := Writing(0), uid := s.cp.value.uid, version := s.cp.value.version))
  {
    var t := s.attempts[a];
    if t.stage == Creating {
      events := Moves(a, 2);
      OneMove(c, s, a, 2);
      var mid := Step(c, s, Move(a));
      assert mid == SetAttempt(s, a, t.(stage := Regetting));
      OneMove(c, mid, a, 1);
      assert Step(c, mid, Move(a)).attempts == s.attempts[a := t.(stage := Writing(0), uid := s.cp.value.uid, version := s.cp.value.version)];
    } else {
      events := Moves(a, 1);
      OneMove(c, s, a, 1);
    }
  }

  /** A holder that is not disturbed commits. */
  lemma HolderCommits(c: Codec, s: Store, a: nat) returns (events: seq<Event>)
    requires Inv(c, s) && Holder(s, a)
    ensures var s' := Run(c, s, events);
      Ready(s') && s'.author == s.attempts[a].payload && s'.cp.value.uid == s.cp.value.uid
  {
    var t := s.attempts[a];
    assert AttemptOk(c, s, t);
    var p := t.payload.value;
    if t.stage == Updating {
      events := [Move(a)];
      assert [Move(a)][1..] == [];
      assert Run(c, s, [Move(a)]) == Step(c, s, Move(a));
    } else {
      var next := t.stage.next;
      Writes(c, s, a, p, next);
      var s1 := Run(c, s, Moves(a, |Groups(c, p)| - next));
      Closes(c, s1, a, p);
      events := Moves(a, |Groups(c, p)| - next) + Moves(a, 2);
      RunSplit(c, s, Moves(a, |Groups(c, p)| - next), Moves(a, 2));
    }
  }

  lemma ReplacerReplaces(c: Codec, s: Store, a: nat) returns (events: seq<Event>)
    requires Inv(c, s) && Ready(s) && MayReplace(s, a)
    ensures var s' := Run(c, s, events);
      Ready(s') && s'.author == s.attempts[a].payload && s'.cp.value.uid == s.cp.value.uid
  {
    if Holder(s, a) {
      events := HolderCommits(c, s, a);
    } else {
      var first := ReachesFirstChunk(c, s, a);
      RunKeeps(c, s, first);
      var s1 := Run(c, s, first);
      var rest := HolderCommits(c, s1, a);
      events := first + rest;
      RunSplit(c, s, first, rest);
    }
  }

  /** An attempt that may still replace the payload of a Ready checkpoint by another one. */
  ghost predicate OtherReplacer(s: Store, a: nat) {
    MayReplace(s, a) && s.attempts[a].payload != s.author
  }

  lemma NoReplacerSettles(c: Codec, s: Store, after: seq<Event>)
    requires Inv(c, s) && Versioned(s) && Ready(s) && forall a: nat :: !OtherReplacer(s, a)
    ensures !Replaced(c, s, after)
  {
    forall a: nat | MayReplace(s, a) ensures s.attempts[a].payload == s.author {
      assert !OtherReplacer(s, a);
    }
    SettledRun(c, s, after, s.cp.value.uid, s.author);
  }

  /** A Ready state of any run can still have its payload replaced under its UID exactly when some attempt
      with another payload is between its first Get and its update - before its second Get, or holding the
      current version. Attempts that begin later never can. */
  lemma ReplaceableExactly(c: Codec, before: seq<Event>)
    requires Ready(Run(c, START, before))
    ensures var s := Run(c, START, before);
      (exists after :: Replaced(c, s, after)) <==> (exists a: nat :: OtherReplacer(s, a))
  {
    var s := Run(c, START, before);
    RunKeeps(c, START, before);
    RunVersioned(c, START, before);
    if exists a: nat :: OtherReplacer(s, a) {
      var a: nat :| OtherReplacer(s, a);
      var after := ReplacerReplaces(c, s, a);
      assert Replaced(c, s, after);
    } else {
      forall after ensures !Replaced(c, s, after) {
        NoReplacerSettles(c, s, after);
      }
    }
  }

  /** What is Ready stays what it is, for every continuation, as soon as the attempts that may still write
      carry the recorded payload. */
  lemma ReadyIsPinned(c: Codec, before: seq<Event>, after: seq<Event>)
    requires Ready(Run(c, START, before))
    requires forall a: nat :: !OtherReplacer(Run(c, START, before), a)
    ensures var s1 := Run(c, START, before); var s2 := Run(c, START, before + after);
      s2.cp.Some? && s2.cp.value.uid == s1.cp.value.uid ==> SameStatus(s1, s2)
  {
    var s1 := Run(c, START, before);
    RunVersioned(c, START, before);
    RunKeeps(c, START, before);
    NoReplacerSettles(c, s1, after);
    RunSplit(c, START, before, after);
    RunKeeps(c, START, before + after);
  }
}
