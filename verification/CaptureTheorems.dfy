/** The guarantees of the capture protocol over whole runs. */
module CaptureTheorems {
  import opened Ordering
  import opened Refs
  import opened OwnerRef
  import opened CapturePhase
  import opened CaptureProtocol
  import opened CaptureInvariant
  import RequestCleanup

  lemma ReachedInv(w0: World, events: seq<Event>)
    requires Initial(w0)
    ensures Inv(Run(w0, events))
  {
    InitialInv(w0);
    RunKeepsInv(w0, events);
  }

  // ---- phases, membership, barriers -----------------------------------------------------------------

  /** Once a stored phase is Planned, Finished or Failed, no later version changes the published children
      or exclusions, whatever stale or racing calls did in between. */
  lemma MembershipFreezes(w0: World, events: seq<Event>, i: nat, j: nat)
    requires Initial(w0) && i <= j < |Run(w0, events).hist|
    requires Run(w0, events).hist[i].phase in {Planned, Finished, Failed}
    ensures Run(w0, events).hist[j].children == Run(w0, events).hist[i].children
    ensures Run(w0, events).hist[j].excluded == Run(w0, events).hist[i].excluded
    ensures Run(w0, events).hist[j].phase in {Planned, Finished, Failed}
  {
    ReachedInv(w0, events);
    var h := Run(w0, events).hist;
    assert Follows(h[i], h[j]);
    AdvanceExactly(h[i].phase, h[j].phase);
    AdvanceExactly(h[j].phase, h[j].phase);
  }

  /** Stored phases go from Planning over Planned to Finished or to Failed, never back, Failed is final, and the
      core's latch never drops. */
  lemma PhasesAdvance(w0: World, events: seq<Event>, i: nat, j: nat)
    requires Initial(w0) && i <= j < |Run(w0, events).hist|
    ensures var h := Run(w0, events).hist;
      && CanAdvance(h[i].phase, h[j].phase)
      && (h[i].phase == Failed ==> h[j].phase == Failed)
      && (h[i].phase == Finished ==> h[j].phase in {Finished, Failed})
      && (h[i].phase == Planned ==> h[j].phase in {Planned, Finished, Failed})
      && (h[i].phase == Planning ==> h[j].phase in {Planning, Planned, Finished, Failed})
      && (h[i].captured == Some(true) ==> h[j].captured == Some(true))
  {
    ReachedInv(w0, events);
    AdvanceExactly(Run(w0, events).hist[i].phase, Run(w0, events).hist[j].phase);
    assert Follows(Run(w0, events).hist[i], Run(w0, events).hist[j]);
  }

  /** A version that enters Planned or Finished carries no reason and no message, although Apply chose
      them from a copy that may be many versions old. */
  lemma BarriersEnterClear(w0: World, events: seq<Event>, i: nat)
    requires Initial(w0) && i + 1 < |Run(w0, events).hist|
    requires Run(w0, events).hist[i].phase != Run(w0, events).hist[i + 1].phase
    requires IsBarrier(Run(w0, events).hist[i + 1].phase)
    ensures Run(w0, events).hist[i + 1].reason == "" && Run(w0, events).hist[i + 1].message == ""
  {
    ReachedInv(w0, events);
    assert BarrierClear(Run(w0, events).hist[i], Run(w0, events).hist[i + 1]);
  }

  /** The early return of setPhase, decided on version i, never suppresses an advance that is still legal
      at a later version j: neither when the target is out of reach, nor when a named target looks
      already reached. */
  lemma EarlyExitIsSound(w0: World, events: seq<Event>, i: nat, j: nat, target: Phase)
    requires Initial(w0) && i <= j < |Run(w0, events).hist|
    ensures var h := Run(w0, events).hist;
      && (!CanAdvance(h[i].phase, target) ==> !CanAdvance(h[j].phase, target))
      && (h[i].phase == target && !target.Other? && CanAdvance(h[j].phase, target) ==> h[j].phase == target)
  {
    ReachedInv(w0, events);
    var h := Run(w0, events).hist;
    assert Follows(h[i], h[j]);
    AdvanceIsPreorder(h[i].phase, h[j].phase, target);
  }

  // ---- publication of children ------------------------------------------------------------------------

  /** The stored refs are always strictly ordered and are exactly the union of what committed calls
      desired; every one of them names a child some call had created or adopted, and refs only grow. */
  lemma PublicationIsAdditive(w0: World, events: seq<Event>, i: nat, j: nat)
    requires Initial(w0) && i <= j < |Run(w0, events).hist|
    ensures var w := Run(w0, events);
      && Canonical(w.hist[j].children) && Canonical(w.hist[j].excluded)
      && Elems(w.hist[i].children) <= Elems(w.hist[j].children)
      && Elems(Current(w).children) == Elems(w.declared)
      && Elems(w.hist[j].children) <= w.ensured
  {
    ReachedInv(w0, events);
    var w := Run(w0, events);
    assert Follows(w.hist[i], w.hist[j]) && Follows(w.hist[j], Current(w));
    assert StoredOk(w.hist[j], w.requestName);
    CanonSpec(w.declared);
  }

  lemma SameExcludedExactly(a: seq<Ref>, b: seq<Ref>)
    requires Canonical(a)
    ensures SameExcluded(a, Canon(b)) <==> Elems(a) == Elems(b)
  {
    CanonSpec(b);
    if Elems(a) == Elems(b) {
      NoDupMultiset(a);
      NoDupMultiset(Canon(b));
      forall x ensures x in a <==> x in Canon(b) {
        assert x in Elems(a) <==> x in Elems(Canon(b));
      }
      assert multiset(a) == multiset(Canon(b));
      assert |multiset(a)| == |a| && |multiset(Canon(b))| == |Canon(b)|;
    }
  }

  /** The freeze pre-check rejects a call exactly when the node is frozen and the call would add a child or
      change the set of exclusions - so an idempotent re-publication never is - and a rejected call has
      written nothing: no child object, no version. */
  lemma FreezeRejectsExactly(w0: World, events: seq<Event>, c: nat)
    requires Initial(w0) && c < |Run(w0, events).calls|
    requires Run(w0, events).calls[c].stage == Refreshing && Run(w0, events).calls[c].task.Children?
    ensures var w := Run(w0, events); var task := w.calls[c].task; var cur := Current(w);
      var w' := Step(w, Advance(c));
      && (w'.calls[c].stage == Done(ErrFrozen) <==>
            Frozen(cur.phase) && (!(Elems(SpecRefs(task.desired)) <= Elems(cur.children)) || Elems(cur.excluded) != Elems(task.excluded)))
      && w'.hist == w.hist && w'.objects == w.objects && w'.ensured == w.ensured
  {
    ReachedInv(w0, events);
    var w := Run(w0, events);
    var cur := Current(w);
    assert StoredOk(cur, w.requestName);
    GrowsExactly(cur.children, SpecRefs(w.calls[c].task.desired));
    SameExcludedExactly(cur.excluded, w.calls[c].task.excluded);
  }

  /** The publication closure on any canonical version. */
  lemma ClosureExactly(s: Snapshot, refs: seq<Ref>, excluded: seq<Ref>)
    requires Canonical(s.children) && Canonical(s.excluded)
    ensures var next := PublishChildren(s, Sort(RefLe, refs), excluded);
      && (next.Some? <==> !Frozen(s.phase) && (!(Elems(refs) <= Elems(s.children)) || Elems(s.excluded) != Elems(excluded)))
      && (next.Some? ==> Elems(next.value.children) == Elems(s.children) + Elems(refs) && Elems(next.value.excluded) == Elems(excluded))
  {
    RefOrder();
    SortSpec(RefLe, refs);
    GrowsExactly(s.children, Sort(RefLe, refs));
    SameExcludedExactly(s.excluded, excluded);
    CanonSpec(s.children + Sort(RefLe, refs));
    ElemsConcat(s.children, Sort(RefLe, refs));
    CanonSpec(excluded);
  }

  /** A patch attempt of a children call changes the stored version exactly when its copy is current, the
      copy's phase is not frozen, and it adds a child or changes the exclusions; the new version then
      publishes the union and the call's exclusions. In particular the closure silently drops the write
      of a call that lost the race with the freeze. */
  lemma PublicationCommitsExactly(w0: World, events: seq<Event>, c: nat)
    requires Initial(w0) && c < |Run(w0, events).calls|
    requires Run(w0, events).calls[c].stage.Patching? && Run(w0, events).calls[c].task.Children?
    ensures var w := Run(w0, events); var call := w.calls[c]; var task := call.task; var cur := Current(w);
      var w' := Step(w, Advance(c));
      && (w'.hist != w.hist <==>
            && call.base == |w.hist| - 1 && !Frozen(cur.phase)
            && (!(Elems(SpecRefs(task.desired)) <= Elems(cur.children)) || Elems(cur.excluded) != Elems(task.excluded)))
      && (w'.hist != w.hist ==>
            && Elems(Current(w').children) == Elems(cur.children) + Elems(SpecRefs(task.desired))
            && Elems(Current(w').excluded) == Elems(task.excluded))
  {
    ReachedInv(w0, events);
    var w := Run(w0, events);
    var call, cur := w.calls[c], Current(w);
    assert StoredOk(cur, w.requestName);
    ClosureExactly(cur, SpecRefs(call.task.desired), call.task.excluded);
    PatchHistory(w, c);
  }

  /** What a patch attempt does to the stored versions. */
  lemma PatchHistory(w: World, c: nat)
    requires WellFormed(w) && c < |w.calls| && w.calls[c].stage.Patching?
    ensures var call := w.calls[c]; var next := Mutate(w.requestName, call.task, w.hist[call.base]);
      var w' := Step(w, Advance(c));
      if call.base == |w.hist| - 1 && next.Some?
      then w'.hist == w.hist + [next.value] && w'.hist != w.hist && Current(w') == next.value
      else w'.hist == w.hist
  {
    assert Step(w, Advance(c)) == Patch(w, c, w.calls[c].stage.tries);
    PatchStores(w, c, w.calls[c].stage.tries);
  }

  lemma PatchStores(w: World, c: nat, tries: nat)
    requires w.hist != [] && c < |w.calls| && w.calls[c].base < |w.hist|
    ensures var call := w.calls[c]; var next := Mutate(w.requestName, call.task, w.hist[call.base]);
      if call.base == |w.hist| - 1 && next.Some?
      then Patch(w, c, tries).hist == w.hist + [next.value] && |Patch(w, c, tries).hist| == |w.hist| + 1
      else Patch(w, c, tries).hist == w.hist
  {
  }

  // ---- no theft ------------------------------------------------------------------------------------------------

  /** No step of a call touches an object that another parent holds. */
  lemma AdvanceStealsNothing(w: World, c: nat, r: Ref)
    requires WellFormed(w) && r in w.objects && HasTheft(w.objects[r], w.me)
    ensures var w' := Step(w, Advance(c)); r in w'.objects && w'.objects[r] == w.objects[r]
  {
    if c < |w.calls| && w.calls[c].stage.Ensuring? && w.calls[c].stage.next < |w.calls[c].task.desired| {
      AdoptsExactly(OwnersOf(w.objects, w.calls[c].task.desired[w.calls[c].stage.next]), w.me);
    }
  }

  lemma StepStealsNothing(w: World, e: Event, r: Ref)
    requires WellFormed(w) && r in w.objects && HasTheft(w.objects[r], w.me) && !(e.ForeignChild? && e.ref == r)
    ensures var w' := Step(w, e); r in w'.objects && w'.objects[r] == w.objects[r] && w'.me == w.me
  {
    StepWellFormed(w, e);
    if e.Advance? { AdvanceStealsNothing(w, e.c, r); }
  }

  /** In every run, whatever the calls in flight desire: an object that another parent holds keeps its
      references until somebody outside the protocol rewrites them. */
  lemma {:induction false} NothingIsStolen(w: World, events: seq<Event>, r: Ref)
    requires WellFormed(w) && r in w.objects && HasTheft(w.objects[r], w.me)
    requires forall e :: e in events ==> !(e.ForeignChild? && e.ref == r)
    ensures r in Run(w, events).objects && Run(w, events).objects[r] == w.objects[r]
    decreases |events|
  {
    if events != [] {
      StepStealsNothing(w, events[0], r);
      StepWellFormed(w, events[0]);
      NothingIsStolen(Step(w, events[0]), events[1..], r);
    }
  }

  // ---- the core's latch ----------------------------------------------------------------------------------------

  /** The node is latched by one step only, and exactly when it stands at barrier 1 or 2, its request name is
      published, and the manifest has been handed over durably. */
  lemma LatchedExactly(w: World, e: Event)
    requires WellFormed(w) && Current(w).captured != Some(true)
    ensures var cur := Current(w); var request := if w.request.Some? then Some(w.request.value.checkpointName) else None;
      Grown(w, Step(w, e)) &&
      (Current(Step(w, e)).captured == Some(true) <==>
        e == CoreLatch && cur.phase in {Planned, Finished} && cur.requestName != "" && RequestCleanup.HandedOver(request, w.handoff))
  {
    StepWellFormed(w, e);
    RequestCleanup.SafeExactly(if w.request.Some? then Some(w.request.value.checkpointName) else None, w.handoff);
    if e.Advance? && e.c < |w.calls| { AdvanceLatchesNothing(w, e.c); }
  }

  lemma AdvanceLatchesNothing(w: World, c: nat)
    requires WellFormed(w) && c < |w.calls|
    ensures Grown(w, AdvanceCall(w, c)) && Current(AdvanceCall(w, c)).captured == Current(w).captured
  {
    AdvanceWellFormed(w, c);
    if w.calls[c].stage.Patching? { PatchStores(w, c, w.calls[c].stage.tries); }
  }

  /** A request goes away by its time-to-live, or by the core on a latched node. */
  lemma RequestGoesExactly(w: World, e: Event)
    requires WellFormed(w) && w.request.Some?
    ensures Step(w, e).request == None <==> e == Expire || (e == CoreReap && Current(w).captured == Some(true))
  {
  }

  // ---- the capture request -----------------------------------------------------------------------------

  /** Runs in which no request is removed by its time-to-live, only by the core after the latch. */
  ghost predicate NoExpiry(events: seq<Event>) {
    forall e :: e in events ==> !e.Expire?
  }

  ghost predicate LatchInv(w: World) {
    && Inv(w)
    && (w.reaps > 0 ==> Captured(Current(w)))
    && forall c :: 0 <= c < |w.calls| && w.calls[c].stage == Creating ==>
         w.calls[c].reapsSeen == 0 && !Captured(w.hist[w.calls[c].base])
  }

  lemma StepKeepsLatchInv(w: World, e: Event)
    requires LatchInv(w) && !e.Expire?
    ensures LatchInv(Step(w, e))
  {
    StepKeepsInv(w, e);
    StepWellFormed(w, e);
    StepReapsLatched(w, e);
    var w' := Step(w, e);
    forall c | 0 <= c < |w'.calls| && w'.calls[c].stage == Creating
      ensures w'.calls[c].reapsSeen == 0 && !Captured(w'.hist[w'.calls[c].base])
    {
      if c < |w.calls| && w'.calls[c] == w.calls[c] {
        assert w'.hist[w.calls[c].base] == w.hist[w.calls[c].base];
      } else {
        NewCreating(w, e, c);
      }
    }
  }

  lemma StepReapsLatched(w: World, e: Event)
    requires Inv(w) && Inv(Step(w, e)) && w.hist <= Step(w, e).hist && !e.Expire?
    requires w.reaps > 0 ==> Captured(Current(w))
    ensures Step(w, e).reaps > 0 ==> Captured(Current(Step(w, e)))
  {
    var w' := Step(w, e);
    assert w'.hist[|w.hist| - 1] == Current(w);
    assert Follows(w'.hist[|w.hist| - 1], Current(w'));
  }

  /** Only the authoritative refresh leads to a Create. */
  lemma NewCreating(w: World, e: Event, c: nat)
    requires Inv(w) && c < |Step(w, e).calls| && Step(w, e).calls[c].stage == Creating
    requires c < |w.calls| ==> Step(w, e).calls[c] != w.calls[c]
    ensures e == Advance(c) && c < |w.calls| && !Captured(Current(w))
    ensures Step(w, e).calls[c].reapsSeen == w.reaps && Step(w, e).calls[c].base == |w.hist| - 1
    ensures Step(w, e).hist == w.hist
  {
    match e
    case Advance(a) => if a < |w.calls| { AdvanceWellFormed(w, a); AdvanceCalls(w, a); NewCreatingCall(w, a, c); }
    case ProbeCache(a, cached) => if Step(w, e) != w { ProbeMovesElsewhere(w, a, cached); }
    case _ =>
  }

  lemma AdvanceCalls(w: World, a: nat)
    requires WellFormed(w) && a < |w.calls|
    ensures |AdvanceCall(w, a).calls| == |w.calls|
  {
  }

  lemma ProbeMovesElsewhere(w: World, a: nat, cached: Option<nat>)
    requires WellFormed(w) && a < |w.calls| && w.calls[a].stage == Probing
    requires cached.Some? ==> cached.value < |w.created|
    ensures MovedElsewhere(w, Probe(w, a, cached), a)
  {
    if cached.Some? {
      assert !Settled(w.calls[a].(existed := Some(w.created[cached.value]))).Creating?;
    }
  }

  /** Call `a` alone moved, and not to the Create. */
  ghost predicate MovedElsewhere(w: World, w': World, a: nat) {
    && a < |w.calls| == |w'.calls| && w'.calls[a].stage != Creating
    && forall k :: 0 <= k < |w.calls| && k != a ==> w'.calls[k] == w.calls[k]
  }

  lemma PatchMovesElsewhere(w: World, a: nat, tries: nat)
    requires WellFormed(w) && a < |w.calls|
    ensures MovedElsewhere(w, Patch(w, a, tries), a)
  {
    var call := w.calls[a];
    assert !Settled(call).Creating?;
  }

  lemma CreateMovesElsewhere(w: World, a: nat)
    requires WellFormed(w) && a < |w.calls| && w.calls[a].stage == Creating
    ensures MovedElsewhere(w, Create(w, a), a)
  {
    assert !Settled(w.calls[a]).Creating?;
  }

  lemma NewCreatingCall(w: World, a: nat, c: nat)
    requires WellFormed(w) && a < |w.calls| && c < |w.calls| == |AdvanceCall(w, a).calls|
    requires AdvanceCall(w, a).calls[c].stage == Creating && AdvanceCall(w, a).calls[c] != w.calls[c]
    ensures a == c && w.calls[a].stage == Refreshing && !Captured(Current(w))
    ensures AdvanceCall(w, a) == Refresh(w, c)
  {
    match w.calls[a].stage
    case Creating => CreateMovesElsewhere(w, a);
    case Patching(tries) => PatchMovesElsewhere(w, a, tries);
    case _ =>
  }

  lemma {:induction false} RunKeepsLatchInv(w: World, events: seq<Event>)
    requires LatchInv(w) && NoExpiry(events)
    ensures LatchInv(Run(w, events))
    decreases |events|
  {
    if events != [] {
      StepWellFormed(w, events[0]);
      StepKeepsLatchInv(w, events[0]);
      RunKeepsLatchInv(Step(w, events[0]), events[1..]);
    }
  }

  /** The refresh and the Create of EnsureManifestCapture are two requests. A Create that finds the request
      absent makes a second one exactly when the core has latched the node in between: the latch check
      would have failed had it been made at the Create. */
  lemma RecreationExactly(w0: World, events: seq<Event>, c: nat)
    requires Initial(w0) && NoExpiry(events) && c < |Run(w0, events).calls|
    requires Run(w0, events).calls[c].stage == Creating && Run(w0, events).request == None
    ensures var w := Run(w0, events); var w' := Step(w, Advance(c));
      && w'.created == w.created + [CanonTargets(w.calls[c].task.targets)]
      && (w.created != [] <==> Captured(Current(w)))
      && (w.created != [] <==> w.reaps > w.calls[c].reapsSeen)
  {
    InitialInv(w0);
    RunKeepsLatchInv(w0, events);
  }

  /** Every Create follows its refresh with no version stored in between. */
  ghost predicate CreatesAreAtomic(w: World, events: seq<Event>)
    requires WellFormed(w)
    decreases |events|
  {
    events == [] || (
      && (events[0].Advance? && events[0].c < |w.calls| && w.calls[events[0].c].stage == Creating ==>
            w.calls[events[0].c].base == |w.hist| - 1)
      && (StepWellFormed(w, events[0]); CreatesAreAtomic(Step(w, events[0]), events[1..])))
  }

  lemma AtomicStepCreatesOnce(w: World, e: Event)
    requires LatchInv(w) && |w.created| <= 1 && !e.Expire?
    requires e.Advance? && e.c < |w.calls| && w.calls[e.c].stage == Creating ==> w.calls[e.c].base == |w.hist| - 1
    ensures |Step(w, e).created| <= 1
  {
    if e.Advance? && e.c < |w.calls| && w.calls[e.c].stage == Creating {
      assert !Captured(Current(w));
    }
  }

  lemma {:induction false} AtomicRunCreatesOnce(w: World, events: seq<Event>)
    requires LatchInv(w) && |w.created| <= 1 && NoExpiry(events) && CreatesAreAtomic(w, events)
    ensures |Run(w, events).created| <= 1
    decreases |events|
  {
    if events != [] {
      StepWellFormed(w, events[0]);
      StepKeepsLatchInv(w, events[0]);
      AtomicStepCreatesOnce(w, events[0]);
      AtomicRunCreatesOnce(Step(w, events[0]), events[1..]);
    }
  }

  /** A call about to create has seen an unlatched version, whatever deleted requests before. */
  ghost predicate SawUnlatched(w: World) {
    && Inv(w)
    && forall c :: 0 <= c < |w.calls| && w.calls[c].stage == Creating ==> !Captured(w.hist[w.calls[c].base])
  }

  lemma StepKeepsSawUnlatched(w: World, e: Event)
    requires SawUnlatched(w)
    ensures SawUnlatched(Step(w, e))
  {
    StepKeepsInv(w, e);
    StepWellFormed(w, e);
    var w' := Step(w, e);
    forall c | 0 <= c < |w'.calls| && w'.calls[c].stage == Creating ensures !Captured(w'.hist[w'.calls[c].base]) {
      if c < |w.calls| && w'.calls[c] == w.calls[c] {
        assert w'.hist[w.calls[c].base] == w.hist[w.calls[c].base];
      } else {
        NewCreating(w, e, c);
      }
    }
  }

  lemma {:induction false} RunKeepsSawUnlatched(w: World, events: seq<Event>)
    requires SawUnlatched(w)
    ensures SawUnlatched(Run(w, events))
    decreases |events|
  {
    if events != [] {
      StepKeepsSawUnlatched(w, events[0]);
      StepWellFormed(w, events[0]);
      RunKeepsSawUnlatched(Step(w, events[0]), events[1..]);
    }
  }

  /** Every version is either before or after the latch. */
  lemma LatchStays(w: World, i: nat)
    requires Inv(w) && i < |w.hist| && Captured(w.hist[i])
    ensures forall k :: i <= k < |w.hist| ==> Captured(w.hist[k])
  {
    forall k | i <= k < |w.hist| ensures Captured(w.hist[k]) {
      assert Follows(w.hist[i], w.hist[k]);
    }
  }

  /** In every run, expiry included: a Create makes a request on a latched node exactly when it finds none and
      the latch was stored after the version its refresh saw; up to that version nothing was latched. */
  lemma LateCreateExactly(w0: World, events: seq<Event>, c: nat)
    requires Initial(w0) && c < |Run(w0, events).calls| && Run(w0, events).calls[c].stage == Creating
    ensures var w := Run(w0, events); var call := w.calls[c]; var w' := Step(w, Advance(c));
      && (w'.created != w.created && Captured(Current(w')) <==>
            w.request == None && exists k :: call.base < k < |w.hist| && !Captured(w.hist[k - 1]) && Captured(w.hist[k]))
      && (forall k :: 0 <= k <= call.base ==> !Captured(w.hist[k]))
      && (w'.created != w.created ==> w'.created == w.created + [CanonTargets(call.task.targets)])
      && (w'.created != w.created && w.created != [] ==> w.reaps > 0)
  {
    InitialInv(w0);
    RunKeepsSawUnlatched(w0, events);
    var w := Run(w0, events);
    var base := w.calls[c].base;
    CreateAppends(w, c);
    forall k | 0 <= k <= base ensures !Captured(w.hist[k]) {
      if Captured(w.hist[k]) { LatchStays(w, k); }
    }
    if Captured(Current(w)) {
      var k := FirstLatch(w, base, |w.hist| - 1);
    }
    if k :| base < k < |w.hist| && Captured(w.hist[k]) { LatchStays(w, k); }
  }

  lemma CreateAppends(w: World, c: nat)
    requires WellFormed(w) && c < |w.calls| && w.calls[c].stage == Creating
    ensures Step(w, Advance(c)).created ==
      if w.request == None then w.created + [CanonTargets(w.calls[c].task.targets)] else w.created
    ensures Step(w, Advance(c)).created != w.created <==> w.request == None
    ensures Step(w, Advance(c)).hist == w.hist
  {
    assert Step(w, Advance(c)) == Create(w, c);
  }

  lemma {:induction false} FirstLatch(w: World, i: nat, j: nat) returns (k: nat)
    requires i < j < |w.hist| && !Captured(w.hist[i]) && Captured(w.hist[j])
    ensures i < k <= j && !Captured(w.hist[k - 1]) && Captured(w.hist[k])
    decreases j
  {
    k := j;
    if Captured(w.hist[j - 1]) { k := FirstLatch(w, i, j - 1); }
  }

  lemma LatchedStepCreatesNothing(w: World, e: Event)
    requires SawUnlatched(w) && Captured(Current(w))
    requires e.Advance? && e.c < |w.calls| && w.calls[e.c].stage == Creating ==> w.calls[e.c].base == |w.hist| - 1
    ensures Step(w, e).created == w.created && Captured(Current(Step(w, e)))
  {
    StepKeepsInv(w, e);
    StepWellFormed(w, e);
    var w' := Step(w, e);
    assert w'.hist[|w.hist| - 1] == Current(w);
    assert Follows(w'.hist[|w.hist| - 1], Current(w'));
  }

  lemma {:induction false} LatchedRunCreatesNothing(w: World, events: seq<Event>)
    requires SawUnlatched(w) && Captured(Current(w)) && CreatesAreAtomic(w, events)
    ensures Run(w, events).created == w.created
    decreases |events|
  {
    if events != [] {
      StepWellFormed(w, events[0]);
      StepKeepsSawUnlatched(w, events[0]);
      LatchedStepCreatesNothing(w, events[0]);
      LatchedRunCreatesNothing(Step(w, events[0]), events[1..]);
    }
  }

  /** Nothing is created after the latch: in every run - expired requests and races before the latch
      included - once the node is latched, Creates that follow their refresh at once create nothing. */
  lemma NothingCreatedAfterLatch(w0: World, before: seq<Event>, after: seq<Event>)
    requires Initial(w0) && Captured(Current(Run(w0, before)))
    requires CreatesAreAtomic(Run(w0, before), after)
    ensures Run(Run(w0, before), after).created == Run(w0, before).created
  {
    InitialInv(w0);
    RunKeepsSawUnlatched(w0, before);
    LatchedRunCreatesNothing(Run(w0, before), after);
  }

  /** With refresh and Create taken as one step, every run in which no request expires creates the request at
      most once, and the latch is only ever set after that creation. */
  lemma AtMostOneRequest(w0: World, events: seq<Event>)
    requires Initial(w0) && NoExpiry(events) && CreatesAreAtomic(w0, events)
    ensures |Run(w0, events).created| <= 1
    ensures Captured(Current(Run(w0, events))) ==> |Run(w0, events).created| == 1
  {
    InitialInv(w0);
    AtomicRunCreatesOnce(w0, events);
    RunKeepsLatchInv(w0, events);
  }

  lemma StepReaps(w: World, e: Event)
    requires WellFormed(w)
    ensures w.reaps <= Step(w, e).reaps
  {
  }

  /** The first plan wins: as long as the request is not deleted, its targets stay the canonical form of the
      set the creating call declared, whatever later calls declare. */
  lemma FirstPlanWins(w0: World, before: seq<Event>, c: nat, after: seq<Event>)
    requires Initial(w0) && c < |Run(w0, before).calls|
    requires Run(w0, before).calls[c].stage == Creating && Run(w0, before).created == []
    requires Run(Run(w0, before), [Advance(c)] + after).reaps == 0
    ensures var plan := CanonTargets(Run(w0, before).calls[c].task.targets);
      var w := Run(Run(w0, before), [Advance(c)] + after);
      w.created == [plan] && w.request.Some? && w.request.value.targets == plan
  {
    ReachedInv(w0, before);
    var w1 := Run(w0, before);
    StepWellFormed(w1, Advance(c));
    var w2 := Step(w1, Advance(c));
    assert ([Advance(c)] + after)[1..] == after;
    assert Run(w1, [Advance(c)] + after) == Run(w2, after);
    assert w2.created == [CanonTargets(w1.calls[c].task.targets)] by { assert w2 == Create(w1, c); }
    StepKeepsInv(w1, Advance(c));
    OnlyPlanStays(w2, after);
  }

  /** How requests, their creations and their deletions relate. */
  ghost predicate Counted(w: World) {
    && |w.created| == w.reaps + (if w.request.Some? then 1 else 0)
    && (w.request.Some? ==> w.created != [] && w.request.value.targets == w.created[|w.created| - 1])
  }

  lemma InvCounts(w: World)
    requires Inv(w)
    ensures Counted(w)
  {
  }

  lemma {:induction false} RunCounts(w: World, after: seq<Event>)
    requires Inv(w)
    ensures w.created <= Run(w, after).created && w.reaps <= Run(w, after).reaps && Counted(Run(w, after))
    decreases |after|
  {
    InvCounts(w);
    if after != [] {
      StepWellFormed(w, after[0]);
      StepKeepsInv(w, after[0]);
      StepGrowsCreated(w, after[0]);
      StepReaps(w, after[0]);
      RunCounts(Step(w, after[0]), after[1..]);
    }
  }

  lemma OnlyPlanStays(w: World, after: seq<Event>)
    requires Inv(w) && |w.created| == 1 && Run(w, after).reaps == 0
    ensures Run(w, after).created == w.created
    ensures Run(w, after).request.Some? && Run(w, after).request.value.targets == w.created[0]
  {
    RunCounts(w, after);
    OnePlan(w.created, Run(w, after));
  }

  lemma OnePlan(created: seq<seq<Ref>>, w: World)
    requires |created| == 1 && created <= w.created && w.reaps == 0 && Counted(w)
    ensures w.created == created && w.request.Some? && w.request.value.targets == created[0]
  {
  }

  /** A finished manifest call whose probe saw the request reports drift exactly when the set it declared
      differs from the request's, and by then the request name is published either way. */
  lemma DriftReportedExactly(w0: World, events: seq<Event>, c: nat)
    requires Initial(w0) && c < |Run(w0, events).calls|
    ensures var w := Run(w0, events); var call := w.calls[c];
      call.task.Manifest? && call.existed.Some? && (call.stage == Done(Ok) || call.stage == Done(ErrDrift)) ==>
        && (call.stage == Done(ErrDrift) <==> !SameTargets(call.existed.value, call.task.targets))
        && Current(w).requestName == w.requestName
        && call.existed.value in w.created
  {
    ReachedInv(w0, events);
    assert CallOk(Run(w0, events), Run(w0, events).calls[c]);
  }

  // ---- the race is real ------------------------------------------------------------------------------------

  ghost predicate ReachedWithoutExpiry(w: World) {
    exists w0, events :: Initial(w0) && NoExpiry(events) && Run(w0, events) == w
  }

  lemma {:induction false} RunSnoc(w: World, events: seq<Event>, e: Event)
    requires WellFormed(w)
    ensures WellFormed(Run(w, events))
    ensures Run(w, events + [e]) == Step(Run(w, events), e)
    decreases |events|
  {
    if events == [] {
      assert [e][1..] == [];
      StepWellFormed(w, e);
    } else {
      StepWellFormed(w, events[0]);
      RunSnoc(Step(w, events[0]), events[1..], e);
      assert (events + [e])[1..] == events[1..] + [e];
    }
  }

  lemma ReachStep(w: World, e: Event)
    requires ReachedWithoutExpiry(w) && WellFormed(w) && !e.Expire?
    ensures ReachedWithoutExpiry(Step(w, e)) && WellFormed(Step(w, e))
  {
    StepWellFormed(w, e);
    var w0, events :| Initial(w0) && NoExpiry(events) && Run(w0, events) == w;
    RunSnoc(w0, events, e);
    assert NoExpiry(events + [e]);
  }

  // The run: the first call creates the request and publishes its name, the domain declares barrier 1, the core
  // declares its latch, the request reports its checkpoint; then a second call, whose cache has not seen the
  // request, refreshes just before the core latches and reaps.

  ghost function RaceWorld(hist: seq<Snapshot>, calls: seq<Call>, request: Option<string>, t: Ref, created: nat, reaps: nat): World {
    var content := RequestCleanup.Content("u", "cp");
    var owner := Owner(RequestCleanup.CONTENT_API_VERSION, RequestCleanup.CONTENT_KIND, "content", "u", Some(true));
    var handoff := RequestCleanup.Handoff("content", map["content" := content],
      map["cp" := RequestCleanup.Checkpoint(Some(true), [owner])]);
    var plan := CanonTargets([t]);
    World(owner, "nss-mcr", hist, calls, map[],
      if request.Some? then Some(Request(plan, request.value)) else None, handoff, {}, [], if created == 0 then [] else [plan], reaps)
  }

  ghost function RaceVersion(k: nat): Snapshot {
    Snapshot(if k < 2 then Other("") else Planned, "", "", [], [], if k < 1 then "" else "nss-mcr",
      if k < 3 then None else Some(k >= 4))
  }

  ghost function ManifestCall(t: Ref, stage: Stage, base: nat): Call {
    Call(Manifest([t]), stage, 0, base, None, 0)
  }

  ghost function PlannedCall(stage: Stage, base: nat): Call {
    Call(Status(Planned, "", ""), stage, 1, base, None, 0)
  }

  /** The world before the k-th step of the run, and the step. */
  ghost function RaceStep(t: Ref, k: nat): (World, Event) {
    var v0, v1, v2 := [RaceVersion(0)], [RaceVersion(0), RaceVersion(1)], [RaceVersion(0), RaceVersion(1), RaceVersion(2)];
    var v3 := v2 + [RaceVersion(3)];
    var v4 := v3 + [RaceVersion(4)];
    var first, planned := ManifestCall(t, Done(Ok), 1), PlannedCall(Done(Ok), 2);
    match k
    case 0 => (RaceWorld(v0, [], None, t, 0, 0), StartManifest(0, [t]))
    case 1 => (RaceWorld(v0, [ManifestCall(t, Probing, 0)], None, t, 0, 0), ProbeCache(0, None))
    case 2 => (RaceWorld(v0, [ManifestCall(t, Refreshing, 0)], None, t, 0, 0), Advance(0))
    case 3 => (RaceWorld(v0, [ManifestCall(t, Creating, 0)], None, t, 0, 0), Advance(0))
    case 4 => (RaceWorld(v0, [ManifestCall(t, Patching(0), 0)], Some(""), t, 1, 0), Advance(0))
    case 5 => (RaceWorld(v1, [first], Some(""), t, 1, 0), StartStatus(1, Planned, "", ""))
    case 6 => (RaceWorld(v1, [first, PlannedCall(Rereading(0), 1)], Some(""), t, 1, 0), Advance(1))
    case 7 => (RaceWorld(v1, [first, PlannedCall(Patching(0), 1)], Some(""), t, 1, 0), Advance(1))
    case 8 => (RaceWorld(v2, [first, planned], Some(""), t, 1, 0), CoreDeclare)
    case 9 => (RaceWorld(v3, [first, planned], Some(""), t, 1, 0), HandoffChange(RaceWorld(v0, [], None, t, 0, 0).handoff, "cp"))
    case 10 => (RaceWorld(v3, [first, planned], Some("cp"), t, 1, 0), StartManifest(0, [t]))
    case 11 => (RaceWorld(v3, [first, planned, ManifestCall(t, Probing, 0)], Some("cp"), t, 1, 0), ProbeCache(2, None))
    case 12 => (RaceWorld(v3, [first, planned, ManifestCall(t, Refreshing, 0)], Some("cp"), t, 1, 0), Advance(2))
    case 13 => (RaceWorld(v3, [first, planned, ManifestCall(t, Creating, 3)], Some("cp"), t, 1, 0), CoreLatch)
    case 14 => (RaceWorld(v4, [first, planned, ManifestCall(t, Creating, 3)], Some("cp"), t, 1, 0), CoreReap)
    case _ => (RaceWorld(v4, [first, planned, ManifestCall(t, Creating, 3)], None, t, 1, 1), Advance(2))
  }

  ghost predicate RaceReaches(t: Ref, k: nat) {
    ReachedWithoutExpiry(RaceStep(t, k).0) && WellFormed(RaceStep(t, k).0)
  }

  lemma RaceContinues(t: Ref, k: nat)
    requires RaceReaches(t, k) && !RaceStep(t, k).1.Expire? && Step(RaceStep(t, k).0, RaceStep(t, k).1) == RaceStep(t, k + 1).0
    ensures RaceReaches(t, k + 1)
  {
    ReachStep(RaceStep(t, k).0, RaceStep(t, k).1);
  }

  lemma RaceReaches1(t: Ref)
    ensures RaceReaches(t, 1)
  {
    var w := RaceStep(t, 0).0;
    assert Run(w, []) == w && Initial(w) && NoExpiry([]);
    RaceContinues(t, 0);
  }

  lemma RaceReaches2(t: Ref)
    ensures RaceReaches(t, 2)
  {
    RaceReaches1(t);
    RaceContinues(t, 1);
  }

  lemma RaceReaches3(t: Ref)
    ensures RaceReaches(t, 3)
  {
    RaceReaches2(t);
    RaceContinues(t, 2);
  }

  lemma RaceReaches4(t: Ref)
    ensures RaceReaches(t, 4)
  {
    RaceReaches3(t);
    RaceContinues(t, 3);
  }

  lemma RaceReaches5(t: Ref)
    ensures RaceReaches(t, 5)
  {
    RaceReaches4(t);
    RaceContinues(t, 4);
  }

  lemma RaceReaches6(t: Ref)
    ensures RaceReaches(t, 6)
  {
    RaceReaches5(t);
    RaceContinues(t, 5);
  }

  lemma RaceReaches7(t: Ref)
    ensures RaceReaches(t, 7)
  {
    RaceReaches6(t);
    RaceContinues(t, 6);
  }

  lemma RaceReaches8(t: Ref)
    ensures RaceReaches(t, 8)
  {
    RaceReaches7(t);
    RaceContinues(t, 7);
  }

  lemma RaceReaches9(t: Ref)
    ensures RaceReaches(t, 9)
  {
    RaceReaches8(t);
    RaceContinues(t, 8);
  }

  lemma RaceReaches10(t: Ref)
    ensures RaceReaches(t, 10)
  {
    RaceReaches9(t);
    RaceContinues(t, 9);
  }

  lemma RaceReaches11(t: Ref)
    ensures RaceReaches(t, 11)
  {
    RaceReaches10(t);
    RaceContinues(t, 10);
  }

  lemma RaceReaches12(t: Ref)
    ensures RaceReaches(t, 12)
  {
    RaceReaches11(t);
    RaceContinues(t, 11);
  }

  lemma RaceReaches13(t: Ref)
    ensures RaceReaches(t, 13)
  {
    RaceReaches12(t);
    RaceContinues(t, 12);
  }

  lemma RaceReaches14(t: Ref)
    ensures RaceReaches(t, 14)
  {
    RaceReaches13(t);
    assert RequestCleanup.OwnedBy([RaceStep(t, 13).0.me], "content", "u");
    assert MayLatch(RaceStep(t, 13).0);
    RaceContinues(t, 13);
  }

  lemma RaceReaches15(t: Ref)
    ensures RaceReaches(t, 15)
  {
    RaceReaches14(t);
    RaceContinues(t, 14);
  }

  /** A run without expiry in which a second request is created. */
  lemma RecreationHappens(t: Ref) returns (w: World, c: nat)
    ensures ReachedWithoutExpiry(w) && WellFormed(w) && c < |w.calls| && w.calls[c].stage == Creating
    ensures |w.created| == 1 && |Step(w, Advance(c)).created| == 2
  {
    RaceReaches15(t);
    w, c := RaceStep(t, 15).0, 2;
  }
}
