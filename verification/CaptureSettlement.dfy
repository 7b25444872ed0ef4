/** What a successful EnsureChildren call means: its refs are published, unless it settled on a frozen copy. */
module CaptureSettlement {
  import opened Ordering
  import opened Refs
  import opened OwnerRef
  import opened CapturePhase
  import opened CaptureProtocol
  import opened CaptureInvariant
  import CaptureTheorems
  import RequestCleanup

  /** The version a call's copy shows. */
  ghost function Copy(w: World, call: Call): Snapshot
    requires call.base < |w.hist|
  {
    w.hist[call.base]
  }

  /** Every child was created or adopted, and the copy the call ended on publishes it or is frozen. */
  ghost predicate SettledWell(w: World, call: Call)
    requires call.task.Children? && call.base < |w.hist|
  {
    && Elems(SpecRefs(call.task.desired)) <= w.ensured
    && (Frozen(Copy(w, call).phase) ||
        (Elems(SpecRefs(call.task.desired)) <= Elems(Copy(w, call).children) && Elems(Copy(w, call).excluded) == Elems(call.task.excluded)))
  }

  ghost predicate SettlementInv(w: World) {
    && Inv(w) && w.ensured <= w.objects.Keys
    && forall c :: 0 <= c < |w.calls| && w.calls[c].task.Children? && w.calls[c].stage == Done(Ok) ==> SettledWell(w, w.calls[c])
  }

  /** A children call succeeds by a patch attempt only. */
  lemma SucceedsByPatch(w: World, e: Event, c: nat)
    requires WellFormed(w) && c < |Step(w, e).calls|
    requires Step(w, e).calls[c].task.Children? && Step(w, e).calls[c].stage == Done(Ok)
    requires c < |w.calls| ==> Step(w, e).calls[c] != w.calls[c]
    ensures e == Advance(c) && c < |w.calls| && w.calls[c].stage.Patching? && w.calls[c].task == Step(w, e).calls[c].task
  {
    if e.Advance? && e.c < |w.calls| { AdvanceSucceedsByPatch(w, e.c, c); }
  }

  lemma AdvanceSucceedsByPatch(w: World, a: nat, c: nat)
    requires WellFormed(w) && a < |w.calls| && c < |AdvanceCall(w, a).calls|
    requires AdvanceCall(w, a).calls[c].task.Children? && AdvanceCall(w, a).calls[c].stage == Done(Ok)
    requires c < |w.calls| ==> AdvanceCall(w, a).calls[c] != w.calls[c]
    ensures a == c && w.calls[a].stage.Patching? && w.calls[a].task == AdvanceCall(w, a).calls[c].task
  {
    match w.calls[a].stage
    case Patching(tries) => assert AdvanceCall(w, a) == Patch(w, a, tries);
    case _ =>
  }

  /** What a patch attempt that succeeds leaves the call with. */
  lemma PatchLeaves(w: World, c: nat)
    requires WellFormed(w) && c < |w.calls| && w.calls[c].stage.Patching? && w.calls[c].task.Children?
    requires Step(w, Advance(c)).calls[c].stage == Done(Ok)
    ensures var call, w' := w.calls[c], Step(w, Advance(c)); var call' := w'.calls[c];
      var next := Mutate(w.requestName, call.task, w.hist[call.base]);
      && call'.task == call.task && w'.ensured == w.ensured && call'.base < |w'.hist|
      && Copy(w', call') == if next == None then w.hist[call.base] else next.value
  {
    assert Step(w, Advance(c)) == Patch(w, c, w.calls[c].stage.tries);
  }

  lemma PatchSettles(w: World, c: nat)
    requires Inv(w) && c < |w.calls| && w.calls[c].stage.Patching? && w.calls[c].task.Children?
    requires Step(w, Advance(c)).calls[c].stage == Done(Ok) && WellFormed(Step(w, Advance(c)))
    ensures SettledWell(Step(w, Advance(c)), Step(w, Advance(c)).calls[c])
  {
    assert CallOk(w, w.calls[c]);
    RefsEnsured(w, w.calls[c]);
    PatchLeaves(w, c);
    var next := PublicationSettles(w, w.calls[c]);
  }

  /** The closure on the copy of a call, and what it leaves or makes. */
  lemma PublicationSettles(w: World, call: Call) returns (next: Option<Snapshot>)
    requires Inv(w) && call.task.Children? && call.base < |w.hist|
    ensures next == Mutate(w.requestName, call.task, w.hist[call.base])
    ensures var s := if next == None then w.hist[call.base] else next.value;
      Frozen(s.phase) || (Elems(SpecRefs(call.task.desired)) <= Elems(s.children) && Elems(s.excluded) == Elems(call.task.excluded))
  {
    var copy := w.hist[call.base];
    assert StoredOk(copy, w.requestName);
    CaptureTheorems.ClosureExactly(copy, SpecRefs(call.task.desired), call.task.excluded);
    next := Mutate(w.requestName, call.task, copy);
  }

  lemma StepKeepsSettlement(w: World, e: Event)
    requires SettlementInv(w)
    ensures SettlementInv(Step(w, e))
  {
    StepKeepsInv(w, e);
    StepWellFormed(w, e);
    StepEnsuresMore(w, e);
    var w' := Step(w, e);
    forall c | 0 <= c < |w'.calls| && w'.calls[c].task.Children? && w'.calls[c].stage == Done(Ok) ensures SettledWell(w', w'.calls[c]) {
      if c < |w.calls| && w'.calls[c] == w.calls[c] {
        assert SettledWell(w, w.calls[c]) && Copy(w', w.calls[c]) == Copy(w, w.calls[c]);
      } else {
        SucceedsByPatch(w, e, c);
        PatchSettles(w, c);
      }
    }
  }

  lemma StepEnsuresMore(w: World, e: Event)
    requires WellFormed(w)
    ensures w.ensured <= Step(w, e).ensured
    ensures w.ensured <= w.objects.Keys ==> Step(w, e).ensured <= Step(w, e).objects.Keys
  {
  }

  lemma {:induction false} RunKeepsSettlement(w: World, events: seq<Event>)
    requires SettlementInv(w)
    ensures SettlementInv(Run(w, events))
    decreases |events|
  {
    if events != [] {
      StepWellFormed(w, events[0]);
      StepKeepsSettlement(w, events[0]);
      RunKeepsSettlement(Step(w, events[0]), events[1..]);
    }
  }

  /** A call of EnsureChildren that returned success, at any later time: its children were created or adopted,
      and exist as long as nobody deletes one, which no step does; its refs are published exactly if the copy
      it ended on was not frozen or showed them already. In the remaining case the write was dropped without
      an error, and they never will be. */
  lemma SuccessIsPublishedExactly(w0: World, events: seq<Event>, c: nat)
    requires Initial(w0) && c < |Run(w0, events).calls|
    requires Run(w0, events).calls[c].task.Children? && Run(w0, events).calls[c].stage == Done(Ok)
    ensures var w := Run(w0, events); var call := w.calls[c]; var refs := Elems(SpecRefs(call.task.desired));
      && refs <= w.ensured && refs <= w.objects.Keys
      && (refs <= Elems(Current(w).children) <==> !Frozen(Copy(w, call).phase) || refs <= Elems(Copy(w, call).children))
      && (!Frozen(Copy(w, call).phase) ==> Elems(Copy(w, call).excluded) == Elems(call.task.excluded))
  {
    InitialInv(w0);
    RunKeepsSettlement(w0, events);
    var w := Run(w0, events);
    assert SettledWell(w, w.calls[c]);
    assert Follows(Copy(w, w.calls[c]), Current(w));
  }

  // ---- the dropped write is real ---------------------------------------------------------------------------

  // The run: a children call refreshes and creates its child; a status call stores Planned; the first patch of
  // the children call conflicts, and on the fresh copy its closure reports "unchanged".

  ghost function DropVersion(phase: Phase): Snapshot {
    Snapshot(phase, "", "", [], [], "", None)
  }

  ghost function DropWorld(r: Ref, planned: bool, calls: seq<Call>, created: bool): World {
    var me := Owner("v1", "Snapshot", "s", "u", Some(true));
    var hist := if planned then [DropVersion(Other("")), DropVersion(Planned)] else [DropVersion(Other(""))];
    World(me, "nss-mcr", hist, calls, if created then map[r := Adopted([], me)] else map[],
      None, RequestCleanup.Handoff("", map[], map[]), if created then {r} else {}, [], [], 0)
  }

  ghost function ChildCall(r: Ref, stage: Stage, base: nat): Call {
    Call(Children([ChildSpec(r, [])], []), stage, 0, base, None, 0)
  }

  ghost function PlanCall(stage: Stage, base: nat): Call {
    Call(Status(Planned, "", ""), stage, 0, base, None, 0)
  }

  /** The world before the k-th step of the run, and the step. */
  ghost function DropStep(r: Ref, k: nat): (World, Event) {
    var waiting, planned := ChildCall(r, Patching(0), 0), PlanCall(Done(Ok), 1);
    match k
    case 0 => (DropWorld(r, false, [], false), StartChildren(0, [ChildSpec(r, [])], []))
    case 1 => (DropWorld(r, false, [ChildCall(r, Refreshing, 0)], false), Advance(0))
    case 2 => (DropWorld(r, false, [ChildCall(r, Ensuring(0), 0)], false), Advance(0))
    case 3 => (DropWorld(r, false, [ChildCall(r, Ensuring(1), 0)], true), Advance(0))
    case 4 => (DropWorld(r, false, [waiting], true), StartStatus(0, Planned, "", ""))
    case 5 => (DropWorld(r, false, [waiting, PlanCall(Rereading(0), 0)], true), Advance(1))
    case 6 => (DropWorld(r, false, [waiting, PlanCall(Patching(0), 0)], true), Advance(1))
    case 7 => (DropWorld(r, true, [waiting, planned], true), Advance(0))
    case 8 => (DropWorld(r, true, [ChildCall(r, Rereading(1), 0), planned], true), Advance(0))
    case 9 => (DropWorld(r, true, [ChildCall(r, Patching(1), 1), planned], true), Advance(0))
    case _ => (DropWorld(r, true, [ChildCall(r, Done(Ok), 1), planned], true), OtherWrite)
  }

  ghost predicate DropReaches(r: Ref, k: nat) {
    CaptureTheorems.ReachedWithoutExpiry(DropStep(r, k).0) && WellFormed(DropStep(r, k).0)
  }

  lemma DropContinues(r: Ref, k: nat)
    requires DropReaches(r, k) && Step(DropStep(r, k).0, DropStep(r, k).1) == DropStep(r, k + 1).0
    ensures DropReaches(r, k + 1)
  {
    CaptureTheorems.ReachStep(DropStep(r, k).0, DropStep(r, k).1);
  }

  /** Publishing the child changes an unfrozen copy and not a frozen one. */
  lemma DropClosure(r: Ref, phase: Phase)
    ensures Mutate("nss-mcr", ChildCall(r, Refreshing, 0).task, DropVersion(phase)).Some? <==> !Frozen(phase)
  {
    assert SpecRefs([ChildSpec(r, [])]) == [r];
    CaptureTheorems.ClosureExactly(DropVersion(phase), [r], []);
    assert r in Elems([r]);
  }

  lemma DropReaches1(r: Ref)
    ensures DropReaches(r, 1)
  {
    var w := DropStep(r, 0).0;
    assert Run(w, []) == w && Initial(w) && CaptureTheorems.NoExpiry([]);
    DropContinues(r, 0);
  }

  lemma DropReaches2(r: Ref)
    ensures DropReaches(r, 2)
  {
    DropReaches1(r);
    DropContinues(r, 1);
  }

  lemma DropReaches3(r: Ref)
    ensures DropReaches(r, 3)
  {
    DropReaches2(r);
    DropContinues(r, 2);
  }

  lemma DropReaches4(r: Ref)
    ensures DropReaches(r, 4)
  {
    DropReaches3(r);
    DropContinues(r, 3);
  }

  lemma DropReaches5(r: Ref)
    ensures DropReaches(r, 5)
  {
    DropReaches4(r);
    DropContinues(r, 4);
  }

  lemma DropReaches6(r: Ref)
    ensures DropReaches(r, 6)
  {
    DropReaches5(r);
    DropContinues(r, 5);
  }

  lemma DropReaches7(r: Ref)
    ensures DropReaches(r, 7)
  {
    DropReaches6(r);
    DropContinues(r, 6);
  }

  lemma PatchConflicts(w: World, c: nat, tries: nat)
    requires c < |w.calls| && w.calls[c].base < |w.hist| - 1 && tries + 1 < MAX_TRIES
    requires Mutate(w.requestName, w.calls[c].task, w.hist[w.calls[c].base]).Some?
    ensures Patch(w, c, tries) == SetCall(w, c, w.calls[c].(stage := Rereading(tries + 1)))
  {
  }

  lemma DropConflicts(r: Ref)
    ensures var w := DropWorld(r, true, [ChildCall(r, Patching(0), 0), PlanCall(Done(Ok), 1)], true);
      Patch(w, 0, 0) == DropWorld(r, true, [ChildCall(r, Rereading(1), 0), PlanCall(Done(Ok), 1)], true)
  {
    var w := DropWorld(r, true, [ChildCall(r, Patching(0), 0), PlanCall(Done(Ok), 1)], true);
    DropClosure(r, Other(""));
    PatchConflicts(w, 0, 0);
    assert w.calls[0 := ChildCall(r, Rereading(1), 0)] == [ChildCall(r, Rereading(1), 0), PlanCall(Done(Ok), 1)];
  }

  lemma AdvancePatches(w: World, c: nat, tries: nat)
    requires WellFormed(w) && c < |w.calls| && w.calls[c].stage == Patching(tries)
    ensures Step(w, Advance(c)) == Patch(w, c, tries)
  {
  }

  lemma DropOvertaken(r: Ref)
    requires WellFormed(DropStep(r, 7).0)
    ensures Step(DropStep(r, 7).0, Advance(0)) == DropStep(r, 8).0
  {
    var w := DropWorld(r, true, [ChildCall(r, Patching(0), 0), PlanCall(Done(Ok), 1)], true);
    DropConflicts(r);
    AdvancePatches(w, 0, 0);
  }

  lemma DropReaches8(r: Ref)
    ensures DropReaches(r, 8)
  {
    DropReaches7(r);
    DropOvertaken(r);
    DropContinues(r, 7);
  }

  lemma DropReaches9(r: Ref)
    ensures DropReaches(r, 9)
  {
    DropReaches8(r);
    DropContinues(r, 8);
  }

  lemma DropReaches10(r: Ref)
    ensures DropReaches(r, 10)
  {
    DropReaches9(r);
    DropClosure(r, Planned);
    DropContinues(r, 9);
  }

  /** A run after which a children call has succeeded and published nothing, whatever its child. */
  lemma DroppedWriteHappens(r: Ref) returns (w: World, c: nat)
    ensures CaptureTheorems.ReachedWithoutExpiry(w) && WellFormed(w) && c < |w.calls|
    ensures w.calls[c].task.Children? && w.calls[c].stage == Done(Ok) && SpecRefs(w.calls[c].task.desired) == [r]
    ensures r in w.objects && Current(w).children == []
  {
    DropReaches10(r);
    w, c := DropStep(r, 10).0, 0;
    assert SpecRefs([ChildSpec(r, [])]) == [r];
  }
}
