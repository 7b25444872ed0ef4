/** What every step of the capture protocol keeps, over any interleaving. */
module CaptureInvariant {
  import opened Ordering
  import opened Refs
  import opened OwnerRef
  import opened CapturePhase
  import opened CaptureProtocol

  // ---- the stored versions ----------------------------------------------------------------------

  ghost predicate Canonical(s: seq<Ref>) {
    Sorted(RefLe, s) && NoDup(s)
  }

  /** How a later stored version relates to an earlier one. */
  ghost predicate Follows(a: Snapshot, b: Snapshot) {
    && CanAdvance(a.phase, b.phase)
    && (Frozen(a.phase) ==> a.children == b.children && a.excluded == b.excluded)
    && Elems(a.children) <= Elems(b.children)
    && (Captured(a) ==> Captured(b))
    && (a.requestName != "" ==> b.requestName == a.requestName)
  }

  ghost predicate BarrierClear(a: Snapshot, b: Snapshot) {
    a.phase != b.phase && IsBarrier(b.phase) ==> b.reason == "" && b.message == ""
  }

  ghost predicate StoredOk(s: Snapshot, name: string) {
    Canonical(s.children) && Canonical(s.excluded) && (s.requestName == "" || s.requestName == name)
  }

  ghost predicate HistoryInv(hist: seq<Snapshot>, name: string) {
    && (forall i, j :: 0 <= i <= j < |hist| ==> Follows(hist[i], hist[j]))
    && (forall i :: 0 <= i < |hist| ==> StoredOk(hist[i], name))
    && (forall i, j :: 0 <= i && j == i + 1 && j < |hist| ==> BarrierClear(hist[i], hist[j]))
  }

  lemma FollowsTransitive(a: Snapshot, b: Snapshot, c: Snapshot)
    requires Follows(a, b) && Follows(b, c)
    ensures Follows(a, c)
  {
    AdvanceIsPreorder(a.phase, b.phase, c.phase);
  }

  lemma AppendVersion(hist: seq<Snapshot>, name: string, next: Snapshot)
    requires hist != [] && HistoryInv(hist, name) && StoredOk(next, name)
    requires Follows(hist[|hist| - 1], next) && BarrierClear(hist[|hist| - 1], next) && Follows(next, next)
    ensures HistoryInv(hist + [next], name)
  {
    var last := hist[|hist| - 1];
    forall i | 0 <= i < |hist| ensures Follows(hist[i], next) {
      FollowsTransitive(hist[i], last, next);
    }
  }

  // ---- the calls in flight ------------------------------------------------------------------------

  ghost predicate StatusOk(w: World, call: Call)
    requires call.task.Status? && call.start < |w.hist|
  {
    // A diagnostic that survives Apply on a barrier phase was read at that very phase.
    (IsBarrier(call.task.phase) && (call.task.reason != "" || call.task.message != "")) ==>
      w.hist[call.start].phase == call.task.phase
  }

  ghost predicate ChildrenOk(w: World, call: Call)
    requires call.task.Children?
  {
    var d := call.task.desired;
    && (call.stage.Ensuring? ==> forall i :: 0 <= i < call.stage.next && i < |d| ==> d[i].ref in w.ensured)
    && (call.stage.Patching? || call.stage.Rereading? ==> forall i :: 0 <= i < |d| ==> d[i].ref in w.ensured)
  }

  ghost predicate ManifestOk(w: World, call: Call)
    requires call.task.Manifest? && w.hist != []
  {
    && (call.existed.Some? ==> call.existed.value in w.created)
    && (call.stage.Probing? || call.stage.Refreshing? || call.stage.Creating? ==> call.existed == None)
    && (call.stage.Patching? || call.stage.Rereading? ==> w.created != [])
    && (call.stage == Done(ErrDrift) ==>
          && call.existed.Some? && !SameTargets(call.existed.value, call.task.targets)
          && Current(w).requestName == w.requestName)
    && (call.stage == Done(Ok) && call.existed.Some? ==>
          SameTargets(call.existed.value, call.task.targets) && Current(w).requestName == w.requestName)
  }

  ghost predicate CallOk(w: World, call: Call)
    requires w.hist != []
  {
    && call.start < |w.hist|
    && (call.task.Status? ==> StatusOk(w, call))
    && (call.task.Children? ==> ChildrenOk(w, call))
    && (call.task.Manifest? ==> ManifestOk(w, call))
  }

  // ---- the global invariant -----------------------------------------------------------------------

  ghost predicate GlobalOk(w: World)
    requires w.hist != []
  {
    && Current(w).children == Canon(w.declared)
    && Elems(w.declared) <= w.ensured
    && |w.created| == w.reaps + (if w.request.Some? then 1 else 0)
    && (w.request.Some? ==> w.request.value.targets == w.created[|w.created| - 1])
    && (Current(w).requestName != "" || Captured(Current(w)) ==> w.created != [])
  }

  ghost predicate Inv(w: World) {
    && WellFormed(w)
    && HistoryInv(w.hist, w.requestName)
    && GlobalOk(w)
    && forall c :: 0 <= c < |w.calls| ==> CallOk(w, w.calls[c])
  }

  /** The parts of the world a call's facts depend on only grow. */
  ghost predicate Extends(w: World, w': World) {
    && w.hist != [] && w.hist <= w'.hist && w.ensured <= w'.ensured && w.created <= w'.created
    && w.requestName == w'.requestName && w.requestName != ""
    && Follows(Current(w), Current(w'))
  }

  lemma CallOkStable(w: World, w': World, call: Call)
    requires Extends(w, w') && CallOk(w, call)
    ensures CallOk(w', call)
  {
    if call.task.Status? {
      assert w'.hist[call.start] == w.hist[call.start];
    }
    if call.task.Manifest? && call.existed.Some? {
      assert call.existed.value in w'.created;
    }
  }

  /** After a step that touches at most call `c`, only that call's facts are new. */
  lemma CallsOk(w: World, w': World, c: nat)
    requires Inv(w) && Extends(w, w') && WellFormed(w') && c < |w'.calls|
    requires |w'.calls| == |w.calls| || (c == |w.calls| && |w'.calls| == c + 1)
    requires forall k :: 0 <= k < |w.calls| && k != c ==> w'.calls[k] == w.calls[k]
    requires CallOk(w', w'.calls[c])
    ensures forall k :: 0 <= k < |w'.calls| ==> CallOk(w', w'.calls[k])
  {
    forall k | 0 <= k < |w'.calls| ensures CallOk(w', w'.calls[k]) {
      if k != c {
        CallOkStable(w, w', w.calls[k]);
      }
    }
  }

  lemma FollowsItself(s: Snapshot)
    ensures Follows(s, s)
  {
  }

  /** Replacing one call, with the stored versions as they were. */
  lemma SetCallKeeps(w: World, c: nat, call: Call)
    requires Inv(w) && c < |w.calls|
    requires WellFormed(SetCall(w, c, call)) && CallOk(w, call)
    ensures Inv(SetCall(w, c, call))
  {
    var w' := SetCall(w, c, call);
    FollowsItself(Current(w));
    CallOkStable(w, w', call);
    CallsOk(w, w', c);
  }

  // ---- commits ------------------------------------------------------------------------------------

  lemma CanonOfCanon(declared: seq<Ref>, refs: seq<Ref>)
    ensures Canon(Canon(declared) + Sort(RefLe, refs)) == Canon(declared + refs)
    ensures Elems(Canon(declared) + Sort(RefLe, refs)) == Elems(declared) + Elems(refs)
    ensures Grows(Canon(declared), Sort(RefLe, refs)) <==> !(Elems(refs) <= Elems(declared))
  {
    CanonSpec(declared);
    RefOrder();
    SortSpec(RefLe, refs);
    ElemsConcat(Canon(declared), Sort(RefLe, refs));
    ElemsConcat(declared, refs);
    CanonDeterminedBySet(Canon(declared) + Sort(RefLe, refs), declared + refs);
    GrowsExactly(Canon(declared), Sort(RefLe, refs));
  }

  /** A publication computed from the current version is a lawful next version. */
  lemma MutateFollows(w: World, call: Call)
    requires Inv(w) && CallOk(w, call) && call.start <= call.base == |w.hist| - 1
    requires Mutate(w.requestName, call.task, Current(w)).Some?
    ensures var next := Mutate(w.requestName, call.task, Current(w)).value;
      && StoredOk(next, w.requestName) && Follows(Current(w), next) && BarrierClear(Current(w), next)
      && (!call.task.Children? ==> next.children == Current(w).children)
      && (!call.task.Manifest? ==> next.requestName == Current(w).requestName)
      && next.captured == Current(w).captured
  {
    var cur := Current(w);
    match call.task
    case Children(desired, excluded) =>
      CanonSpec(cur.children + Sort(RefLe, SpecRefs(desired)));
      CanonSpec(excluded);
      ElemsConcat(cur.children, Sort(RefLe, SpecRefs(desired)));
    case Status(phase, reason, message) =>
      assert Follows(w.hist[call.start], cur);
      AdvanceIsPreorder(phase, cur.phase, phase);
    case Manifest(_) =>
  }

  lemma RefsEnsured(w: World, call: Call)
    requires w.hist != [] && CallOk(w, call) && call.task.Children? && call.stage.Patching?
    ensures Elems(SpecRefs(call.task.desired)) <= w.ensured
  {
    forall r | r in SpecRefs(call.task.desired) ensures r in w.ensured {
      var i :| 0 <= i < |call.task.desired| && SpecRefs(call.task.desired)[i] == r;
      assert call.task.desired[i].ref == r;
    }
  }

  lemma SettledOk(w: World, call: Call)
    requires w.hist != [] && CallOk(w, call)
    requires call.task.Manifest? ==> Current(w).requestName == w.requestName
    ensures CallOk(w, call.(stage := Settled(call)))
  {
  }

  lemma PatchKeeps(w: World, c: nat, tries: nat)
    requires Inv(w) && c < |w.calls| && w.calls[c].stage == Patching(tries)
    ensures Inv(Patch(w, c, tries))
  {
    var call := w.calls[c];
    PatchWellFormed(w, c, tries);
    var m := Mutate(w.requestName, call.task, w.hist[call.base]);
    assert CallOk(w, call);
    if m == None {
      if call.task.Manifest? {
        assert Follows(w.hist[call.base], Current(w));
      }
      SettledOk(w, call);
      SetCallKeeps(w, c, call.(stage := Settled(call)));
    } else if call.base != |w.hist| - 1 {
      SetCallKeeps(w, c, call.(stage := if tries + 1 < MAX_TRIES then Rereading(tries + 1) else Done(ErrConflict)));
    } else {
      PatchCommits(w, c, tries);
    }
  }

  /** The world right after the server accepted the patch of call `c`. */
  ghost function Accepted(w: World, task: Task, next: Snapshot): World {
    w.(hist := w.hist + [next], declared := w.declared + if task.Children? then SpecRefs(task.desired) else [])
  }

  lemma AcceptedOk(w: World, call: Call)
    requires Inv(w) && CallOk(w, call) && call.start <= call.base == |w.hist| - 1
    requires call.stage.Patching? && Mutate(w.requestName, call.task, Current(w)).Some?
    ensures var w' := Accepted(w, call.task, Mutate(w.requestName, call.task, Current(w)).value);
      Extends(w, w') && HistoryInv(w'.hist, w'.requestName) && GlobalOk(w')
  {
    var next := Mutate(w.requestName, call.task, Current(w)).value;
    var w' := Accepted(w, call.task, next);
    MutateFollows(w, call);
    FollowsItself(next);
    AppendVersion(w.hist, w.requestName, next);
    assert Current(w') == next;
    if call.task.Children? {
      CanonOfCanon(w.declared, SpecRefs(call.task.desired));
      RefsEnsured(w, call);
      ElemsConcat(w.declared, SpecRefs(call.task.desired));
    } else {
      assert w'.declared == w.declared;
    }
  }

  lemma PatchCommits(w: World, c: nat, tries: nat)
    requires Inv(w) && c < |w.calls| && w.calls[c].stage == Patching(tries)
    requires w.calls[c].base == |w.hist| - 1 && Mutate(w.requestName, w.calls[c].task, Current(w)).Some?
    ensures Inv(Patch(w, c, tries))
  {
    var call := w.calls[c];
    var w1 := Accepted(w, call.task, Mutate(w.requestName, call.task, Current(w)).value);
    var call' := call.(stage := Settled(call), base := |w.hist|);
    assert CallOk(w, call);
    AcceptedOk(w, call);
    assert Inv(w1) by {
      forall k | 0 <= k < |w1.calls| ensures CallOk(w1, w1.calls[k]) {
        CallOkStable(w, w1, w.calls[k]);
      }
    }
    CallOkStable(w, w1, call);
    SettledOk(w1, call);
    CallOkBase(w1, call.(stage := Settled(call)), |w.hist|);
    SetCallKeeps(w1, c, call');
    assert Patch(w, c, tries) == SetCall(w1, c, call');
  }

  lemma CallOkBase(w: World, call: Call, base: nat)
    requires w.hist != [] && CallOk(w, call)
    ensures CallOk(w, call.(base := base))
  {
  }

  // ---- the other steps ------------------------------------------------------------------------------

  lemma RefreshKeeps(w: World, c: nat)
    requires Inv(w) && c < |w.calls| && w.calls[c].stage == Refreshing
    ensures Inv(Refresh(w, c))
  {
    AdvanceWellFormed(w, c);
    var w' := Refresh(w, c);
    assert w' == SetCall(w, c, w'.calls[c]);
    assert CallOk(w, w.calls[c]);
    SetCallKeeps(w, c, w'.calls[c]);
  }

  /** A step that leaves versions, calls and creations alone. */
  lemma QuietStepKeeps(w: World, w': World)
    requires Inv(w) && WellFormed(w')
    requires w'.hist == w.hist && w'.calls == w.calls && w.ensured <= w'.ensured && w'.created == w.created
    requires w'.declared == w.declared && w'.requestName == w.requestName
    requires |w.created| == w'.reaps + (if w'.request.Some? then 1 else 0)
    requires w'.request.Some? ==> w.request.Some? && w'.request.value.targets == w.request.value.targets
    ensures Inv(w')
  {
    FollowsItself(Current(w));
    forall k | 0 <= k < |w'.calls| ensures CallOk(w', w'.calls[k]) {
      CallOkStable(w, w', w.calls[k]);
    }
  }

  lemma EnsureKeeps(w: World, c: nat, next: nat)
    requires Inv(w) && c < |w.calls| && w.calls[c].stage == Ensuring(next)
    ensures Inv(EnsureNext(w, c, next))
  {
    var call := w.calls[c];
    var w' := EnsureNext(w, c, next);
    var w1 := w.(objects := w'.objects, ensured := w'.ensured);
    assert CallOk(w, call);
    QuietStepKeeps(w, w1);
    assert w'.calls[c].start == call.start && w'.calls[c].base == call.base && w'.calls[c].task == call.task;
    SetCallKeeps(w1, c, w'.calls[c]);
    assert w' == SetCall(w1, c, w'.calls[c]);
  }

  lemma AdoptOk(w: World, call: Call, refreshed: bool)
    requires w.hist != [] && HistoryInv(w.hist, w.requestName) && w.requestName != ""
    requires call.task.Manifest? && call.start <= call.base < |w.hist| && w.created != []
    requires call.existed.Some? ==> call.existed.value in w.created
    ensures CallOk(w, Adopt(w, call, refreshed))
  {
    assert Follows(w.hist[call.base], Current(w));
  }

  lemma CreateKeeps(w: World, c: nat)
    requires Inv(w) && c < |w.calls| && w.calls[c].stage == Creating
    ensures Inv(Create(w, c))
  {
    AdvanceWellFormed(w, c);
    var call := w.calls[c];
    var w' := Create(w, c);
    FollowsItself(Current(w));
    assert Extends(w, w');
    CallOkStable(w, w', call);
    AdoptOk(w', call, true);
    CallsOk(w, w', c);
  }

  lemma ProbeKeeps(w: World, c: nat, cached: Option<nat>)
    requires Inv(w) && c < |w.calls| && w.calls[c].stage == Probing
    requires cached.Some? ==> cached.value < |w.created|
    ensures Inv(Probe(w, c, cached))
  {
    var call := w.calls[c];
    var w' := Probe(w, c, cached);
    assert CallOk(w, call);
    if cached.Some? {
      var seen := call.(existed := Some(w.created[cached.value]));
      AdoptOk(w, seen, false);
    }
    SetCallKeeps(w, c, w'.calls[c]);
  }

  lemma AdvanceKeeps(w: World, c: nat)
    requires Inv(w) && c < |w.calls|
    ensures Inv(AdvanceCall(w, c))
  {
    match w.calls[c].stage
    case Refreshing => RefreshKeeps(w, c);
    case Ensuring(next) => EnsureKeeps(w, c, next);
    case Creating => CreateKeeps(w, c);
    case Rereading(tries) =>
      assert CallOk(w, w.calls[c]);
      SetCallKeeps(w, c, w.calls[c].(stage := Patching(tries), base := |w.hist| - 1));
    case Patching(tries) => PatchKeeps(w, c, tries);
    case _ =>
  }

  lemma CommitKeeps(w: World, next: Snapshot)
    requires Inv(w)
    requires next == Current(w).(captured := next.captured)
    requires Captured(Current(w)) ==> Captured(next)
    requires Captured(next) ==> w.created != []
    ensures Inv(Commit(w, next))
  {
    var w' := Commit(w, next);
    FollowsItself(next);
    AppendVersion(w.hist, w.requestName, next);
    assert Current(w') == next;
    forall k | 0 <= k < |w'.calls| ensures CallOk(w', w'.calls[k]) {
      CallOkStable(w, w', w.calls[k]);
    }
  }

  lemma StartKeeps(w: World, call: Call)
    requires Inv(w) && CallOk(w, call) && call.start <= call.base < |w.hist|
    requires !call.stage.Ensuring? && !call.stage.Creating? && (call.stage.Probing? ==> call.task.Manifest?)
    ensures Inv(w.(calls := w.calls + [call]))
  {
    var w' := w.(calls := w.calls + [call]);
    FollowsItself(Current(w));
    CallOkStable(w, w', call);
    CallsOk(w, w', |w.calls|);
  }

  /** The steps of the core and of others. */
  lemma OutsideKeeps(w: World, e: Event)
    requires Inv(w) && WellFormed(Step(w, e))
    requires !e.StartStatus? && !e.StartChildren? && !e.StartManifest? && !e.Advance? && !e.ProbeCache?
    ensures Inv(Step(w, e))
  {
    match e
    case CoreDeclare =>
      if Step(w, e) != w { CommitKeeps(w, Current(w).(captured := Some(false))); }
    case CoreLatch =>
      if MayLatch(w) { CommitKeeps(w, Current(w).(captured := Some(true))); }
    case CoreReap => QuietStepKeeps(w, Step(w, e));
    case Expire => QuietStepKeeps(w, Step(w, e));
    case HandoffChange(_, _) => QuietStepKeeps(w, Step(w, e));
    case OtherWrite => CommitKeeps(w, Current(w));
    case ForeignChild(_, _) => QuietStepKeeps(w, Step(w, e));
    case _ =>
  }

  lemma StepKeepsInv(w: World, e: Event)
    requires Inv(w)
    ensures Inv(Step(w, e))
  {
    StepWellFormed(w, e);
    match e
    case StartStatus(at, phase, reason, message) =>
      if at < |w.hist| { StartKeeps(w, BeginStatus(w, at, phase, reason, message).calls[|w.calls|]); }
    case StartChildren(at, desired, excluded) =>
      if at < |w.hist| { StartKeeps(w, BeginChildren(w, at, desired, excluded).calls[|w.calls|]); }
    case StartManifest(at, targets) =>
      if at < |w.hist| { StartKeeps(w, BeginManifest(w, at, targets).calls[|w.calls|]); }
    case Advance(c) =>
      if c < |w.calls| { AdvanceKeeps(w, c); }
    case ProbeCache(c, cached) =>
      if Step(w, e) != w { ProbeKeeps(w, c, cached); }
    case _ => OutsideKeeps(w, e);
  }

  lemma InitialInv(w: World)
    requires Initial(w)
    ensures Inv(w)
  {
  }

  lemma {:induction false} RunKeepsInv(w: World, events: seq<Event>)
    requires Inv(w)
    ensures Inv(Run(w, events))
    ensures w.hist <= Run(w, events).hist && w.created <= Run(w, events).created
    decreases |events|
  {
    if events != [] {
      StepKeepsInv(w, events[0]);
      StepWellFormed(w, events[0]);
      StepGrowsCreated(w, events[0]);
      RunKeepsInv(Step(w, events[0]), events[1..]);
    }
  }

  lemma StepGrowsCreated(w: World, e: Event)
    requires WellFormed(w)
    ensures w.created <= Step(w, e).created
  {
  }
}
