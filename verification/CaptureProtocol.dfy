/** The capture protocol of one snapshot object as a transition system: any number of SDK calls in
    flight, each working on a possibly stale copy, interleaved with the core's steps. */
module CaptureProtocol {
  import opened Ordering
  import opened Refs
  import opened OwnerRef
  import opened CapturePhase
  import RequestCleanup

  /** The stored status fields the protocol reads and writes. */
  datatype Snapshot = Snapshot(
    phase: Phase, reason: string, message: string,
    children: seq<Ref>, excluded: seq<Ref>,
    requestName: string, captured: Option<bool>)

  datatype ChildSpec = ChildSpec(ref: Ref, owners: seq<Owner>)

  /** What a call is about to publish. A Status task holds the triple as Apply decided it. */
  datatype Task =
    | Children(desired: seq<ChildSpec>, excluded: seq<Ref>)
    | Status(phase: Phase, reason: string, message: string)
    | Manifest(targets: seq<Ref>)

  datatype Outcome = Ok | ErrFrozen | ErrChild | ErrConflict | ErrEmptyManifest | ErrDrift

  datatype Stage =
    | Refreshing
    | Ensuring(next: nat)
    | Probing
    | Creating
    | Rereading(tries: nat)
    | Patching(tries: nat)
    | Done(outcome: Outcome)

  /** `base` is the server version the adapter's copy came from, `start` the version it held when the call
      began, `existed` the request the cached probe returned, `reapsSeen` the number of request deletions
      that had happened when the call last refreshed. */
  datatype Call = Call(task: Task, stage: Stage, start: nat, base: nat, existed: Option<seq<Ref>>, reapsSeen: nat)

  datatype Request = Request(targets: seq<Ref>, checkpointName: string)

  /** `hist` lists every version the server has stored; the last is the current one and its index is its
      resourceVersion. `objects` holds the owner references of existing child objects. The remaining
      fields are history: child refs ensured so far, refs desired by committed publications, every
      request ever created, and the number of request deletions. */
  datatype World = World(
    me: Owner, requestName: string,
    hist: seq<Snapshot>, calls: seq<Call>,
    objects: map<Ref, seq<Owner>>, request: Option<Request>, handoff: RequestCleanup.Handoff,
    ensured: set<Ref>, declared: seq<Ref>, created: seq<seq<Ref>>, reaps: nat)

  /** retry.DefaultRetry: five attempts. */
  const MAX_TRIES: nat := 5

  ghost function SpecRefs(desired: seq<ChildSpec>): seq<Ref> {
    seq(|desired|, i requires 0 <= i < |desired| => desired[i].ref)
  }

  ghost function Current(w: World): Snapshot
    requires w.hist != []
  {
    w.hist[|w.hist| - 1]
  }

  // ---- the mutation closures ------------------------------------------------------------------

  /** None when the closure reports "unchanged" and no patch is sent. */
  ghost function PublishChildren(s: Snapshot, refs: seq<Ref>, excluded: seq<Ref>): Option<Snapshot> {
    var changed := Grows(s.children, refs) || !SameExcluded(s.excluded, Canon(excluded));
    if Frozen(s.phase) && changed then None
    else if !changed then None
    else Some(s.(children := Canon(s.children + refs), excluded := Canon(excluded)))
  }

  ghost function PublishPhase(s: Snapshot, phase: Phase, reason: string, message: string): Option<Snapshot> {
    if !CanAdvance(s.phase, phase) then None
    else if s.phase == phase && s.reason == reason && s.message == message then None
    else Some(s.(phase := phase, reason := reason, message := message))
  }

  ghost function PublishRequest(s: Snapshot, name: string): Option<Snapshot> {
    if s.requestName == name then None else Some(s.(requestName := name))
  }

  ghost function Mutate(requestName: string, task: Task, s: Snapshot): Option<Snapshot> {
    match task
    case Children(desired, excluded) => PublishChildren(s, Sort(RefLe, SpecRefs(desired)), excluded)
    case Status(phase, reason, message) => PublishPhase(s, phase, reason, message)
    case Manifest(_) => PublishRequest(s, requestName)
  }

  ghost predicate Captured(s: Snapshot) {
    s.captured == Some(true)
  }

  /** The publication finished: a manifest call still compares its targets with the request it found. */
  ghost function Settled(call: Call): Stage {
    if call.task.Manifest? && call.existed.Some? && !SameTargets(call.existed.value, call.task.targets)
    then Done(ErrDrift) else Done(Ok)
  }

  // ---- steps of a call ------------------------------------------------------------------------

  ghost function SetCall(w: World, c: nat, call: Call): World
    requires c < |w.calls|
  {
    w.(calls := w.calls[c := call])
  }

  /** Apply: entering a barrier clears reason and message, judged by the adapter's copy. */
  function Decide(cur: Snapshot, phase: Phase, reason: string, message: string): (string, string) {
    if IsBarrier(phase) && cur.phase != phase then ("", "") else (reason, message)
  }

  /** setPhase may return without reading the server at all. */
  predicate ExitsEarly(cur: Snapshot, phase: Phase, reason: string, message: string) {
    !CanAdvance(cur.phase, phase) || (cur.phase == phase && cur.reason == reason && cur.message == message)
  }

  ghost function BeginStatus(w: World, at: nat, phase: Phase, reason: string, message: string): World
    requires at < |w.hist|
  {
    var (r, m) := Decide(w.hist[at], phase, reason, message);
    var stage := if ExitsEarly(w.hist[at], phase, r, m) then Done(Ok) else Rereading(0);
    w.(calls := w.calls + [Call(Status(phase, r, m), stage, at, at, None, 0)])
  }

  ghost function BeginChildren(w: World, at: nat, desired: seq<ChildSpec>, excluded: seq<Ref>): World {
    w.(calls := w.calls + [Call(Children(desired, excluded), Refreshing, at, at, None, 0)])
  }

  ghost function BeginManifest(w: World, at: nat, targets: seq<Ref>): World
    requires at < |w.hist|
  {
    var stage := if Captured(w.hist[at]) then Done(Ok) else if targets == [] then Done(ErrEmptyManifest) else Probing;
    w.(calls := w.calls + [Call(Manifest(targets), stage, at, at, None, 0)])
  }

  /** Growth or changed exclusions on a frozen node: what the pre-check rejects. */
  ghost predicate FrozenGrowth(cur: Snapshot, refs: seq<Ref>, excluded: seq<Ref>) {
    Frozen(cur.phase) && (Grows(cur.children, refs) || !SameExcluded(cur.excluded, Canon(excluded)))
  }

  /** Owner references a child has, or is created with. */
  function OwnersOf(objects: map<Ref, seq<Owner>>, spec: ChildSpec): seq<Owner> {
    if spec.ref in objects then objects[spec.ref] else spec.owners
  }

  /** The authoritative read, with the freeze pre-check of a children call and the latch check of a
      manifest call. */
  ghost function Refresh(w: World, c: nat): World
    requires c < |w.calls| && w.hist != []
  {
    var call := w.calls[c].(base := |w.hist| - 1, reapsSeen := w.reaps);
    var cur := Current(w);
    SetCall(w, c, match call.task
      case Children(desired, excluded) =>
        if FrozenGrowth(cur, SpecRefs(desired), excluded) then call.(stage := Done(ErrFrozen)) else call.(stage := Ensuring(0))
      case Manifest(_) => call.(stage := if Captured(cur) then Done(Ok) else Creating)
      case Status(_, _, _) => call)
  }

  /** One ensureChild, taken as one step; after the last child the first patch attempt reuses the copy
      of the refresh. */
  ghost function EnsureNext(w: World, c: nat, next: nat): World
    requires c < |w.calls| && w.calls[c].task.Children?
  {
    var call := w.calls[c];
    if next >= |call.task.desired| then SetCall(w, c, call.(stage := Patching(0)))
    else
      var spec := call.task.desired[next];
      var owners := OwnersOf(w.objects, spec);
      if !Adoptable(owners, w.me) then SetCall(w, c, call.(stage := Done(ErrChild)))
      else SetCall(w, c, call.(stage := Ensuring(next + 1)))
        .(objects := w.objects[spec.ref := Adopted(owners, w.me)], ensured := w.ensured + {spec.ref})
  }

  /** Publish the request name unless the copy at hand already shows it. */
  ghost function Adopt(w: World, call: Call, refreshed: bool): Call
    requires call.base < |w.hist|
  {
    call.(stage :=
      if w.hist[call.base].requestName == w.requestName then Settled(call)
      else if refreshed then Patching(0) else Rereading(0))
  }

  /** The cached existence probe: `cached` picks which request creation the cache shows, or NotFound. */
  ghost function Probe(w: World, c: nat, cached: Option<nat>): World
    requires c < |w.calls| && w.calls[c].base < |w.hist|
    requires cached.Some? ==> cached.value < |w.created|
  {
    var call := w.calls[c];
    SetCall(w, c, match cached
      case None => call.(stage := Refreshing)
      case Some(k) => Adopt(w, call.(existed := Some(w.created[k])), false))
  }

  /** Create tolerates AlreadyExists. */
  ghost function Create(w: World, c: nat): World
    requires c < |w.calls| && w.calls[c].base < |w.hist| && w.calls[c].task.Manifest?
  {
    var call := w.calls[c];
    var targets := CanonTargets(call.task.targets);
    var w' := if w.request.Some? then w else w.(request := Some(Request(targets, "")), created := w.created + [targets]);
    SetCall(w', c, Adopt(w, call, true))
  }

  /** One optimistic-locked attempt: a patch computed from an outdated copy conflicts. */
  ghost function Patch(w: World, c: nat, tries: nat): World
    requires c < |w.calls| && w.calls[c].base < |w.hist|
  {
    var call := w.calls[c];
    match Mutate(w.requestName, call.task, w.hist[call.base])
    case None => SetCall(w, c, call.(stage := Settled(call)))
    case Some(next) =>
      if call.base != |w.hist| - 1 then
        SetCall(w, c, call.(stage := if tries + 1 < MAX_TRIES then Rereading(tries + 1) else Done(ErrConflict)))
      else
        SetCall(w, c, call.(stage := Settled(call), base := |w.hist|))
          .(hist := w.hist + [next],
            declared := w.declared + if call.task.Children? then SpecRefs(call.task.desired) else [])
  }

  ghost function Reread(w: World, c: nat, tries: nat): World
    requires c < |w.calls| && w.hist != []
  {
    SetCall(w, c, w.calls[c].(stage := Patching(tries), base := |w.hist| - 1))
  }

  // ---- the whole system -----------------------------------------------------------------------

  datatype Event =
    | StartStatus(at: nat, phase: Phase, reason: string, message: string)
    | StartChildren(at: nat, desired: seq<ChildSpec>, excluded: seq<Ref>)
    | StartManifest(at: nat, targets: seq<Ref>)
    | Advance(c: nat)
    | ProbeCache(c: nat, cached: Option<nat>)
    | CoreDeclare
    | CoreLatch
    | CoreReap
    | Expire
    | HandoffChange(handoff: RequestCleanup.Handoff, checkpointName: string)
    | OtherWrite
    | ForeignChild(ref: Ref, owners: seq<Owner>)

  ghost predicate WellFormed(w: World) {
    && w.hist != []
    && w.requestName != ""
    && (forall c :: 0 <= c < |w.calls| ==> w.calls[c].base < |w.hist| && w.calls[c].start <= w.calls[c].base)
    && (forall c :: 0 <= c < |w.calls| && w.calls[c].stage.Ensuring? ==> w.calls[c].task.Children?)
    && (forall c :: 0 <= c < |w.calls| && (w.calls[c].stage.Probing? || w.calls[c].stage.Creating?) ==> w.calls[c].task.Manifest?)
  }

  ghost function AdvanceCall(w: World, c: nat): World
    requires WellFormed(w) && c < |w.calls|
  {
    match w.calls[c].stage
    case Refreshing => Refresh(w, c)
    case Ensuring(next) => EnsureNext(w, c, next)
    case Creating => Create(w, c)
    case Rereading(tries) => Reread(w, c, tries)
    case Patching(tries) => Patch(w, c, tries)
    case _ => w
  }

  /** The core latches only on a node at barrier 1 or 2 whose request name is published and whose
      manifest has been handed over durably. */
  ghost predicate MayLatch(w: World)
    requires w.hist != []
  {
    var cur := Current(w);
    && IsBarrier(cur.phase) && !Captured(cur) && cur.requestName != ""
    && RequestCleanup.Safe(if w.request.Some? then Some(w.request.value.checkpointName) else None, w.handoff)
  }

  ghost function Commit(w: World, next: Snapshot): World {
    w.(hist := w.hist + [next])
  }

  /** An event that is not enabled leaves the world as it is. */
  ghost function Step(w: World, e: Event): World
    requires WellFormed(w)
  {
    match e
    case StartStatus(at, phase, reason, message) => if at < |w.hist| then BeginStatus(w, at, phase, reason, message) else w
    case StartChildren(at, desired, excluded) => if at < |w.hist| then BeginChildren(w, at, desired, excluded) else w
    case StartManifest(at, targets) => if at < |w.hist| then BeginManifest(w, at, targets) else w
    case Advance(c) => if c < |w.calls| then AdvanceCall(w, c) else w
    case ProbeCache(c, cached) =>
      if c < |w.calls| && w.calls[c].stage.Probing? && (cached.Some? ==> cached.value < |w.created|)
      then Probe(w, c, cached) else w
    case CoreDeclare => if IsBarrier(Current(w).phase) && Current(w).captured.None?
      then Commit(w, Current(w).(captured := Some(false))) else w
    case CoreLatch => if MayLatch(w) then Commit(w, Current(w).(captured := Some(true))) else w
    case CoreReap => if Captured(Current(w)) && w.request.Some? then w.(request := None, reaps := w.reaps + 1) else w
    case Expire => if w.request.Some? then w.(request := None, reaps := w.reaps + 1) else w
    case HandoffChange(handoff, checkpointName) =>
      w.(handoff := handoff, request := if w.request.Some? then Some(w.request.value.(checkpointName := checkpointName)) else None)
    case OtherWrite => Commit(w, Current(w))
    case ForeignChild(ref, owners) => w.(objects := w.objects[ref := owners])
  }

  /** What every step does to the calls and the version list. */
  ghost predicate Grown(w: World, w': World) {
    && WellFormed(w')
    && w.hist <= w'.hist && |w'.hist| <= |w.hist| + 1
    && w'.requestName == w.requestName && w'.me == w.me
    && |w.calls| <= |w'.calls|
  }

  lemma SetCallWellFormed(w: World, c: nat, call: Call)
    requires WellFormed(w) && c < |w.calls|
    requires call.start <= call.base < |w.hist|
    requires call.stage.Ensuring? ==> call.task.Children?
    requires call.stage.Probing? || call.stage.Creating? ==> call.task.Manifest?
    ensures Grown(w, SetCall(w, c, call))
  {
  }

  lemma PatchWellFormed(w: World, c: nat, tries: nat)
    requires WellFormed(w) && c < |w.calls|
    ensures Grown(w, Patch(w, c, tries))
  {
    var call := w.calls[c];
    var m := Mutate(w.requestName, call.task, w.hist[call.base]);
    if m == None {
      SetCallWellFormed(w, c, call.(stage := Settled(call)));
    } else if call.base != |w.hist| - 1 {
      SetCallWellFormed(w, c, call.(stage := if tries + 1 < MAX_TRIES then Rereading(tries + 1) else Done(ErrConflict)));
    } else {
      var w1 := w.(hist := w.hist + [m.value],
        declared := w.declared + if call.task.Children? then SpecRefs(call.task.desired) else []);
      assert WellFormed(w1);
      SetCallWellFormed(w1, c, call.(stage := Settled(call), base := |w.hist|));
    }
  }

  lemma AdvanceWellFormed(w: World, c: nat)
    requires WellFormed(w) && c < |w.calls|
    ensures Grown(w, AdvanceCall(w, c))
  {
    var call := w.calls[c];
    match call.stage
    case Refreshing =>
    case Ensuring(next) =>
    case Creating =>
      var targets := CanonTargets(call.task.targets);
      var w1 := if w.request.Some? then w else w.(request := Some(Request(targets, "")), created := w.created + [targets]);
      SetCallWellFormed(w1, c, Adopt(w, call, true));
    case Rereading(tries) =>
    case Patching(tries) => PatchWellFormed(w, c, tries);
    case _ =>
  }

  lemma StepWellFormed(w: World, e: Event)
    requires WellFormed(w)
    ensures Grown(w, Step(w, e))
  {
    if e.Advance? && e.c < |w.calls| {
      AdvanceWellFormed(w, e.c);
    }
  }

  ghost function Run(w: World, events: seq<Event>): (w': World)
    requires WellFormed(w)
    ensures WellFormed(w') && w.hist <= w'.hist
    decreases |events|
  {
    if events == [] then w
    else
      StepWellFormed(w, events[0]);
      Run(Step(w, events[0]), events[1..])
  }

  /** A snapshot object before any SDK call: nothing published, no request, no latch. */
  ghost predicate Initial(w: World) {
    && WellFormed(w) && |w.hist| == 1 && w.calls == []
    && var s := w.hist[0];
    && s.children == [] && s.excluded == [] && s.requestName == "" && s.captured != Some(true)
    && w.request == None && w.ensured == {} && w.declared == [] && w.created == [] && w.reaps == 0
  }
}
