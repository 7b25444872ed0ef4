/** The undivided executions of the SDK calls are runs of the transition system. */
module CaptureRuns {
  import opened Refs
  import opened OwnerRef
  import opened CapturePhase
  import opened CaptureProtocol
  import opened CaptureCall

  type Relation = (World, World) -> bool

  /** What others do next, in any world. */
  type Strategy = World -> seq<Event>

  ghost predicate RunsTo(w0: World, w: World) {
    WellFormed(w0) && exists events :: Run(w0, events) == w
  }

  /** A relation between worlds that contains the steps and is closed under composition; below, RunsTo. */
  ghost predicate Linked(to: Relation) {
    && (forall a, b {:trigger to(a, b)} :: to(a, b) ==> WellFormed(a) && WellFormed(b))
    && (forall a {:trigger to(a, a)} :: WellFormed(a) ==> to(a, a))
    && (forall a, e {:trigger Step(a, e)} :: WellFormed(a) ==> to(a, Step(a, e)))
    && (forall a, b, c {:trigger to(a, b), to(b, c)} :: to(a, b) && to(b, c) ==> to(a, c))
  }

  lemma {:induction false} RunSplit(w: World, xs: seq<Event>, ys: seq<Event>)
    requires WellFormed(w)
    ensures Run(w, xs + ys) == Run(Run(w, xs), ys)
    decreases |xs|
  {
    if xs == [] {
      assert xs + ys == ys;
    } else {
      StepWellFormed(w, xs[0]);
      assert (xs + ys)[0] == xs[0] && (xs + ys)[1..] == xs[1..] + ys;
      RunSplit(Step(w, xs[0]), xs[1..], ys);
    }
  }

  lemma RunsToStep(w: World, e: Event)
    requires WellFormed(w)
    ensures RunsTo(w, Step(w, e)) && WellFormed(Step(w, e))
  {
    StepWellFormed(w, e);
    assert [e][1..] == [];
    assert Run(w, [e]) == Step(w, e);
  }

  lemma RunsToTrans(w0: World, w1: World, w2: World)
    requires RunsTo(w0, w1) && RunsTo(w1, w2)
    ensures RunsTo(w0, w2)
  {
    var xs :| Run(w0, xs) == w1;
    var ys :| Run(w1, ys) == w2;
    RunSplit(w0, xs, ys);
    assert Run(w0, xs + ys) == w2;
  }

  lemma RunsToWellFormed(w0: World, w: World)
    requires RunsTo(w0, w)
    ensures WellFormed(w) && RunsTo(w, w)
  {
    assert Run(w, []) == w;
  }

  lemma RunsLinked() returns (to: Relation)
    ensures Linked(to)
    ensures forall a, b {:trigger to(a, b)} :: to(a, b) ==> RunsTo(a, b)
  {
    to := (a, b) => RunsTo(a, b);
    forall a, b | to(a, b) ensures WellFormed(a) && WellFormed(b) { RunsToWellFormed(a, b); }
    forall a | WellFormed(a) ensures to(a, a) { assert Run(a, []) == a; }
    forall a, e | WellFormed(a) ensures to(a, Step(a, e)) { RunsToStep(a, e); }
    forall a, b, c | to(a, b) && to(b, c) ensures to(a, c) { RunsToTrans(a, b, c); }
  }

  lemma OneStep(to: Relation, w: World, e: Event)
    requires Linked(to) && WellFormed(w)
    ensures WellFormed(Step(w, e)) && to(w, Step(w, e))
  {
  }

  lemma {:induction false} LinksRun(to: Relation, w: World, events: seq<Event>)
    requires Linked(to) && WellFormed(w)
    ensures to(w, Run(w, events))
    decreases |events|
  {
    if events == [] {
      assert to(w, w);
    } else {
      OneStep(to, w, events[0]);
      LinksRun(to, Step(w, events[0]), events[1..]);
    }
  }

  // ---- others ------------------------------------------------------------------------------------------------

  /** Everything but the progress of call `c`. */
  ghost predicate NotMine(events: seq<Event>, c: nat) {
    forall e :: e in events ==> !(e.Advance? && e.c == c) && !(e.ProbeCache? && e.c == c)
  }

  ghost predicate LeftAlone(w: World, w': World, c: nat) {
    && w'.me == w.me && w'.requestName == w.requestName && w.hist <= w'.hist
    && c < |w.calls| && c < |w'.calls| && w'.calls[c] == w.calls[c]
  }

  lemma StepLeavesAlone(w: World, e: Event, c: nat)
    requires WellFormed(w) && c < |w.calls| && NotMine([e], c)
    ensures LeftAlone(w, Step(w, e), c)
  {
    StepWellFormed(w, e);
    assert e in [e];
  }

  lemma {:induction false} RunLeavesAlone(w: World, events: seq<Event>, c: nat)
    requires WellFormed(w) && c < |w.calls| && NotMine(events, c)
    ensures LeftAlone(w, Run(w, events), c)
    decreases |events|
  {
    if events != [] {
      assert events[0] in events;
      StepLeavesAlone(w, events[0], c);
      StepWellFormed(w, events[0]);
      RunLeavesAlone(Step(w, events[0]), events[1..], c);
    }
  }

  /** Others may do anything but move call `c`. */
  ghost predicate Others(env: Strategy, c: nat) {
    forall w {:trigger env(w)} :: NotMine(env(w), c)
  }

  lemma Suffix(a: seq<Snapshot>, b: seq<Snapshot>) returns (added: seq<Snapshot>)
    requires a <= b
    ensures b == a + added
  {
    added := b[|a|..];
  }

  lemma OthersMove(w: World, c: nat, env: Strategy) returns (w': World, added: seq<Snapshot>)
    requires WellFormed(w) && c < |w.calls| && Others(env, c)
    ensures w' == Run(w, env(w)) && LeftAlone(w, w', c) && w'.hist == w.hist + added
  {
    RunLeavesAlone(w, env(w), c);
    w' := Run(w, env(w));
    added := Suffix(w.hist, w'.hist);
  }

  lemma TurnOfOthers(to: Relation, w: World, c: nat, env: Strategy) returns (w': World, added: seq<Snapshot>)
    requires Linked(to) && WellFormed(w) && c < |w.calls| && Others(env, c)
    ensures to(w, w') && LeftAlone(w, w', c) && w'.hist == w.hist + added
  {
    LinksRun(to, w, env(w));
    w', added := OthersMove(w, c, env);
  }

  // ---- the retry loop ----------------------------------------------------------------------------------------

  ghost predicate CallIs(w: World, c: nat, call: Call) {
    c < |w.calls| && w.calls[c] == call && call.base < |w.hist|
  }

  ghost predicate SameNames(w: World, w': World) {
    w'.me == w.me && w'.requestName == w.requestName
  }

  lemma PatchOnce(to: Relation, w: World, c: nat, call: Call, tries: nat, mutate: Closure) returns (w': World)
    requires Linked(to) && WellFormed(w) && CallIs(w, c, call) && call.stage == Patching(tries)
    requires Mutates(mutate, w.requestName, call.task)
    ensures to(w, w') && SameNames(w, w')
    ensures var next := mutate(w.hist[call.base]); var lands := next.Some? && call.base == |w.hist| - 1;
      && w'.hist == (if lands then w.hist + [next.value] else w.hist)
      && CallIs(w', c, call.(
           stage := if next == None || lands then Settled(call)
                    else if tries + 1 < MAX_TRIES then Rereading(tries + 1) else Done(ErrConflict),
           base := if lands then |w.hist| else call.base))
  {
    OneStep(to, w, Advance(c));
    w' := Step(w, Advance(c));
    assert w' == Patch(w, c, tries);
    assert Mutate(w.requestName, call.task, w.hist[call.base]) == mutate(w.hist[call.base]);
  }

  lemma RereadOnce(to: Relation, w: World, c: nat, call: Call, tries: nat) returns (w': World)
    requires Linked(to) && WellFormed(w) && CallIs(w, c, call) && call.stage == Rereading(tries)
    ensures to(w, w') && SameNames(w, w') && w'.hist == w.hist
    ensures CallIs(w', c, call.(stage := Patching(tries), base := |w.hist| - 1))
  {
    OneStep(to, w, Advance(c));
    w' := Step(w, Advance(c));
    assert w' == Reread(w, c, tries);
  }

  ghost function Ended(call: Call, r: Retry): Call {
    call.(stage := if r.ok then Settled(call) else Done(ErrConflict), base := r.base)
  }

  /** One attempt; the others have a turn before its patch arrives, if it sends one. */
  lemma AttemptRuns(to: Relation, w: World, c: nat, call: Call, k: nat,
      mutate: Closure, env: Strategy)
    returns (w': World, added: seq<Snapshot>)
    requires Linked(to) && WellFormed(w) && CallIs(w, c, call) && call.stage == Patching(k)
    requires Mutates(mutate, w.requestName, call.task) && Others(env, c)
    ensures to(w, w') && SameNames(w, w')
    ensures var next := mutate(w.hist[call.base]); var lands := next.Some? && added == [] && call.base == |w.hist| - 1;
      && w'.hist == (if next == None then w.hist else if lands then w.hist + [next.value] else w.hist + added)
      && CallIs(w', c, call.(
           stage := if next == None || lands then Settled(call)
                    else if k + 1 < MAX_TRIES then Rereading(k + 1) else Done(ErrConflict),
           base := if lands then |w.hist| else call.base))
  {
    var w1 := w;
    added := [];
    assert to(w, w);
    if mutate(w.hist[call.base]).Some? {
      w1, added := TurnOfOthers(to, w, c, env);
    }
    w' := PatchOnce(to, w1, c, call, k, mutate);
  }

  /** The retry loop of any call is a run: patch attempts and re-reads, with a turn of others before each patch.
      `others` are the versions these turns store. */
  lemma {:induction false} RetryRuns(to: Relation, w: World, c: nat, call: Call, k: nat,
      mutate: Closure, env: Strategy)
    returns (w': World, others: seq<seq<Snapshot>>)
    requires Linked(to) && WellFormed(w) && CallIs(w, c, call) && call.stage == Patching(k)
    requires k < MAX_TRIES && Mutates(mutate, w.requestName, call.task) && Others(env, c)
    ensures to(w, w') && |others| == MAX_TRIES - k
    ensures var r := Retried(mutate, w.hist, call.base, others);
      w'.hist == r.versions && CallIs(w', c, Ended(call, r))
    decreases MAX_TRIES - k
  {
    var added;
    w', added := AttemptRuns(to, w, c, call, k, mutate, env);
    var more: seq<seq<Snapshot>> := seq(MAX_TRIES - k - 1, _ => []);
    if mutate(w.hist[call.base]).Some? && !(added == [] && call.base == |w.hist| - 1) && k + 1 < MAX_TRIES {
      var again := call.(stage := Patching(k + 1), base := |w'.hist| - 1);
      w' := RereadOnce(to, w', c, call.(stage := Rereading(k + 1)), k + 1);
      w', more := RetryRuns(to, w', c, again, k + 1, mutate, env);
    }
    others := [added] + more;
    RetriedOnce(mutate, w.hist, call.base, added, more);
  }

  /** The loop when it begins with a read. */
  lemma ReadRetryRuns(to: Relation, w: World, c: nat, call: Call, mutate: Closure, env: Strategy)
    returns (w': World, others: seq<seq<Snapshot>>)
    requires Linked(to) && WellFormed(w) && CallIs(w, c, call) && call.stage == Rereading(0)
    requires Mutates(mutate, w.requestName, call.task) && Others(env, c)
    ensures to(w, w') && |others| == MAX_TRIES
    ensures var r := Retried(mutate, w.hist, |w.hist| - 1, others);
      w'.hist == r.versions && CallIs(w', c, Ended(call, r))
  {
    var w1 := RereadOnce(to, w, c, call, 0);
    w', others := RetryRuns(to, w1, c, call.(stage := Patching(0), base := |w.hist| - 1), 0, mutate, env);
  }

  // ---- EnsureChildren ----------------------------------------------------------------------------------------

  /** Call `c` is at this stage of this task, holding version `base`. */
  ghost predicate CallAt(w: World, c: nat, task: Task, stage: Stage, base: nat) {
    c < |w.calls| && w.calls[c].task == task && w.calls[c].stage == stage && w.calls[c].base == base && base < |w.hist|
  }

  /** The steps of an undisturbed walk over the children, from child `next` on. */
  lemma {:induction false} EnsuringRuns(to: Relation, w: World, c: nat, task: Task, next: nat, base: nat, objects: map<Ref, seq<Owner>>)
    returns (w': World)
    requires Linked(to) && WellFormed(w) && CallAt(w, c, task, Ensuring(next), base) && task.Children?
    requires next <= |task.desired| && Ensured(objects, task.desired, w.me, next) == (w.objects, true)
    ensures to(w, w') && w'.hist == w.hist && w'.me == w.me && w'.requestName == w.requestName
    ensures var (m, ok) := Ensured(objects, task.desired, w.me, |task.desired|);
      w'.objects == m && CallAt(w', c, task, if ok then Patching(0) else Done(ErrChild), base)
    decreases |task.desired| - next
  {
    var ok;
    w', ok := EnsureOnce(to, w, c, task, next, base);
    if next < |task.desired| {
      if ok {
        w' := EnsuringRuns(to, w', c, task, next + 1, base, objects);
      } else {
        EnsuredStays(objects, task.desired, w.me, next + 1, |task.desired|);
      }
    }
  }

  lemma EnsureOnce(to: Relation, w: World, c: nat, task: Task, next: nat, base: nat) returns (w': World, ok: bool)
    requires Linked(to) && WellFormed(w) && CallAt(w, c, task, Ensuring(next), base) && task.Children?
    requires next <= |task.desired|
    ensures to(w, w') && w'.hist == w.hist && w'.me == w.me && w'.requestName == w.requestName
    ensures next == |task.desired| ==> w'.objects == w.objects && CallAt(w', c, task, Patching(0), base)
    ensures next < |task.desired| ==> var spec := task.desired[next]; var owners := OwnersOf(w.objects, spec);
      && (ok <==> Adoptable(owners, w.me))
      && w'.objects == (if ok then w.objects[spec.ref := Adopted(owners, w.me)] else w.objects)
      && CallAt(w', c, task, if ok then Ensuring(next + 1) else Done(ErrChild), base)
  {
    OneStep(to, w, Advance(c));
    w' := Step(w, Advance(c));
    assert w' == EnsureNext(w, c, next);
    ok := next < |task.desired| && Adoptable(OwnersOf(w.objects, task.desired[next]), w.me);
  }

  lemma RefreshOnce(to: Relation, w: World, c: nat, task: Task, base: nat) returns (w': World, rejected: bool)
    requires Linked(to) && WellFormed(w) && CallAt(w, c, task, Refreshing, base) && task.Children?
    ensures to(w, w') && w'.objects == w.objects && SameNames(w, w') && w'.hist == w.hist
    ensures rejected == FrozenGrowth(Current(w), SpecRefs(task.desired), task.excluded)
    ensures CallAt(w', c, task, if rejected then Done(ErrFrozen) else Ensuring(0), |w.hist| - 1)
  {
    OneStep(to, w, Advance(c));
    w' := Step(w, Advance(c));
    assert w' == Refresh(w, c);
    rejected := FrozenGrowth(Current(w), SpecRefs(task.desired), task.excluded);
  }

  /** How the execution of a children call with the result `r` ends; `w1` is the world after the last child. */
  ghost predicate ChildrenEnds(w1: World, w': World, c: nat, task: Task, r: CallResult) {
    CallAt(w', c, task, Done(r.outcome), r.base) && w'.hist == r.versions && w1.objects == r.objects
  }

  /** From the first child on. */
  lemma AcceptedRuns(to: Relation, w: World, c: nat, task: Task, mutate: Closure, env: Strategy)
    returns (w1: World, w': World, during: seq<Snapshot>, others: seq<seq<Snapshot>>)
    requires Linked(to) && WellFormed(w) && CallAt(w, c, task, Ensuring(0), |w.hist| - 1) && task.Children?
    requires Mutates(mutate, w.requestName, task) && Others(env, c)
    ensures to(w, w1) && to(w1, w') && |others| == MAX_TRIES
    ensures ChildrenEnds(w1, w', c, task, Accepted(mutate, w.me, w.hist, w.objects, task.desired, during, others))
  {
    w1 := EnsuringRuns(to, w, c, task, 0, |w.hist| - 1, w.objects);
    w', during := TurnOfOthers(to, w1, c, env);
    if Ensured(w.objects, task.desired, w.me, |task.desired|).1 {
      w', others := RetryRuns(to, w', c, w'.calls[c], 0, mutate, env);
    } else {
      others := seq(MAX_TRIES, _ => []);
    }
  }

  lemma ChildrenCallLinks(to: Relation, w: World, c: nat, task: Task, base: nat, mutate: Closure,
      env: Strategy)
    returns (w1: World, w': World, during: seq<Snapshot>, others: seq<seq<Snapshot>>)
    requires Linked(to) && WellFormed(w) && CallAt(w, c, task, Refreshing, base) && task.Children?
    requires Mutates(mutate, w.requestName, task) && Others(env, c)
    ensures to(w, w1) && to(w1, w') && |others| == MAX_TRIES
    ensures var r := ChildrenCall(mutate, w.me, w.hist, w.objects, task.desired, task.excluded, during, others);
      ChildrenEnds(w1, w', c, task, r)
  {
    var rejected;
    w1, rejected := RefreshOnce(to, w, c, task, base);
    w', during, others := w1, [], seq(MAX_TRIES, _ => []);
    assert to(w1, w1);
    if !rejected {
      w1, w', during, others := AcceptedRuns(to, w1, c, task, mutate, env);
    }
    CallByCheck(mutate, w.me, w.hist, w.objects, task.desired, task.excluded, during, others, rejected);
  }

  lemma CallByCheck(mutate: Closure, me: Owner, versions: seq<Snapshot>, objects: map<Ref, seq<Owner>>,
      desired: seq<ChildSpec>, excluded: seq<Ref>, during: seq<Snapshot>, others: seq<seq<Snapshot>>, rejected: bool)
    requires versions != [] && others != [] && rejected == FrozenGrowth(versions[|versions| - 1], SpecRefs(desired), excluded)
    ensures ChildrenCall(mutate, me, versions, objects, desired, excluded, during, others) ==
      if rejected then CallResult(ErrFrozen, versions, objects, |versions| - 1)
      else Accepted(mutate, me, versions, objects, desired, during, others)
  {
  }

  /** The transition system executes EnsureChildren: whatever others do after the children are ensured and
      before each patch, call `c` has a run that ends with the outcome and the versions of the undivided
      execution among the versions these others store. */
  lemma ChildrenCallRuns(w: World, c: nat, task: Task, base: nat, mutate: Closure, env: Strategy)
    returns (w1: World, w': World, during: seq<Snapshot>, others: seq<seq<Snapshot>>)
    requires WellFormed(w) && CallAt(w, c, task, Refreshing, base) && task.Children?
    requires Mutates(mutate, w.requestName, task) && Others(env, c)
    ensures RunsTo(w, w1) && RunsTo(w1, w') && |others| == MAX_TRIES
    ensures var r := ChildrenCall(mutate, w.me, w.hist, w.objects, task.desired, task.excluded, during, others);
      ChildrenEnds(w1, w', c, task, r)
  {
    var to := RunsLinked();
    w1, w', during, others := ChildrenCallLinks(to, w, c, task, base, mutate, env);
  }

  // ---- Apply -------------------------------------------------------------------------------------------------

  /** How the execution of a status call with the result `r` ends. */
  ghost predicate StatusEnds(w': World, c: nat, task: Task, r: Retry) {
    CallAt(w', c, task, Done(if r.ok then Ok else ErrConflict), r.base) && w'.hist == r.versions
  }

  lemma StatusCallLinks(to: Relation, w: World, c: nat, call: Call, mutate: Closure, env: Strategy)
    returns (w': World, others: seq<seq<Snapshot>>)
    requires Linked(to) && WellFormed(w) && CallIs(w, c, call) && call.task.Status?
    requires Mutates(mutate, w.requestName, call.task) && Others(env, c)
    requires var (copy, t) := (w.hist[call.base], call.task);
      call.stage == if ExitsEarly(copy, t.phase, t.reason, t.message) then Done(Ok) else Rereading(0)
    ensures to(w, w') && |others| == MAX_TRIES
    ensures StatusEnds(w', c, call.task, StatusCall(mutate, w.hist, w.hist[call.base], call.base, call.task, others))
  {
    w', others := w, seq(MAX_TRIES, _ => []);
    assert to(w, w);
    if call.stage == Rereading(0) {
      w', others := ReadRetryRuns(to, w, c, call, mutate, env);
    }
  }

  /** The same for Apply, called on a copy of version `at`. */
  lemma StatusCallRuns(w: World, at: nat, phase: Phase, reason: string, message: string,
      mutate: Closure, env: Strategy)
    returns (w': World, others: seq<seq<Snapshot>>)
    requires WellFormed(w) && at < |w.hist| && Others(env, |w.calls|)
    requires var (r, m) := Decide(w.hist[at], phase, reason, message); Mutates(mutate, w.requestName, Status(phase, r, m))
    ensures RunsTo(w, w') && |others| == MAX_TRIES
    ensures var (r, m) := Decide(w.hist[at], phase, reason, message);
      StatusEnds(w', |w.calls|, Status(phase, r, m), StatusCall(mutate, w.hist, w.hist[at], at, Status(phase, r, m), others))
  {
    var to := RunsLinked();
    OneStep(to, w, StartStatus(at, phase, reason, message));
    var w0 := Step(w, StartStatus(at, phase, reason, message));
    w', others := StatusCallLinks(to, w0, |w.calls|, w0.calls[|w.calls|], mutate, env);
  }

  // ---- EnsureManifestCapture ---------------------------------------------------------------------------------

  lemma NamedRuns(to: Relation, w: World, c: nat, call: Call, reuse: bool, mutate: Closure, env: Strategy)
    returns (w': World, others: seq<seq<Snapshot>>)
    requires Linked(to) && WellFormed(w) && call.base < |w.hist| && CallIs(w, c, Adopt(w, call, reuse))
    requires Mutates(mutate, w.requestName, call.task) && Others(env, c)
    ensures to(w, w') && |others| == MAX_TRIES
    ensures var r := Named(mutate, w.requestName, w.hist, call.base, reuse, others);
      w'.hist == r.versions && CallIs(w', c, Ended(call, r))
  {
    w', others := w, seq(MAX_TRIES, _ => []);
    assert to(w, w);
    if w.hist[call.base].requestName != w.requestName {
      if reuse {
        w', others := RetryRuns(to, w, c, Adopt(w, call, reuse), 0, mutate, env);
      } else {
        w', others := ReadRetryRuns(to, w, c, Adopt(w, call, reuse), mutate, env);
      }
    }
  }

  /** How the execution of a manifest call with the result `r` ends; `w1` is the world right after the Create, if
      there is one. */
  ghost predicate ManifestEnds(w1: World, w': World, c: nat, task: Task, r: ManifestResult) {
    CallAt(w', c, task, Done(r.outcome), r.base) && w'.hist == r.versions && w1.request == r.request
  }

  /** The call is about to look into the cache. */
  ghost predicate AboutToProbe(w: World, c: nat, call: Call) {
    && WellFormed(w) && CallIs(w, c, call) && call.stage == Probing && call.task.Manifest? && call.existed == None
    && call.task.targets != [] && !Captured(w.hist[call.base])
  }

  /** After a cache hit. */
  lemma CachedRuns(to: Relation, w: World, c: nat, call: Call, probe: nat, mutate: Closure, env: Strategy)
    returns (w': World, others: seq<seq<Snapshot>>)
    requires Linked(to) && AboutToProbe(w, c, call) && probe < |w.created|
    requires Mutates(mutate, w.requestName, call.task) && Others(env, c)
    ensures to(w, w') && |others| == MAX_TRIES
    ensures var r := ManifestCall(mutate, w.requestName, w.hist, call.base, w.request, call.task.targets,
        Some(w.created[probe]), [], None, others);
      ManifestEnds(w, w', c, call.task, r)
  {
    OneStep(to, w, ProbeCache(c, Some(probe)));
    var w1 := Step(w, ProbeCache(c, Some(probe)));
    assert w1 == Probe(w, c, Some(probe));
    w', others := NamedRuns(to, w1, c, call.(existed := Some(w.created[probe])), false, mutate, env);
  }

  /** A cache miss: the probe and the refresh. */
  lemma MissRuns(to: Relation, w: World, c: nat, call: Call) returns (w': World)
    requires Linked(to) && WellFormed(w) && CallIs(w, c, call) && call.stage == Probing && call.task.Manifest?
    ensures to(w, w') && SameNames(w, w') && w'.hist == w.hist && w'.request == w.request
    ensures CallIs(w', c, call.(stage := if Captured(Current(w)) then Done(Ok) else Creating, base := |w.hist| - 1, reapsSeen := w.reaps))
  {
    OneStep(to, w, ProbeCache(c, None));
    var w1 := Step(w, ProbeCache(c, None));
    assert w1 == Probe(w, c, None);
    OneStep(to, w1, Advance(c));
    w' := Step(w1, Advance(c));
    assert w' == Refresh(w1, c);
  }

  /** The Create, which finds `found`, and what follows; `w1` is the world right after the Create. */
  lemma CreateRuns(to: Relation, w: World, c: nat, call: Call, mutate: Closure, env: Strategy)
    returns (w1: World, w': World, during: seq<Snapshot>, found: Option<Request>, others: seq<seq<Snapshot>>)
    requires Linked(to) && WellFormed(w) && CallIs(w, c, call) && call.stage == Creating && call.task.Manifest?
    requires Mutates(mutate, w.requestName, call.task) && Others(env, c)
    ensures to(w, w1) && to(w1, w') && |others| == MAX_TRIES
    ensures w1.request == Requested(found, call.task.targets)
    ensures var r := Named(mutate, w.requestName, w.hist + during, call.base, true, others);
      w'.hist == r.versions && CallIs(w', c, Ended(call, r))
  {
    var w0;
    w0, during := TurnOfOthers(to, w, c, env);
    found := w0.request;
    OneStep(to, w0, Advance(c));
    w1 := Step(w0, Advance(c));
    assert w1 == Create(w0, c);
    w', others := NamedRuns(to, w1, c, call, true, mutate, env);
  }

  lemma MissedRuns(to: Relation, w: World, c: nat, call: Call, mutate: Closure, env: Strategy)
    returns (w1: World, w': World, during: seq<Snapshot>, found: Option<Request>, others: seq<seq<Snapshot>>)
    requires Linked(to) && AboutToProbe(w, c, call) && Mutates(mutate, w.requestName, call.task) && Others(env, c)
    ensures to(w, w1) && to(w1, w') && |others| == MAX_TRIES
    ensures var r := ManifestCall(mutate, w.requestName, w.hist, call.base, w.request, call.task.targets, None, during, found, others);
      ManifestEnds(w1, w', c, call.task, r)
  {
    var w0 := MissRuns(to, w, c, call);
    w1, w', during, found, others := w0, w0, [], None, seq(MAX_TRIES, _ => []);
    assert to(w0, w0);
    if !Captured(Current(w)) {
      w1, w', during, found, others := CreateRuns(to, w0, c, w0.calls[c], mutate, env);
    }
  }

  /** The same for EnsureManifestCapture, called on a copy of version `at`, with a cache that shows the creation
      `probe` or none. */
  lemma ManifestCallRuns(w: World, at: nat, targets: seq<Ref>, probe: Option<nat>,
      mutate: Closure, env: Strategy)
    returns (w1: World, w': World, during: seq<Snapshot>, found: Option<Request>, others: seq<seq<Snapshot>>)
    requires WellFormed(w) && at < |w.hist| && (probe.Some? ==> probe.value < |w.created|)
    requires Mutates(mutate, w.requestName, Manifest(targets)) && Others(env, |w.calls|)
    ensures RunsTo(w, w1) && RunsTo(w1, w') && |others| == MAX_TRIES
    ensures var cached := if probe.Some? then Some(w.created[probe.value]) else None;
      var r := ManifestCall(mutate, w.requestName, w.hist, at, w.request, targets, cached, during, found, others);
      ManifestEnds(w1, w', |w.calls|, Manifest(targets), r)
  {
    var c := |w.calls|;
    var to := RunsLinked();
    OneStep(to, w, StartManifest(at, targets));
    w1 := Step(w, StartManifest(at, targets));
    assert to(w1, w1);
    w', during, found, others := w1, [], None, seq(MAX_TRIES, _ => []);
    if w1.calls[c].stage == Probing {
      if probe.Some? {
        w', others := CachedRuns(to, w1, c, w1.calls[c], probe.value, mutate, env);
      } else {
        var w0 := w1;
        w1, w', during, found, others := MissedRuns(to, w0, c, w0.calls[c], mutate, env);
      }
    }
  }
}
