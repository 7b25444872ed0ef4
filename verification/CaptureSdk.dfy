/** The capture SDK's operations as they run: an adapter object that is overwritten by reads and mutated
    by closures, and the optimistic-lock retry loop that commits it. */
module CaptureSdk {
  import opened Ordering
  import opened Refs
  import opened OwnerRef
  import opened CapturePhase
  import opened CaptureProtocol
  import opened CaptureCall

  /** The API server's copy: every stored version of the snapshot, the child objects, the capture request. */
  class Server {
    var versions: seq<Snapshot>
    var objects: map<Ref, seq<Owner>>
    var request: Option<Request>

    constructor (s: Snapshot)
      ensures versions == [s] && objects == map[] && request == None
    {
      versions := [s];
      objects := map[];
      request := None;
    }

    /** Versions stored by somebody else. */
    method Interfere(others: seq<Snapshot>)
      modifies this`versions
      ensures versions == old(versions) + others
    {
      versions := versions + others;
    }
  }

  datatype PatchResult = Committed(tries: nat) | Unchanged(tries: nat) | Conflict

  /** The adapter: the in-memory object and the resourceVersion it was read at. */
  class Adapter {
    var obj: Snapshot
    var version: nat

    constructor (s: Snapshot, at: nat)
      ensures obj == s && version == at
    {
      obj := s;
      version := at;
    }

    /** The copy is some version the server has stored. */
    ghost predicate CopyOf(server: Server)
      reads this, server
    {
      version < |server.versions| && obj == server.versions[version]
    }

    method Read(server: Server)
      requires server.versions != []
      modifies this
      ensures version == |server.versions| - 1 && CopyOf(server)
    {
      version := |server.versions| - 1;
      obj := server.versions[version];
    }

    /** The publication closure of EnsureChildren. */
    method MutateChildren(newRefs: seq<Ref>, newExcluded: seq<Ref>) returns (changed: bool)
      modifies this`obj
      ensures var next := PublishChildren(old(obj), newRefs, newExcluded);
        changed == next.Some? && obj == if changed then next.value else old(obj)
    {
      CanonDeterminedBySet(Canon(newExcluded), newExcluded);
      CanonSpec(newExcluded);
      var normal := NormalizeExcludedRefs(newExcluded);
      var merged := UnionRefs(obj.children, newRefs);
      var sameRefs := RefsEqualIgnoreOrder(obj.children, merged);
      var sameExcluded := ExcludedRefsEqualIgnoreOrder(obj.excluded, normal);
      if Frozen(obj.phase) && (!sameRefs || !sameExcluded) { return false; }
      if sameRefs && sameExcluded { return false; }
      obj := obj.(children := merged, excluded := normal);
      return true;
    }

    /** The closure of setPhase, with the monotone guard re-checked on the fresh object. */
    method MutatePhase(phase: Phase, reason: string, message: string) returns (changed: bool)
      modifies this`obj
      ensures var next := PublishPhase(old(obj), phase, reason, message);
        changed == next.Some? && obj == if changed then next.value else old(obj)
    {
      if !CanAdvance(obj.phase, phase) { return false; }
      if obj.phase == phase && obj.reason == reason && obj.message == message { return false; }
      obj := obj.(phase := phase, reason := reason, message := message);
      return true;
    }

    method MutateRequestName(name: string) returns (changed: bool)
      modifies this`obj
      ensures var next := PublishRequest(old(obj), name);
        changed == next.Some? && obj == if changed then next.value else old(obj)
    {
      if obj.requestName == name { return false; }
      obj := obj.(requestName := name);
      return true;
    }

    method Apply(requestName: string, task: Task) returns (changed: bool)
      modifies this`obj
      ensures var next := Mutate(requestName, task, old(obj));
        changed == next.Some? && obj == if changed then next.value else old(obj)
    {
      match task
      case Children(desired, excluded) =>
        var refs := seq(|desired|, i requires 0 <= i < |desired| => desired[i].ref);
        assert refs == SpecRefs(desired);
        changed := MutateChildren(Sort(RefLe, refs), excluded);
      case Status(phase, reason, message) => changed := MutatePhase(phase, reason, message);
      case Manifest(_) => changed := MutateRequestName(requestName);
    }
  }

  datatype Attempted = Same | Stored | Overtaken

  /** One attempt, starting from the copy at hand; `others` are stored between its read and its patch. */
  method Attempt(server: Server, a: Adapter, requestName: string, task: Task, others: seq<Snapshot>,
      ghost mutate: Closure)
    returns (r: Attempted)
    requires a.CopyOf(server) && Mutates(mutate, requestName, task)
    modifies a, server`versions
    ensures r == Same ==> server.versions == old(server.versions) && a.obj == old(a.obj) && a.version == old(a.version)
    ensures r == Same <==> mutate(old(a.obj)) == None
    ensures r == Stored ==> others == [] && old(a.version) == |old(server.versions)| - 1
    ensures r == Stored ==> server.versions == old(server.versions) + [a.obj] && BuiltOnLast(mutate, server.versions)
    ensures r == Stored ==> a.CopyOf(server) && a.version == |old(server.versions)| && mutate(old(a.obj)) == Some(a.obj)
    ensures r == Overtaken ==> server.versions == old(server.versions) + others
    ensures r == Overtaken ==> a.version == old(a.version)
    ensures r == Overtaken && others == [] ==> old(a.version) < |old(server.versions)| - 1
  {
    var base := a.version;
    assert Mutate(requestName, task, a.obj) == mutate(a.obj);
    var changed := a.Apply(requestName, task);
    if !changed { return Same; }
    server.Interfere(others);
    if base != |server.versions| - 1 { return Overtaken; }
    server.versions := server.versions + [a.obj];
    a.version := base + 1;
    return Stored;
  }

  /** patch.Status (`reuse` false) and patch.StatusFromCurrent (`reuse` true). `others[k]` are the versions
      somebody else stores between the read of attempt k and its patch. The loop is one atomic
      read-modify-write of the current version, taken at the first attempt nobody overtakes; it gives up
      exactly when every attempt is overtaken. */
  method PatchStatus(server: Server, a: Adapter, requestName: string, task: Task, reuse: bool, others: seq<seq<Snapshot>>,
      ghost mutate: Closure)
    returns (result: PatchResult)
    requires |others| == 5 && server.versions != [] && (reuse ==> a.CopyOf(server)) && Mutates(mutate, requestName, task)
    modifies a, server`versions
    ensures Retry(server.versions, a.version, !result.Conflict?) ==
      Retried(mutate, old(server.versions), if reuse then old(a.version) else |old(server.versions)| - 1, others)
    ensures !result.Conflict? ==> result.tries < MAX_TRIES
    ensures result.Committed? ==> others[result.tries] == [] && BuiltOnLast(mutate, server.versions)
    ensures result.Committed? ==> server.versions == old(server.versions) + Flat(others[..result.tries]) + [a.obj]
    ensures result.Unchanged? ==> server.versions == old(server.versions) + Flat(others[..result.tries])
    ensures result.Unchanged? ==> mutate(a.obj) == None
    ensures !result.Conflict? ==> a.CopyOf(server)
    ensures result.Unchanged? && (result.tries > 0 || !reuse) ==> a.version == |server.versions| - 1
    ensures result.Conflict? ==> server.versions == old(server.versions) + Flat(others)
    ensures result.Conflict? ==> forall k :: 0 < k < MAX_TRIES ==> others[k] != []
    ensures result.Conflict? && others[0] == [] ==> reuse && old(a.version) < |old(server.versions)| - 1
  {
    var first := reuse;
    ghost var was, base := server.versions, if reuse then a.version else |server.versions| - 1;
    for k := 0 to MAX_TRIES
      invariant server.versions == Before(was, others, k)
      invariant first == (k == 0 && reuse)
      invariant first ==> a.obj == old(a.obj) && a.version == old(a.version)
      invariant k > 0 ==> a.version == BaseAt(was, base, others, k - 1)
      invariant forall i :: 0 <= i < k ==> ConflictsAt(mutate, was, base, others, i)
    {
      if first {
        first := false;
      } else {
        a.Read(server);
      }
      assert a.version == BaseAt(was, base, others, k);
      var r := Attempt(server, a, requestName, task, others[k], mutate);
      if r != Overtaken {
        RetriedEnds(mutate, was, base, others, k);
        return if r == Same then Unchanged(k) else Committed(k);
      }
      BeforeNext(was, others, k);
    }
    RetriedAfter(mutate, was, base, others, MAX_TRIES);
    Overtakings(mutate, was, base, others);
    assert others[..MAX_TRIES] == others;
    return Conflict;
  }

  /** The fluent status writer. Its Apply decides on the adapter's copy, however old, and reaches the server
      only when the copy does not rule the write out. */
  class StatusWriter {
    var phase: Phase
    var reason: string
    var message: string

    constructor ()
      ensures phase == Other("") && reason == "" && message == ""
    {
      phase, reason, message := Other(""), "", "";
    }

    method SetPhase(p: Phase)
      modifies this`phase
      ensures phase == p
    {
      phase := p;
    }

    method SetReason(r: string)
      modifies this`reason
      ensures reason == r
    {
      reason := r;
    }

    method SetMessage(m: string)
      modifies this`message
      ensures message == m
    {
      message := m;
    }

    method Apply(server: Server, a: Adapter, requestName: string, others: seq<seq<Snapshot>>, ghost mutate: Closure)
      returns (result: Option<PatchResult>)
      requires |others| == MAX_TRIES && server.versions != []
      requires var (r, m) := Decide(a.obj, phase, reason, message); Mutates(mutate, requestName, Status(phase, r, m))
      modifies a, server`versions
      ensures var (r, m) := Decide(old(a.obj), phase, reason, message);
        && Retry(server.versions, a.version, result != Some(Conflict)) ==
             StatusCall(mutate, old(server.versions), old(a.obj), old(a.version), Status(phase, r, m), others)
        && (result == None <==> ExitsEarly(old(a.obj), phase, r, m))
        && (result == None ==> server.versions == old(server.versions) && a.obj == old(a.obj))
        && (result.Some? && result.value.Committed? ==>
              && result.value.tries < MAX_TRIES
              && server.versions == old(server.versions) + Flat(others[..result.value.tries]) + [a.obj]
              && |server.versions| >= 2
              && Mutate(requestName, Status(phase, r, m), server.versions[|server.versions| - 2]) == Some(a.obj))
        && (result.Some? && result.value.Unchanged? ==>
              result.value.tries < MAX_TRIES && server.versions == old(server.versions) + Flat(others[..result.value.tries]))
        && (result.Some? && result.value.Conflict? ==> server.versions == old(server.versions) + Flat(others))
    {
      var r, m := reason, message;
      if phase.Planned? || phase.Finished? {
        if a.obj.phase != phase {
          r := "";
          m := "";
        }
      }
      if !CanAdvance(a.obj.phase, phase) || (a.obj.phase == phase && a.obj.reason == r && a.obj.message == m) {
        return None;
      }
      var p := PatchStatus(server, a, requestName, Status(phase, r, m), false, others, mutate);
      if p.Committed? {
        ghost var was := server.versions[|server.versions| - 2];
        assert Mutate(requestName, Status(phase, r, m), was) == mutate(was);
      }
      return Some(p);
    }
  }

  // ---- children.Reconcile ---------------------------------------------------------------------------------

  /** ensureChild: get or create, then adopt unless that would be theft. */
  method EnsureChild(server: Server, me: Owner, spec: ChildSpec) returns (ok: bool)
    modifies server`objects
    ensures ok <==> Adoptable(OwnersOf(old(server.objects), spec), me)
    ensures server.objects ==
      if ok then old(server.objects)[spec.ref := Adopted(OwnersOf(old(server.objects), spec), me)] else old(server.objects)
    ensures spec.ref in old(server.objects) ==> JoinedUnlessTheft(old(server.objects)[spec.ref], server.objects[spec.ref], me, ok)
    ensures spec.ref !in old(server.objects) && ok ==> JoinedUnlessTheft(spec.owners, server.objects[spec.ref], me, ok)
    ensures spec.ref !in old(server.objects) && !ok ==> HasTheft(spec.owners, me)
  {
    var owners := spec.owners;
    if spec.ref in server.objects { owners := server.objects[spec.ref]; }
    AdoptsExactly(owners, me);
    var out := OwnerRef.Ensure(owners, me);
    if out == None { return false; }
    server.objects := server.objects[spec.ref := out.value];
    return true;
  }

  /** All children in order, up to the first theft. */
  method Reconcile(server: Server, me: Owner, desired: seq<ChildSpec>) returns (refs: Option<seq<Ref>>)
    modifies server`objects
    ensures (server.objects, refs.Some?) == Ensured(old(server.objects), desired, me, |desired|)
    ensures refs.Some? ==> refs.value == Sort(RefLe, SpecRefs(desired))
    ensures HeldStay(old(server.objects), server.objects, desired, me, refs.Some?)
  {
    var newRefs := [];
    for i := 0 to |desired|
      invariant Ensured(old(server.objects), desired, me, i) == (server.objects, true)
      invariant newRefs == SpecRefs(desired[..i])
    {
      var ok := EnsureChild(server, me, desired[i]);
      if !ok {
        EnsuredStays(old(server.objects), desired, me, i + 1, |desired|);
        PassKeepsHeld(old(server.objects), desired, me);
        return None;
      }
      newRefs := newRefs + [desired[i].ref];
      assert desired[..i + 1] == desired[..i] + [desired[i]];
    }
    assert desired[..|desired|] == desired;
    PassKeepsHeld(old(server.objects), desired, me);
    return Some(Sort(RefLe, newRefs));
  }

  method PreCheck(cur: Snapshot, refs: seq<Ref>, excluded: seq<Ref>) returns (rejected: bool)
    ensures rejected == FrozenGrowth(cur, refs, excluded)
  {
    if !Frozen(cur.phase) { return false; }
    var newExcluded := NormalizeExcludedRefs(excluded);
    var union := UnionRefs(cur.children, refs);
    var sameRefs := RefsEqualIgnoreOrder(cur.children, union);
    var sameExcluded := ExcludedRefsEqualIgnoreOrder(cur.excluded, newExcluded);
    return !sameRefs || !sameExcluded;
  }

  /** EnsureChildren after its pre-check, on the copy it has just read. */
  method EnsureAccepted(server: Server, a: Adapter, me: Owner, requestName: string, desired: seq<ChildSpec>, excluded: seq<Ref>,
                        during: seq<Snapshot>, others: seq<seq<Snapshot>>, ghost mutate: Closure)
    returns (outcome: Outcome)
    requires |others| == 5 && a.CopyOf(server) && a.version == |server.versions| - 1
    requires Mutates(mutate, requestName, Children(desired, excluded))
    modifies a, server
    ensures CallResult(outcome, server.versions, server.objects, a.version) ==
      Accepted(mutate, me, old(server.versions), old(server.objects), desired, during, others)
    ensures outcome == Ok ==> a.CopyOf(server)
  {
    ghost var was := server.objects;
    var newRefs := Reconcile(server, me, desired);
    assert Ensured(was, desired, me, |desired|) == (server.objects, newRefs.Some?);
    server.Interfere(during);
    if newRefs == None { return ErrChild; }
    var p := PatchStatus(server, a, requestName, Children(desired, excluded), true, others, mutate);
    return if p.Conflict? then ErrConflict else Ok;
  }

  /** EnsureChildren: authoritative read, freeze pre-check, create-or-adopt, publish. `during` are versions
      stored by others while the children are being created. A frozen growth writes nothing anywhere. A
      success has ensured every child, and ends on a copy of a stored version that publishes the call's refs
      and exclusions - unless that copy is frozen and does not, and the write was dropped. */
  method EnsureChildren(server: Server, a: Adapter, me: Owner, requestName: string, desired: seq<ChildSpec>, excluded: seq<Ref>,
                        during: seq<Snapshot>, others: seq<seq<Snapshot>>, ghost mutate: Closure)
    returns (outcome: Outcome)
    requires |others| == MAX_TRIES && server.versions != [] && Mutates(mutate, requestName, Children(desired, excluded))
    modifies a, server
    ensures CallResult(outcome, server.versions, server.objects, a.version) ==
      ChildrenCall(mutate, me, old(server.versions), old(server.objects), desired, excluded, during, others)
    ensures outcome == Ok ==> a.CopyOf(server)
    ensures outcome == Ok ==> SettlesOn(a.obj, desired, excluded)
  {
    a.Read(server);
    var desiredRefs := seq(|desired|, i requires 0 <= i < |desired| => desired[i].ref);
    assert desiredRefs == SpecRefs(desired);
    var rejected := PreCheck(a.obj, desiredRefs, excluded);
    if rejected { return ErrFrozen; }
    outcome := EnsureAccepted(server, a, me, requestName, desired, excluded, during, others, mutate);
    ChildrenCallSettles(mutate, requestName, me, old(server.versions), old(server.objects), desired, excluded, during, others);
  }

  // ---- the manifest leg -------------------------------------------------------------------------------------

  /** Create tolerates AlreadyExists. */
  method CreateRequest(server: Server, targets: seq<Ref>)
    modifies server`request
    ensures server.request == if old(server.request) == None then Some(Request(CanonTargets(targets), "")) else old(server.request)
  {
    if server.request == None {
      var canonical := Targets(targets);
      server.request := Some(Request(canonical, ""));
    }
  }

  /** The request name is published unless the copy at hand already shows it. */
  method PublishRequestName(server: Server, a: Adapter, requestName: string, targets: seq<Ref>, reuse: bool, others: seq<seq<Snapshot>>,
                            ghost mutate: Closure)
    returns (ok: bool)
    requires |others| == MAX_TRIES && server.versions != [] && a.CopyOf(server) && Mutates(mutate, requestName, Manifest(targets))
    modifies a, server`versions
    ensures Retry(server.versions, a.version, ok) == Named(mutate, requestName, old(server.versions), old(a.version), reuse, others)
    ensures old(server.versions) <= server.versions
    ensures ok ==> a.CopyOf(server) && a.obj.requestName == requestName
    ensures old(a.obj).requestName == requestName ==> ok && server.versions == old(server.versions) && a.obj == old(a.obj)
    ensures !ok <==> AlwaysOvertaken(mutate, requestName, old(server.versions), old(a.version), reuse, others)
    ensures !ok ==> server.versions == old(server.versions) + Flat(others)
  {
    if a.obj.requestName == requestName { return true; }
    NamedMeans(mutate, requestName, server.versions, a.version, reuse, targets, others);
    var p := PatchStatus(server, a, requestName, Manifest(targets), reuse, others, mutate);
    ok := !p.Conflict?;
  }

  /** EnsureManifestCapture. `cached` is the request as the informer cache shows it; between the refresh and
      the Create others store `during`, and leave the request as `found`. The request is created only after
      a cache miss, never when the authoritative copy is latched, and an existing request is never changed;
      drift is reported exactly when the cached request denotes another set. */
  method EnsureManifestCapture(server: Server, a: Adapter, requestName: string, targets: seq<Ref>, cached: Option<seq<Ref>>,
                               during: seq<Snapshot>, found: Option<Request>, others: seq<seq<Snapshot>>,
                               ghost mutate: Closure)
    returns (outcome: Outcome)
    requires |others| == MAX_TRIES && a.CopyOf(server) && Mutates(mutate, requestName, Manifest(targets))
    modifies a, server
    ensures ManifestResult(outcome, server.versions, server.request, a.version) ==
      ManifestCall(mutate, requestName, old(server.versions), old(a.version), old(server.request), targets, cached, during, found, others)
    ensures Captured(old(a.obj)) ==> outcome == Ok
    ensures outcome == ErrEmptyManifest <==> !Captured(old(a.obj)) && targets == []
    ensures Captured(old(a.obj)) || targets == [] ==> server.versions == old(server.versions) && server.request == old(server.request)
    ensures cached.Some? ==> server.request == old(server.request)
    ensures Captured(old(server.versions)[|old(server.versions)| - 1]) ==> server.request == old(server.request)
    ensures found.Some? ==> server.request == old(server.request) || server.request == found
    ensures server.request == old(server.request) || server.request == Requested(found, targets)
    ensures outcome == ErrDrift ==> cached.Some? && !SameTargets(cached.value, targets)
    ensures outcome == Ok && cached.Some? && !Captured(old(a.obj)) ==> SameTargets(cached.value, targets)
    ensures outcome == ErrDrift || (outcome == Ok && cached.Some? && !Captured(old(a.obj))) ==> a.obj.requestName == requestName
    ensures outcome == Ok && !Captured(old(a.obj)) && !Captured(old(server.versions)[|old(server.versions)| - 1]) ==>
              a.obj.requestName == requestName && (cached == None ==> server.request.Some?)
    ensures old(server.versions) <= server.versions && (outcome != ErrConflict ==> a.CopyOf(server))
    ensures outcome in {Ok, ErrEmptyManifest, ErrDrift, ErrConflict}
  {
    if a.obj.captured == Some(true) { return Ok; }
    if targets == [] { return ErrEmptyManifest; }
    if cached == None {
      a.Read(server);
      if a.obj.captured == Some(true) { return Ok; }
      server.Interfere(during);
      server.request := found;
      CreateRequest(server, targets);
    }
    var ok := PublishRequestName(server, a, requestName, targets, cached == None, others, mutate);
    if !ok { return ErrConflict; }
    if cached.Some? {
      var same := SameSet(cached.value, targets);
      if !same { return ErrDrift; }
    }
    return Ok;
  }
}
