/** What one undivided execution of an SDK call computes. */
module CaptureCall {
  import opened Ordering
  import opened Refs
  import opened OwnerRef
  import opened CapturePhase
  import opened CaptureProtocol

  // ---- the retry loop ------------------------------------------------------------------------------------

  /** A mutation closure: None when it reports "unchanged". */
  type Closure = Snapshot -> Option<Snapshot>

  datatype Retry = Retry(versions: seq<Snapshot>, base: nat, ok: bool)

  /** `mutate` is the mutation closure of the task; every task has one. */
  ghost predicate Mutates(mutate: Closure, requestName: string, task: Task) {
    forall s {:trigger Mutate(requestName, task, s)} :: mutate(s) == Mutate(requestName, task, s)
  }

  lemma ClosureOf(requestName: string, task: Task) returns (mutate: Closure)
    ensures Mutates(mutate, requestName, task)
  {
    mutate := s => Mutate(requestName, task, s);
  }

  /** The remaining attempts, the first on a copy of version `base`; `others[0]` are the versions somebody else
      stores before its patch arrives, `others[1]` those before the next one's. */
  ghost function Retried(mutate: Closure, versions: seq<Snapshot>, base: nat, others: seq<seq<Snapshot>>): Retry
    requires base < |versions| && others != []
    decreases |others|
  {
    match mutate(versions[base])
    case None => Retry(versions, base, true)
    case Some(next) =>
      if others[0] == [] && base == |versions| - 1 then Retry(versions + [next], |versions|, true)
      else
        var grown := versions + others[0];
        if |others| == 1 then Retry(grown, base, false) else Retried(mutate, grown, |grown| - 1, others[1..])
  }

  /** One attempt of the loop. */
  lemma RetriedOnce(mutate: Closure, versions: seq<Snapshot>, base: nat, added: seq<Snapshot>, more: seq<seq<Snapshot>>)
    requires base < |versions|
    ensures var r := Retried(mutate, versions, base, [added] + more); var next := mutate(versions[base]);
      && (next == None ==> r == Retry(versions, base, true))
      && (next.Some? && added == [] && base == |versions| - 1 ==> r == Retry(versions + [next.value], |versions|, true))
      && (next.Some? && !(added == [] && base == |versions| - 1) ==>
            r == if more == [] then Retry(versions + added, base, false)
                 else Retried(mutate, versions + added, |versions + added| - 1, more))
  {
    assert ([added] + more)[1..] == more;
  }

  /** The versions when attempt k reads, and the version it works on. */
  ghost function Before(versions: seq<Snapshot>, others: seq<seq<Snapshot>>, k: nat): seq<Snapshot>
    requires k <= |others|
  {
    versions + Flat(others[..k])
  }

  ghost function BaseAt(versions: seq<Snapshot>, base: nat, others: seq<seq<Snapshot>>, k: nat): nat
    requires base < |versions| && k <= |others|
  {
    if k == 0 then base else |Before(versions, others, k)| - 1
  }

  /** Attempt k has a patch to send and is overtaken. */
  ghost predicate ConflictsAt(mutate: Closure, versions: seq<Snapshot>, base: nat, others: seq<seq<Snapshot>>, k: nat)
    requires base < |versions| && k < |others|
  {
    var now, at := Before(versions, others, k), BaseAt(versions, base, others, k);
    mutate(now[at]).Some? && !(others[k] == [] && at == |now| - 1)
  }

  lemma BeforeNext(versions: seq<Snapshot>, others: seq<seq<Snapshot>>, k: nat)
    requires k < |others|
    ensures Before(versions, others, k + 1) == Before(versions, others, k) + others[k]
  {
    assert others[..k + 1] == others[..k] + [others[k]];
    FlatSnoc(others[..k], others[k]);
  }

  /** The loop after k conflicts. */
  lemma {:induction false} RetriedAfter(mutate: Closure, versions: seq<Snapshot>, base: nat, others: seq<seq<Snapshot>>, k: nat)
    requires base < |versions| && k <= |others| && others != []
    requires forall i :: 0 <= i < k ==> ConflictsAt(mutate, versions, base, others, i)
    ensures Retried(mutate, versions, base, others) ==
      if k < |others| then Retried(mutate, Before(versions, others, k), BaseAt(versions, base, others, k), others[k..])
      else Retry(Before(versions, others, k), BaseAt(versions, base, others, k - 1), false)
  {
    if k == 0 {
      assert Before(versions, others, 0) == versions && others[0..] == others;
    } else {
      RetriedAfter(mutate, versions, base, others, k - 1);
      BeforeNext(versions, others, k - 1);
      assert others[k - 1..] == [others[k - 1]] + others[k..];
      assert ConflictsAt(mutate, versions, base, others, k - 1);
      RetriedOnce(mutate, Before(versions, others, k - 1), BaseAt(versions, base, others, k - 1), others[k - 1], others[k..]);
    }
  }

  /** Who overtakes: others between read and patch, or, for the first attempt, before a copy at hand was used. */
  lemma Overtakings(mutate: Closure, versions: seq<Snapshot>, base: nat, others: seq<seq<Snapshot>>)
    requires base < |versions| && forall i :: 0 <= i < |others| ==> ConflictsAt(mutate, versions, base, others, i)
    ensures forall k :: 0 < k < |others| ==> others[k] != []
    ensures others != [] && others[0] == [] ==> base < |versions| - 1
  {
    forall k | 0 < k < |others| ensures others[k] != [] {
      assert ConflictsAt(mutate, versions, base, others, k);
    }
    if others != [] {
      assert ConflictsAt(mutate, versions, base, others, 0) && Before(versions, others, 0) == versions;
    }
  }

  /** The loop when attempt k is the first that does not conflict. */
  lemma RetriedEnds(mutate: Closure, versions: seq<Snapshot>, base: nat, others: seq<seq<Snapshot>>, k: nat)
    requires base < |versions| && k < |others|
    requires forall i :: 0 <= i < k ==> ConflictsAt(mutate, versions, base, others, i)
    ensures var now, at := Before(versions, others, k), BaseAt(versions, base, others, k); var next := mutate(now[at]);
      && (next == None ==> Retried(mutate, versions, base, others) == Retry(now, at, true))
      && (next.Some? && others[k] == [] && at == |now| - 1 ==>
            Retried(mutate, versions, base, others) == Retry(now + [next.value], |now|, true))
  {
    RetriedAfter(mutate, versions, base, others, k);
    assert others[k..] == [others[k]] + others[k + 1..];
    RetriedOnce(mutate, Before(versions, others, k), BaseAt(versions, base, others, k), others[k], others[k + 1..]);
  }

  lemma {:induction false} FirstCalm(mutate: Closure, versions: seq<Snapshot>, base: nat, others: seq<seq<Snapshot>>, n: nat)
    returns (k: nat)
    requires base < |versions| && n < |others| && !ConflictsAt(mutate, versions, base, others, n)
    ensures k <= n && !ConflictsAt(mutate, versions, base, others, k)
    ensures forall i :: 0 <= i < k ==> ConflictsAt(mutate, versions, base, others, i)
    decreases n
  {
    k := n;
    if i :| 0 <= i < n && !ConflictsAt(mutate, versions, base, others, i) {
      k := FirstCalm(mutate, versions, base, others, i);
    }
  }

  ghost predicate EveryAttemptConflicts(mutate: Closure, versions: seq<Snapshot>, base: nat, others: seq<seq<Snapshot>>)
    requires base < |versions|
  {
    forall k :: 0 <= k < |others| ==> ConflictsAt(mutate, versions, base, others, k)
  }

  /** The loop gives up exactly when every attempt has a patch to send and is overtaken. */
  lemma RetriedFailsExactly(mutate: Closure, versions: seq<Snapshot>, base: nat, others: seq<seq<Snapshot>>)
    requires base < |versions| && others != []
    ensures !Retried(mutate, versions, base, others).ok <==> EveryAttemptConflicts(mutate, versions, base, others)
  {
    if n :| 0 <= n < |others| && !ConflictsAt(mutate, versions, base, others, n) {
      var k := FirstCalm(mutate, versions, base, others, n);
      RetriedEnds(mutate, versions, base, others, k);
    } else {
      RetriedAfter(mutate, versions, base, others, |others|);
    }
  }

  /** The last version was computed from the one right before it: nobody's update was lost. */
  ghost predicate BuiltOnLast(mutate: Closure, versions: seq<Snapshot>) {
    |versions| >= 2 && mutate(versions[|versions| - 2]) == Some(versions[|versions| - 1])
  }

  /** A stored version that needs no change, or that was just built on the one before it. */
  ghost predicate Ends(mutate: Closure, versions: seq<Snapshot>, base: nat) {
    base < |versions| && (mutate(versions[base]) == None || (base == |versions| - 1 && BuiltOnLast(mutate, versions)))
  }

  /** The loop only adds versions. It gives up after the last attempt, having stored nothing itself. */
  lemma {:induction false} RetriedMeans(mutate: Closure, versions: seq<Snapshot>, base: nat, others: seq<seq<Snapshot>>)
    requires base < |versions| && others != []
    ensures var r := Retried(mutate, versions, base, others);
      && versions <= r.versions
      && (r.ok ==> Ends(mutate, r.versions, r.base))
      && (!r.ok ==> r.versions == versions + Flat(others))
    decreases |others|
  {
    assert others == [others[0]] + others[1..];
    FlatCons(others[0], others[1..]);
    var grown := versions + others[0];
    if mutate(versions[base]).Some? && !(others[0] == [] && base == |versions| - 1) {
      if |others| == 1 {
        assert others[1..] == [];
      } else {
        RetriedMeans(mutate, grown, |grown| - 1, others[1..]);
        assert versions + (others[0] + Flat(others[1..])) == grown + Flat(others[1..]);
      }
    }
  }

  // ---- the children ----------------------------------------------------------------------------------------

  /** The child objects after the first `n` specs, and whether all of these could be adopted; nothing happens
      after the first theft. */
  ghost function Ensured(objects: map<Ref, seq<Owner>>, desired: seq<ChildSpec>, me: Owner, n: nat): (map<Ref, seq<Owner>>, bool)
    requires n <= |desired|
  {
    if n == 0 then (objects, true)
    else
      var (m, ok) := Ensured(objects, desired, me, n - 1);
      var spec := desired[n - 1];
      if ok && Adoptable(OwnersOf(m, spec), me) then (m[spec.ref := Adopted(OwnersOf(m, spec), me)], true) else (m, false)
  }

  lemma {:induction false} EnsuredStays(objects: map<Ref, seq<Owner>>, desired: seq<ChildSpec>, me: Owner, n: nat, k: nat)
    requires n <= k <= |desired| && !Ensured(objects, desired, me, n).1
    ensures Ensured(objects, desired, me, k) == Ensured(objects, desired, me, n)
  {
    if n < k { EnsuredStays(objects, desired, me, n, k - 1); }
  }

  /** `m` is `objects` with the refs added or changed, each owned by `me`; other objects keep their owners. */
  ghost predicate OnlyAdopts(objects: map<Ref, seq<Owner>>, m: map<Ref, seq<Owner>>, refs: seq<Ref>, me: Owner) {
    && m.Keys == objects.Keys + Elems(refs)
    && (forall r :: r in objects && r !in refs ==> m[r] == objects[r])
    && (forall r :: r in refs ==> r in m && me in m[r])
  }

  lemma AdoptsOneMore(objects: map<Ref, seq<Owner>>, m: map<Ref, seq<Owner>>, refs: seq<Ref>, me: Owner, r: Ref, owners: seq<Owner>)
    requires OnlyAdopts(objects, m, refs, me) && me in owners
    ensures OnlyAdopts(objects, m[r := owners], refs + [r], me)
  {
  }

  /** Nothing is ever deleted or taken over: objects outside the desired set keep their owners, and every
      desired object ends up owned by this snapshot. */
  lemma {:induction false} ReconcileKeepsForeign(objects: map<Ref, seq<Owner>>, desired: seq<ChildSpec>, me: Owner, n: nat)
    requires n <= |desired| && Ensured(objects, desired, me, n).1
    ensures OnlyAdopts(objects, Ensured(objects, desired, me, n).0, SpecRefs(desired[..n]), me)
  {
    if n > 0 {
      ReconcileKeepsForeign(objects, desired, me, n - 1);
      var spec, m := desired[n - 1], Ensured(objects, desired, me, n - 1).0;
      var adopted := Adopted(OwnersOf(m, spec), me);
      assert SpecRefs(desired[..n]) == SpecRefs(desired[..n - 1]) + [spec.ref];
      AdoptionIsIdempotent(OwnersOf(m, spec), me);
      AdoptsOneMore(objects, m, SpecRefs(desired[..n - 1]), me, spec.ref, adopted);
      assert Ensured(objects, desired, me, n).0 == m[spec.ref := adopted];
    }
  }

  // ---- no theft -----------------------------------------------------------------------------------------------

  /** Child k cannot be had: the object that is there, or else the first template of its name, carries a
      reference that adoption would override. */
  ghost predicate Refusing(objects: map<Ref, seq<Owner>>, desired: seq<ChildSpec>, me: Owner, k: nat)
    requires k < |desired|
  {
    if desired[k].ref in objects then HasTheft(objects[desired[k].ref], me)
    else (forall j :: 0 <= j < k ==> desired[j].ref != desired[k].ref) && HasTheft(desired[k].owners, me)
  }

  /** What a pass over the children may do to the objects that were there: leave one alone, or join this owner
      to the references of a desired one that nobody else holds. */
  ghost predicate NothingStolen(objects: map<Ref, seq<Owner>>, m: map<Ref, seq<Owner>>, refs: seq<Ref>, me: Owner) {
    && objects.Keys <= m.Keys <= objects.Keys + Elems(refs)
    && forall r :: r in objects ==>
         m[r] == objects[r] || (r in refs && Joined(objects[r], m[r], me) && !HasTheft(objects[r], me))
  }

  /** The references of one object on the way: as they were, or adopted once. */
  ghost predicate AtMostAdopted(objects: map<Ref, seq<Owner>>, m: map<Ref, seq<Owner>>, refs: seq<Ref>, me: Owner, r: Ref)
    requires r in objects
  {
    r in m && (m[r] == objects[r] || (r in refs && Adoptable(objects[r], me) && m[r] == Adopted(objects[r], me)))
  }

  /** Child k is had. */
  ghost predicate Held(objects: map<Ref, seq<Owner>>, desired: seq<ChildSpec>, me: Owner, m: map<Ref, seq<Owner>>, k: nat)
    requires k < |desired|
  {
    var r := desired[k].ref;
    && r in m && Adoptable(m[r], me) && me in m[r] && !Refusing(objects, desired, me, k)
    && (r in objects ==> Adoptable(objects[r], me) && m[r] == Adopted(objects[r], me))
  }

  /** The pass after n children, while none was refused. */
  ghost predicate Passed(objects: map<Ref, seq<Owner>>, desired: seq<ChildSpec>, me: Owner, n: nat, m: map<Ref, seq<Owner>>)
    requires n <= |desired|
  {
    && objects.Keys <= m.Keys <= objects.Keys + Elems(SpecRefs(desired[..n]))
    && (forall r :: r in objects ==> AtMostAdopted(objects, m, SpecRefs(desired[..n]), me, r))
    && (forall k :: 0 <= k < n ==> Held(objects, desired, me, m, k))
  }

  lemma RefsSnoc(desired: seq<ChildSpec>, n: nat)
    requires n < |desired|
    ensures SpecRefs(desired[..n + 1]) == SpecRefs(desired[..n]) + [desired[n].ref]
  {
  }

  /** A child of n that was met before, or whose object is there, or that is new. */
  lemma PassOne(objects: map<Ref, seq<Owner>>, desired: seq<ChildSpec>, me: Owner, n: nat, m: map<Ref, seq<Owner>>)
    requires n < |desired| && Passed(objects, desired, me, n, m)
    ensures Adoptable(OwnersOf(m, desired[n]), me) <==> !Refusing(objects, desired, me, n)
    ensures desired[n].ref in objects ==>
              var r := desired[n].ref; r in m && (m[r] == objects[r] || m[r] == Adopted(objects[r], me))
  {
    var r := desired[n].ref;
    AdoptsExactly(OwnersOf(m, desired[n]), me);
    if r in objects {
      assert AtMostAdopted(objects, m, SpecRefs(desired[..n]), me, r);
      AdoptsExactly(objects[r], me);
      if m[r] != objects[r] { AdoptionIsIdempotent(objects[r], me); }
    } else if r in m {
      var k :| 0 <= k < n && SpecRefs(desired[..n])[k] == r;
      assert Held(objects, desired, me, m, k) && desired[k].ref == r;
    } else {
      forall j | 0 <= j < n ensures desired[j].ref != r { assert Held(objects, desired, me, m, j); }
    }
  }

  lemma AdoptedOnce(objects: map<Ref, seq<Owner>>, desired: seq<ChildSpec>, me: Owner, n: nat, m: map<Ref, seq<Owner>>)
    requires n < |desired| && Passed(objects, desired, me, n, m) && desired[n].ref in objects && Adoptable(m[desired[n].ref], me)
    ensures Adoptable(objects[desired[n].ref], me) && Adopted(m[desired[n].ref], me) == Adopted(objects[desired[n].ref], me)
  {
    var r := desired[n].ref;
    assert AtMostAdopted(objects, m, SpecRefs(desired[..n]), me, r);
    if m[r] != objects[r] { AdoptionIsIdempotent(objects[r], me); }
  }

  /** A child that is had stays had. */
  lemma HeldStays(objects: map<Ref, seq<Owner>>, desired: seq<ChildSpec>, me: Owner, n: nat, m: map<Ref, seq<Owner>>, k: nat)
    requires k < n < |desired| && Held(objects, desired, me, m, k) && Adoptable(OwnersOf(m, desired[n]), me)
    ensures Held(objects, desired, me, m[desired[n].ref := Adopted(OwnersOf(m, desired[n]), me)], k)
  {
    AdoptionIsIdempotent(OwnersOf(m, desired[n]), me);
    if desired[k].ref == desired[n].ref && desired[k].ref in objects { AdoptionIsIdempotent(objects[desired[k].ref], me); }
  }

  lemma HeldNow(objects: map<Ref, seq<Owner>>, desired: seq<ChildSpec>, me: Owner, n: nat, m: map<Ref, seq<Owner>>)
    requires n < |desired| && Passed(objects, desired, me, n, m) && Adoptable(OwnersOf(m, desired[n]), me)
    ensures Held(objects, desired, me, m[desired[n].ref := Adopted(OwnersOf(m, desired[n]), me)], n)
  {
    PassOne(objects, desired, me, n, m);
    AdoptionIsIdempotent(OwnersOf(m, desired[n]), me);
    if desired[n].ref in objects { AdoptedOnce(objects, desired, me, n, m); }
  }

  lemma PassMore(objects: map<Ref, seq<Owner>>, desired: seq<ChildSpec>, me: Owner, n: nat, m: map<Ref, seq<Owner>>)
    requires n < |desired| && Passed(objects, desired, me, n, m) && Adoptable(OwnersOf(m, desired[n]), me)
    ensures Passed(objects, desired, me, n + 1, m[desired[n].ref := Adopted(OwnersOf(m, desired[n]), me)])
  {
    var m' := m[desired[n].ref := Adopted(OwnersOf(m, desired[n]), me)];
    RefsSnoc(desired, n);
    HeldNow(objects, desired, me, n, m);
    forall k | 0 <= k < n ensures Held(objects, desired, me, m', k) {
      HeldStays(objects, desired, me, n, m, k);
    }
    forall x | x in objects ensures AtMostAdopted(objects, m', SpecRefs(desired[..n + 1]), me, x) {
      assert AtMostAdopted(objects, m, SpecRefs(desired[..n]), me, x);
    }
  }

  /** How far the pass gets. */
  lemma {:induction false} PassState(objects: map<Ref, seq<Owner>>, desired: seq<ChildSpec>, me: Owner, n: nat) returns (k: nat)
    requires n <= |desired|
    ensures k <= n && Passed(objects, desired, me, k, Ensured(objects, desired, me, n).0)
    ensures Ensured(objects, desired, me, n).1 ==> k == n
    ensures !Ensured(objects, desired, me, n).1 ==> k < n && Refusing(objects, desired, me, k)
  {
    if n == 0 {
      k := 0;
    } else {
      k := PassState(objects, desired, me, n - 1);
      var (m, ok) := Ensured(objects, desired, me, n - 1);
      if ok {
        PassOne(objects, desired, me, n - 1, m);
        if Adoptable(OwnersOf(m, desired[n - 1]), me) {
          PassMore(objects, desired, me, n - 1, m);
          k := n;
        }
      }
    }
  }

  lemma PassedStealsNothing(objects: map<Ref, seq<Owner>>, desired: seq<ChildSpec>, me: Owner, k: nat, m: map<Ref, seq<Owner>>)
    requires k <= |desired| && Passed(objects, desired, me, k, m)
    ensures NothingStolen(objects, m, SpecRefs(desired[..k]), me) && NothingStolen(objects, m, SpecRefs(desired), me)
    ensures forall i :: 0 <= i < k && desired[i].ref in objects ==> Joined(objects[desired[i].ref], m[desired[i].ref], me)
  {
    assert forall r :: r in SpecRefs(desired[..k]) ==> r in SpecRefs(desired) by {
      forall r | r in SpecRefs(desired[..k]) ensures r in SpecRefs(desired) {
        var i :| 0 <= i < k && SpecRefs(desired[..k])[i] == r;
        assert SpecRefs(desired)[i] == r;
      }
    }
    forall r | r in objects ensures m[r] == objects[r] || (r in SpecRefs(desired[..k]) && Joined(objects[r], m[r], me) && !HasTheft(objects[r], me)) {
      assert AtMostAdopted(objects, m, SpecRefs(desired[..k]), me, r);
      AdoptsExactly(objects[r], me);
    }
    forall i | 0 <= i < k && desired[i].ref in objects ensures Joined(objects[desired[i].ref], m[desired[i].ref], me) {
      assert Held(objects, desired, me, m, i);
      AdoptsExactly(objects[desired[i].ref], me);
    }
  }

  /** The pass ended at child k, which cannot be had: the children before it are had, and nothing else changed. */
  ghost predicate EndsAt(objects: map<Ref, seq<Owner>>, m: map<Ref, seq<Owner>>, desired: seq<ChildSpec>, me: Owner, k: nat)
    requires k < |desired|
  {
    && Refusing(objects, desired, me, k)
    && (forall j :: 0 <= j < k ==> !Refusing(objects, desired, me, j) && desired[j].ref in m && me in m[desired[j].ref])
    && NothingStolen(objects, m, SpecRefs(desired[..k]), me)
  }

  /** A pass over the children without theft: it is refused exactly when one of them cannot be had, and ends
      there; whether or not it is, an object held by another parent keeps its references and the others lose
      none; and if it is not, every desired object that was there has this owner joined to its references. */
  ghost predicate Fair(objects: map<Ref, seq<Owner>>, m: map<Ref, seq<Owner>>, desired: seq<ChildSpec>, me: Owner, ok: bool) {
    && (!ok <==> exists k :: 0 <= k < |desired| && Refusing(objects, desired, me, k))
    && (!ok ==> exists k :: 0 <= k < |desired| && EndsAt(objects, m, desired, me, k))
    && NothingStolen(objects, m, SpecRefs(desired), me)
    && (ok ==> forall k :: 0 <= k < |desired| ==>
          desired[k].ref in m && me in m[desired[k].ref]
          && (desired[k].ref in objects ==> Joined(objects[desired[k].ref], m[desired[k].ref], me)))
  }

  lemma PassIsFair(objects: map<Ref, seq<Owner>>, desired: seq<ChildSpec>, me: Owner)
    ensures var (m, ok) := Ensured(objects, desired, me, |desired|); Fair(objects, m, desired, me, ok)
  {
    var k := PassState(objects, desired, me, |desired|);
    var (m, ok) := Ensured(objects, desired, me, |desired|);
    PassedStealsNothing(objects, desired, me, k, m);
    forall i | 0 <= i < k ensures !Refusing(objects, desired, me, i) && desired[i].ref in m && me in m[desired[i].ref] {
      assert Held(objects, desired, me, m, i);
    }
    if !ok { assert EndsAt(objects, m, desired, me, k); }
  }

  /** An object that another parent holds keeps its references, and nobody who desires it succeeds. */
  ghost predicate HeldStay(objects: map<Ref, seq<Owner>>, m: map<Ref, seq<Owner>>, desired: seq<ChildSpec>, me: Owner, ok: bool) {
    && (forall r :: r in objects && HasTheft(objects[r], me) ==> r in m && m[r] == objects[r])
    && (forall k :: 0 <= k < |desired| && desired[k].ref in objects && HasTheft(objects[desired[k].ref], me) ==> !ok)
  }

  lemma PassKeepsHeld(objects: map<Ref, seq<Owner>>, desired: seq<ChildSpec>, me: Owner)
    ensures var (m, ok) := Ensured(objects, desired, me, |desired|); HeldStay(objects, m, desired, me, ok)
  {
    PassIsFair(objects, desired, me);
    forall k | 0 <= k < |desired| && desired[k].ref in objects && HasTheft(objects[desired[k].ref], me)
      ensures !Ensured(objects, desired, me, |desired|).1
    {
      assert Refusing(objects, desired, me, k);
    }
  }

  // ---- EnsureChildren ----------------------------------------------------------------------------------------

  /** `base` is the version the adapter holds at the end. */
  datatype CallResult = CallResult(outcome: Outcome, versions: seq<Snapshot>, objects: map<Ref, seq<Owner>>, base: nat)

  /** After the pre-check. */
  ghost function Accepted(mutate: Closure, me: Owner, versions: seq<Snapshot>, objects: map<Ref, seq<Owner>>,
      desired: seq<ChildSpec>, during: seq<Snapshot>, others: seq<seq<Snapshot>>): CallResult
    requires versions != [] && others != []
  {
    var (m, ok) := Ensured(objects, desired, me, |desired|);
    if !ok then CallResult(ErrChild, versions + during, m, |versions| - 1)
    else
      var r := Retried(mutate, versions + during, |versions| - 1, others);
      CallResult(if r.ok then Ok else ErrConflict, r.versions, m, r.base)
  }

  ghost function ChildrenCall(mutate: Closure, me: Owner, versions: seq<Snapshot>, objects: map<Ref, seq<Owner>>,
      desired: seq<ChildSpec>, excluded: seq<Ref>, during: seq<Snapshot>, others: seq<seq<Snapshot>>): CallResult
    requires versions != [] && others != []
  {
    if FrozenGrowth(versions[|versions| - 1], SpecRefs(desired), excluded) then CallResult(ErrFrozen, versions, objects, |versions| - 1)
    else Accepted(mutate, me, versions, objects, desired, during, others)
  }

  /** The version shows the call's refs and exclusions. */
  ghost predicate Publishes(s: Snapshot, desired: seq<ChildSpec>, excluded: seq<Ref>) {
    Elems(SpecRefs(desired)) <= Elems(s.children) && Elems(s.excluded) == Elems(excluded)
  }

  /** A copy on which a call can succeed: it publishes the call, or it is frozen and does not. */
  ghost predicate SettlesOn(s: Snapshot, desired: seq<ChildSpec>, excluded: seq<Ref>) {
    FrozenGrowth(s, SpecRefs(desired), excluded) || Publishes(s, desired, excluded)
  }

  /** What the publication closure leaves behind publishes the call, and so does a copy it leaves alone -
      unless it is frozen and would have to change. */
  lemma EndsPublished(mutate: Closure, requestName: string, versions: seq<Snapshot>, base: nat,
      desired: seq<ChildSpec>, excluded: seq<Ref>)
    requires Mutates(mutate, requestName, Children(desired, excluded)) && Ends(mutate, versions, base)
    ensures SettlesOn(versions[base], desired, excluded)
  {
    var task := Children(desired, excluded);
    if mutate(versions[base]) == None {
      assert Mutate(requestName, task, versions[base]) == None;
      UnchangedPublishes(versions[base], desired, excluded);
    } else {
      var was := versions[|versions| - 2];
      assert Mutate(requestName, task, was) == mutate(was) == Some(versions[base]);
      ChangedPublishes(was, desired, excluded);
    }
  }

  lemma UnchangedPublishes(s: Snapshot, desired: seq<ChildSpec>, excluded: seq<Ref>)
    requires PublishChildren(s, Sort(RefLe, SpecRefs(desired)), excluded) == None
    ensures FrozenGrowth(s, SpecRefs(desired), excluded) || Publishes(s, desired, excluded)
  {
    var refs := Sort(RefLe, SpecRefs(desired));
    RefOrder();
    SortSpec(RefLe, SpecRefs(desired));
    CanonSpec(excluded);
    GrowsExactly(s.children, refs);
    GrowsExactly(s.children, SpecRefs(desired));
  }

  lemma ChangedPublishes(s: Snapshot, desired: seq<ChildSpec>, excluded: seq<Ref>)
    requires PublishChildren(s, Sort(RefLe, SpecRefs(desired)), excluded).Some?
    ensures Publishes(PublishChildren(s, Sort(RefLe, SpecRefs(desired)), excluded).value, desired, excluded)
  {
    var refs := Sort(RefLe, SpecRefs(desired));
    RefOrder();
    SortSpec(RefLe, SpecRefs(desired));
    CanonSpec(excluded);
    CanonSpec(s.children + refs);
    ElemsConcat(s.children, refs);
  }

  /** The outcomes of EnsureChildren, exactly. A rejected growth has written nothing. A theft leaves the
      children before it ensured and stores no version. Otherwise every child is ensured; a conflict has
      stored nothing; and success ends on a stored version that publishes the call - or on a frozen one that
      does not, the write having been dropped. */
  lemma ChildrenCallMeans(mutate: Closure, me: Owner, versions: seq<Snapshot>, objects: map<Ref, seq<Owner>>,
      desired: seq<ChildSpec>, excluded: seq<Ref>, during: seq<Snapshot>, others: seq<seq<Snapshot>>)
    requires versions != [] && others != []
    ensures var r := ChildrenCall(mutate, me, versions, objects, desired, excluded, during, others);
      && (r.outcome == ErrFrozen <==> FrozenGrowth(versions[|versions| - 1], SpecRefs(desired), excluded))
      && (r.outcome == ErrFrozen ==> r.versions == versions && r.objects == objects)
      && (r.outcome == ErrChild <==> r.outcome != ErrFrozen && !Ensured(objects, desired, me, |desired|).1)
      && (r.outcome != ErrFrozen ==> r.objects == Ensured(objects, desired, me, |desired|).0)
      && (r.outcome == ErrChild ==> r.versions == versions + during)
      && (r.outcome == ErrConflict ==> r.versions == versions + during + Flat(others))
      && versions <= r.versions && r.outcome in {Ok, ErrFrozen, ErrChild, ErrConflict}
      && (r.outcome == Ok ==> Ends(mutate, r.versions, r.base))
  {
    RetriedMeans(mutate, versions + during, |versions| - 1, others);
  }

  /** The whole call steals nothing: a rejected one leaves every object alone, any other one is a pass over the
      children that is fair, and ErrChild means exactly that it was refused. */
  lemma ChildrenCallIsFair(mutate: Closure, me: Owner, versions: seq<Snapshot>, objects: map<Ref, seq<Owner>>,
      desired: seq<ChildSpec>, excluded: seq<Ref>, during: seq<Snapshot>, others: seq<seq<Snapshot>>)
    requires versions != [] && others != []
    ensures var r := ChildrenCall(mutate, me, versions, objects, desired, excluded, during, others);
      if r.outcome == ErrFrozen then r.objects == objects else Fair(objects, r.objects, desired, me, r.outcome != ErrChild)
  {
    ChildrenCallMeans(mutate, me, versions, objects, desired, excluded, during, others);
    PassIsFair(objects, desired, me);
  }

  /** The same for the closure of EnsureChildren. */
  lemma ChildrenCallSettles(mutate: Closure, requestName: string, me: Owner, versions: seq<Snapshot>,
      objects: map<Ref, seq<Owner>>, desired: seq<ChildSpec>, excluded: seq<Ref>, during: seq<Snapshot>, others: seq<seq<Snapshot>>)
    requires versions != [] && others != [] && Mutates(mutate, requestName, Children(desired, excluded))
    ensures var r := ChildrenCall(mutate, me, versions, objects, desired, excluded, during, others);
      r.outcome == Ok ==> r.base < |r.versions| && SettlesOn(r.versions[r.base], desired, excluded)
  {
    ChildrenCallMeans(mutate, me, versions, objects, desired, excluded, during, others);
    var r := ChildrenCall(mutate, me, versions, objects, desired, excluded, during, others);
    if r.outcome == Ok { EndsPublished(mutate, requestName, r.versions, r.base, desired, excluded); }
  }

  // ---- the status ------------------------------------------------------------------------------------------

  /** Apply with its triple decided on `copy`, which was read as version `at`. */
  ghost function StatusCall(mutate: Closure, versions: seq<Snapshot>, copy: Snapshot, at: nat, task: Task,
      others: seq<seq<Snapshot>>): Retry
    requires versions != [] && others != [] && task.Status?
  {
    if ExitsEarly(copy, task.phase, task.reason, task.message) then Retry(versions, at, true)
    else Retried(mutate, versions, |versions| - 1, others)
  }

  /** Apply on the current version with nobody in the way: if the phase may follow, the version is stored again
      with this phase and with this reason and message - or with none when it enters barrier 1 or 2 - unless
      that changes nothing; otherwise nothing is stored. */
  lemma UndisturbedApply(mutate: Closure, requestName: string, versions: seq<Snapshot>, phase: Phase, reason: string, message: string,
      others: seq<seq<Snapshot>>)
    requires versions != [] && others != [] && others[0] == []
    requires var (r, m) := Decide(versions[|versions| - 1], phase, reason, message); Mutates(mutate, requestName, Status(phase, r, m))
    ensures var cur := versions[|versions| - 1]; var (r, m) := Decide(cur, phase, reason, message);
      var entering := phase in {Planned, Finished} && cur.phase != phase;
      var next := cur.(phase := phase, reason := if entering then "" else reason, message := if entering then "" else message);
      StatusCall(mutate, versions, cur, |versions| - 1, Status(phase, r, m), others) ==
        if CanAdvance(cur.phase, phase) && next != cur then Retry(versions + [next], |versions|, true) else Retry(versions, |versions| - 1, true)
  {
    var cur := versions[|versions| - 1];
    var (r, m) := Decide(cur, phase, reason, message);
    assert mutate(cur) == Mutate(requestName, Status(phase, r, m), cur);
  }

  /** In particular the next barrier is always reached. */
  lemma BarrierReached(mutate: Closure, requestName: string, versions: seq<Snapshot>, phase: Phase, reason: string, message: string,
      others: seq<seq<Snapshot>>)
    requires versions != [] && others != [] && others[0] == []
    requires Mutates(mutate, requestName, Status(phase, "", ""))
    requires var cur := versions[|versions| - 1].phase;
      || (phase == Planned && (cur == Planning || cur == Other("")))
      || (phase == Finished && (cur == Planned || cur == Planning || cur == Other("")))
    ensures var cur := versions[|versions| - 1]; var (r, m) := Decide(cur, phase, reason, message);
      StatusCall(mutate, versions, cur, |versions| - 1, Status(phase, r, m), others).versions ==
        versions + [cur.(phase := phase, reason := "", message := "")]
  {
    AdvanceExactly(versions[|versions| - 1].phase, phase);
    UndisturbedApply(mutate, requestName, versions, phase, reason, message, others);
  }

  // ---- the manifest ----------------------------------------------------------------------------------------

  datatype ManifestResult = ManifestResult(outcome: Outcome, versions: seq<Snapshot>, request: Option<Request>, base: nat)

  /** The request name is published unless the copy of version `at` shows it; the first patch works on that
      copy if `reuse` is set. */
  ghost function Named(mutate: Closure, requestName: string, versions: seq<Snapshot>, at: nat, reuse: bool,
      others: seq<seq<Snapshot>>): Retry
    requires at < |versions| && others != []
  {
    if versions[at].requestName == requestName then Retry(versions, at, true)
    else Retried(mutate, versions, if reuse then at else |versions| - 1, others)
  }

  ghost predicate Drifts(cached: Option<seq<Ref>>, targets: seq<Ref>) {
    cached.Some? && !SameTargets(cached.value, targets)
  }

  ghost function Finish(r: Retry, request: Option<Request>, cached: Option<seq<Ref>>, targets: seq<Ref>): ManifestResult {
    ManifestResult(if !r.ok then ErrConflict else if Drifts(cached, targets) then ErrDrift else Ok, r.versions, request, r.base)
  }

  /** The request after the Create. */
  ghost function Requested(found: Option<Request>, targets: seq<Ref>): Option<Request> {
    if found == None then Some(Request(CanonTargets(targets), "")) else found
  }

  /** EnsureManifestCapture on a copy of version `at`. `cached` is the request the cache shows; between the
      refresh and the Create others store `during`, and the Create finds the request `found`. */
  ghost function ManifestCall(mutate: Closure, requestName: string, versions: seq<Snapshot>, at: nat,
      request: Option<Request>, targets: seq<Ref>, cached: Option<seq<Ref>>, during: seq<Snapshot>, found: Option<Request>,
      others: seq<seq<Snapshot>>): ManifestResult
    requires at < |versions| && others != []
  {
    var last := |versions| - 1;
    if Captured(versions[at]) then ManifestResult(Ok, versions, request, at)
    else if targets == [] then ManifestResult(ErrEmptyManifest, versions, request, at)
    else if cached.Some? then Finish(Named(mutate, requestName, versions, at, false, others), request, cached, targets)
    else if Captured(versions[last]) then ManifestResult(Ok, versions, request, last)
    else Finish(Named(mutate, requestName, versions + during, last, true, others), Requested(found, targets), cached, targets)
  }

  /** The call gets as far as publishing the name. */
  ghost predicate Publishing(versions: seq<Snapshot>, at: nat, targets: seq<Ref>, cached: Option<seq<Ref>>)
    requires at < |versions|
  {
    !Captured(versions[at]) && targets != [] && (cached.Some? || !Captured(versions[|versions| - 1]))
  }

  /** The name is missing on the copy at hand, and every attempt to publish it is overtaken. */
  ghost predicate AlwaysOvertaken(mutate: Closure, requestName: string, versions: seq<Snapshot>, at: nat, reuse: bool,
      others: seq<seq<Snapshot>>)
    requires at < |versions|
  {
    versions[at].requestName != requestName
    && EveryAttemptConflicts(mutate, versions, if reuse then at else |versions| - 1, others)
  }

  lemma NamedMeans(mutate: Closure, requestName: string, versions: seq<Snapshot>, at: nat, reuse: bool,
      targets: seq<Ref>, others: seq<seq<Snapshot>>)
    requires at < |versions| && others != [] && Mutates(mutate, requestName, Manifest(targets))
    ensures var r := Named(mutate, requestName, versions, at, reuse, others);
      && versions <= r.versions
      && (!r.ok <==> AlwaysOvertaken(mutate, requestName, versions, at, reuse, others))
      && (!r.ok ==> r.versions == versions + Flat(others))
      && (r.ok ==> r.base < |r.versions| && r.versions[r.base].requestName == requestName)
  {
    var base := if reuse then at else |versions| - 1;
    RetriedMeans(mutate, versions, base, others);
    RetriedFailsExactly(mutate, versions, base, others);
    var r := Named(mutate, requestName, versions, at, reuse, others);
    if r.ok && versions[at].requestName != requestName {
      EndsNamed(mutate, requestName, r.versions, r.base, targets);
    }
  }

  lemma EndsNamed(mutate: Closure, requestName: string, versions: seq<Snapshot>, base: nat, targets: seq<Ref>)
    requires Ends(mutate, versions, base) && Mutates(mutate, requestName, Manifest(targets))
    ensures versions[base].requestName == requestName
  {
    assert Mutate(requestName, Manifest(targets), versions[base]) == mutate(versions[base]);
    if |versions| >= 2 {
      var was := versions[|versions| - 2];
      assert Mutate(requestName, Manifest(targets), was) == mutate(was);
    }
  }

  lemma FinishMeans(r: Retry, request: Option<Request>, cached: Option<seq<Ref>>, targets: seq<Ref>)
    ensures var f := Finish(r, request, cached, targets);
      && f.outcome in {Ok, ErrDrift, ErrConflict} && f.versions == r.versions && f.request == request && f.base == r.base
      && (f.outcome == ErrConflict <==> !r.ok)
      && (f.outcome == ErrDrift <==> r.ok && Drifts(cached, targets))
  {
  }

  /** The calls that get as far as publishing the name. */
  lemma PublishingMeans(mutate: Closure, requestName: string, versions: seq<Snapshot>, at: nat,
      request: Option<Request>, targets: seq<Ref>, cached: Option<seq<Ref>>, during: seq<Snapshot>, found: Option<Request>,
      others: seq<seq<Snapshot>>)
    requires at < |versions| && others != [] && Publishing(versions, at, targets, cached)
    ensures ManifestCall(mutate, requestName, versions, at, request, targets, cached, during, found, others) ==
      if cached.Some? then Finish(Named(mutate, requestName, versions, at, false, others), request, cached, targets)
      else Finish(Named(mutate, requestName, versions + during, |versions| - 1, true, others), Requested(found, targets), cached, targets)
  {
  }

  /** The outcomes of EnsureManifestCapture, exactly: an empty set is refused only on an unlatched copy; a
      conflict means that the name was missing and every attempt was overtaken, and has stored nothing; drift
      is reported exactly when the name is published and the cached request denotes another set; and any
      other call that got so far has published the name. A request is created exactly when the cache shows
      none, the authoritative copy is unlatched and the Create finds none. */
  lemma ManifestCallMeans(mutate: Closure, requestName: string, versions: seq<Snapshot>, at: nat,
      request: Option<Request>, targets: seq<Ref>, cached: Option<seq<Ref>>, during: seq<Snapshot>, found: Option<Request>,
      others: seq<seq<Snapshot>>)
    requires at < |versions| && others != [] && Mutates(mutate, requestName, Manifest(targets))
    ensures var r := ManifestCall(mutate, requestName, versions, at, request, targets, cached, during, found, others);
      var publishing := Publishing(versions, at, targets, cached);
      var now, copy := if cached.Some? then versions else versions + during, if cached.Some? then at else |versions| - 1;
      && r.outcome in {Ok, ErrEmptyManifest, ErrDrift, ErrConflict} && versions <= r.versions
      && (r.outcome == ErrEmptyManifest <==> !Captured(versions[at]) && targets == [])
      && (r.outcome == ErrConflict <==> publishing && AlwaysOvertaken(mutate, requestName, now, copy, cached == None, others))
      && (r.outcome == ErrConflict ==> r.versions == now + Flat(others))
      && (r.outcome == ErrDrift <==> publishing && r.outcome != ErrConflict && Drifts(cached, targets))
      && (publishing && r.outcome != ErrConflict ==> r.base < |r.versions| && r.versions[r.base].requestName == requestName)
      && (!publishing ==> r.versions == versions)
      && r.request == if publishing && cached == None then Requested(found, targets) else request
  {
    if Publishing(versions, at, targets, cached) {
      var now, copy := if cached.Some? then versions else versions + during, if cached.Some? then at else |versions| - 1;
      PublishingMeans(mutate, requestName, versions, at, request, targets, cached, during, found, others);
      NamedMeans(mutate, requestName, now, copy, cached == None, targets, others);
      FinishMeans(Named(mutate, requestName, now, copy, cached == None, others),
        if cached == None then Requested(found, targets) else request, cached, targets);
    }
  }
}
