/** Controller-owner adoption of child snapshot objects without theft. */
module OwnerRef {

  datatype Option<+T> = None | Some(value: T)

  datatype Owner = Owner(apiVersion: string, kind: string, name: string, uid: string, controller: Option<bool>)

  predicate Matches(ref: Owner, desired: Owner) {
    ref.apiVersion == desired.apiVersion && ref.kind == desired.kind && ref.name == desired.name
  }

  /** A reference that makes adoption by `desired` fail: another parent of the same kind, or another
      controller of any kind. */
  predicate Blocks(ref: Owner, desired: Owner) {
    && !Matches(ref, desired)
    && ((ref.apiVersion == desired.apiVersion && ref.kind == desired.kind) || ref.controller == Some(true))
  }

  predicate Adoptable(refs: seq<Owner>, desired: Owner) {
    forall r | r in refs :: !Blocks(r, desired)
  }

  function Claim(refs: seq<Owner>, desired: Owner): seq<Owner> {
    seq(|refs|, i requires 0 <= i < |refs| => if Matches(refs[i], desired) then desired else refs[i])
  }

  /** The owner references after a successful adoption. */
  function Adopted(refs: seq<Owner>, desired: Owner): seq<Owner> {
    if exists r | r in refs :: Matches(r, desired) then Claim(refs, desired) else refs + [desired]
  }

  /** `me`, possibly under another UID or controller flag. */
  predicate IsMe(ref: Owner, me: Owner) {
    ref == me.(uid := ref.uid, controller := ref.controller)
  }

  /** Adopting would take the object from another parent of the same kind, or from another controller. */
  predicate Theft(ref: Owner, me: Owner) {
    !IsMe(ref, me) && (ref.controller == Some(true) || (ref.apiVersion, ref.kind) == (me.apiVersion, me.kind))
  }

  ghost predicate HasTheft(refs: seq<Owner>, me: Owner) {
    exists i :: 0 <= i < |refs| && Theft(refs[i], me)
  }

  /** `after` is `before` with this owner in it: its references renewed in place or one appended, every other
      reference where it was. */
  ghost predicate Joined(before: seq<Owner>, after: seq<Owner>, me: Owner) {
    && me in after && |before| <= |after| <= |before| + 1
    && (forall i :: 0 <= i < |before| ==> after[i] == if IsMe(before[i], me) then me else before[i])
    && (|after| == |before| <==> exists i :: 0 <= i < |before| && IsMe(before[i], me))
  }

  /** The outcome of an adoption, whatever computed it. */
  ghost predicate JoinedUnlessTheft(before: seq<Owner>, after: seq<Owner>, me: Owner, ok: bool) {
    (!ok <==> HasTheft(before, me)) && if ok then Joined(before, after, me) else after == before
  }

  /** Adoption is refused exactly when it would be theft, and otherwise loses no reference. */
  lemma AdoptsExactly(refs: seq<Owner>, me: Owner)
    ensures Adoptable(refs, me) <==> !HasTheft(refs, me)
    ensures Joined(refs, Adopted(refs, me), me)
  {
    if i :| 0 <= i < |refs| && Theft(refs[i], me) {
      assert refs[i] in refs && Blocks(refs[i], me);
    }
    if r :| r in refs && Blocks(r, me) {
      var i :| 0 <= i < |refs| && refs[i] == r;
      assert Theft(refs[i], me);
    }
    var after := Adopted(refs, me);
    if i :| 0 <= i < |refs| && IsMe(refs[i], me) {
      assert refs[i] in refs && Matches(refs[i], me) && after[i] == me;
    } else {
      forall r | r in refs ensures !Matches(r, me) {
        var i :| 0 <= i < |refs| && refs[i] == r;
        assert !IsMe(refs[i], me);
      }
      assert after[|refs|] == me;
    }
  }

  method Ensure(refs: seq<Owner>, desired: Owner) returns (out: Option<seq<Owner>>)
    ensures out == None <==> HasTheft(refs, desired)
    ensures out.Some? ==> Joined(refs, out.value, desired)
    ensures out == if Adoptable(refs, desired) then Some(Adopted(refs, desired)) else None
  {
    AdoptsExactly(refs, desired);
    var kept: seq<Owner> := [];
    var found := false;
    for i := 0 to |refs|
      invariant kept == Claim(refs[..i], desired)
      invariant found <==> exists r | r in refs[..i] :: Matches(r, desired)
      invariant Adoptable(refs[..i], desired)
    {
      var ref := refs[i];
      assert refs[..i + 1] == refs[..i] + [ref];
      if Matches(ref, desired) {
        found := true;
        kept := kept + [desired];
      } else if ref.apiVersion == desired.apiVersion && ref.kind == desired.kind {
        assert Blocks(ref, desired);
        return None;
      } else if ref.controller == Some(true) {
        assert Blocks(ref, desired);
        return None;
      } else {
        kept := kept + [ref];
      }
    }
    assert refs[..|refs|] == refs;
    if !found {
      assert Claim(refs, desired) == refs;
      kept := kept + [desired];
    }
    return Some(kept);
  }

  /** No theft: once a controlling parent has adopted a child, exactly the parents that are that same
      owner (apiVersion, kind, name) can adopt it. */
  lemma AdoptionIsExclusive(refs: seq<Owner>, first: Owner, second: Owner)
    requires Adoptable(refs, first) && first.controller == Some(true)
    ensures Adoptable(Adopted(refs, first), second) <==> Matches(first, second)
  {
    var after := Adopted(refs, first);
    assert first in after by {
      if exists r | r in refs :: Matches(r, first) {
        var i :| 0 <= i < |refs| && Matches(refs[i], first);
        assert after[i] == first;
      } else {
        assert after[|refs|] == first;
      }
    }
    forall r | r in after ensures r == first || (r in refs && !Matches(r, first)) {}
  }

  /** Adopting twice changes nothing the second time, and every unrelated reference survives in place. */
  lemma AdoptionIsIdempotent(refs: seq<Owner>, me: Owner)
    requires Adoptable(refs, me)
    ensures Adoptable(Adopted(refs, me), me) && Adopted(Adopted(refs, me), me) == Adopted(refs, me)
    ensures forall i :: 0 <= i < |refs| && !Matches(refs[i], me) ==> Adopted(refs, me)[i] == refs[i]
    ensures exists r :: r in Adopted(refs, me) && r == me
  {
    var after := Adopted(refs, me);
    if exists r | r in refs :: Matches(r, me) {
      var i :| 0 <= i < |refs| && Matches(refs[i], me);
      assert after[i] == me;
    } else {
      assert after[|refs|] == me;
    }
    assert me in after && Matches(me, me);
    assert Claim(after, me) == after;
  }
}
