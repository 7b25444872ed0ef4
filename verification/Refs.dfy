/** Published reference lists: child snapshot refs, excluded-object refs and manifest targets all carry
    (apiVersion, kind, name) and share one deterministic order. */
module Refs {
  import opened Ordering
  import opened KeyText

  datatype Ref = Ref(apiVersion: string, kind: string, name: string)

  predicate RefLe(a: Ref, b: Ref) {
    if a.apiVersion != b.apiVersion then LexLe(a.apiVersion, b.apiVersion)
    else if a.kind != b.kind then LexLe(a.kind, b.kind)
    else LexLe(a.name, b.name)
  }

  lemma RefOrder()
    ensures TotalOrder(RefLe)
  {
    LexOrder();
  }

  function Itself(r: Ref): Ref { r }

  /** The canonical form of a set of refs: each once, in order. */
  function Canon(s: seq<Ref>): seq<Ref> {
    Sort(RefLe, FirstSeen(Itself, s))
  }

  lemma CanonSpec(s: seq<Ref>)
    ensures Sorted(RefLe, Canon(s)) && NoDup(Canon(s)) && Elems(Canon(s)) == Elems(s)
  {
    RefOrder();
    FirstSeenElems(Itself, s);
    SortSpec(RefLe, FirstSeen(Itself, s));
    NoDupMultiset(FirstSeen(Itself, s));
    MultisetNoDup(Canon(s));
  }

  /** The published order: by API version, then kind, then name, each as text; no two entries alike. */
  ghost predicate Precedes(a: Ref, b: Ref) {
    && LexLe(a.apiVersion, b.apiVersion)
    && (a.apiVersion == b.apiVersion ==> LexLe(a.kind, b.kind))
    && (a.apiVersion == b.apiVersion && a.kind == b.kind ==> LexLe(a.name, b.name) && a.name != b.name)
  }

  lemma CanonIsPublishedOrder(s: seq<Ref>)
    ensures forall i, j :: 0 <= i < j < |Canon(s)| ==> Precedes(Canon(s)[i], Canon(s)[j])
  {
    CanonSpec(s);
    LexOrder();
    var c := Canon(s);
    forall i, j | 0 <= i < j < |c| ensures Precedes(c[i], c[j]) {
      assert RefLe(c[i], c[j]) && c[i] != c[j];
    }
  }

  /** Canonical forms are equal exactly when the lists denote the same set. */
  lemma CanonDeterminedBySet(x: seq<Ref>, y: seq<Ref>)
    ensures Canon(x) == Canon(y) <==> Elems(x) == Elems(y)
  {
    RefOrder();
    CanonSpec(x);
    CanonSpec(y);
    FirstSeenElems(Itself, x);
    FirstSeenElems(Itself, y);
    if Elems(x) == Elems(y) {
      SortDeterminedByElems(RefLe, FirstSeen(Itself, x), FirstSeen(Itself, y));
    }
  }

  // ---- children.go --------------------------------------------------------------------------

  lemma UnseenNext<K>(key: Ref -> K, before: seq<Ref>, refs: seq<Ref>, i: nat)
    requires i < |refs|
    ensures var done, r := before + refs[..i], refs[i];
      && FirstSeen(key, before + refs[..i + 1]) == FirstSeen(key, done) + (if key(r) in Keys(key, done) then [] else [r])
      && Keys(key, before + refs[..i + 1]) == Keys(key, done) + {key(r)}
  {
    assert before + refs[..i + 1] == before + refs[..i] + [refs[i]];
    FirstSeenStep(key, before + refs[..i], refs[i]);
  }

  /** The `seen`-map loop, continued over `refs` after `before` has been processed. */
  method AppendUnseen<K(==)>(key: Ref -> K, ghost before: seq<Ref>, start: seq<Ref>, met: set<K>, refs: seq<Ref>)
    returns (out: seq<Ref>, seen: set<K>)
    requires start == FirstSeen(key, before) && met == Keys(key, before)
    ensures out == FirstSeen(key, before + refs) && seen == Keys(key, before + refs)
  {
    out, seen := start, met;
    assert before + refs[..0] == before;
    for i := 0 to |refs|
      invariant out == FirstSeen(key, before + refs[..i]) && seen == Keys(key, before + refs[..i])
    {
      UnseenNext(key, before, refs, i);
      var r := refs[i];
      if key(r) in seen { continue; }
      seen := seen + {key(r)};
      out := out + [r];
    }
    assert before + refs[..|refs|] == before + refs;
  }

  method UnionRefs(existing: seq<Ref>, added: seq<Ref>) returns (out: seq<Ref>)
    ensures out == Canon(existing + added)
  {
    var seen;
    out, seen := AppendUnseen(Itself, [], [], {}, existing);
    assert [] + existing == existing;
    out, seen := AppendUnseen(Itself, existing, out, seen, added);
    out := Sort(RefLe, out);
  }

  /** Set equality as published lists see it: duplicates count, order does not. */
  method RefsEqualIgnoreOrder(a: seq<Ref>, b: seq<Ref>) returns (same: bool)
    ensures same <==> multiset(a) == multiset(b)
  {
    SortFacts(a);
    SortFacts(b);
    if |a| != |b| {
      assert |multiset(a)| == |a| && |multiset(b)| == |b|;
      return false;
    }
    var aa, bb := Sort(RefLe, a), Sort(RefLe, b);
    for i := 0 to |aa|
      invariant aa[..i] == bb[..i]
    {
      if aa[i] != bb[i] {
        if multiset(a) == multiset(b) {
          RefOrder();
          SortedUnique(RefLe, aa, bb);
        }
        return false;
      }
    }
    assert aa == aa[..|aa|] == bb[..|bb|] == bb;
    return true;
  }

  lemma SortFacts(a: seq<Ref>)
    ensures Sorted(RefLe, Sort(RefLe, a)) && multiset(Sort(RefLe, a)) == multiset(a) && |Sort(RefLe, a)| == |a|
  {
    RefOrder();
    SortSpec(RefLe, a);
  }

  /** Whether publishing `desired` on top of `published` would change the list: the growth test of the
      freeze pre-check and of the publication closure. */
  ghost predicate Grows(published: seq<Ref>, desired: seq<Ref>) {
    multiset(published) != multiset(Canon(published + desired))
  }

  /** For every pair of lists, growth is "desired is not a subset of published" - except that a
      published list holding a duplicate always counts as growing, because its union drops it. */
  lemma GrowsExactly(published: seq<Ref>, desired: seq<Ref>)
    ensures Grows(published, desired) <==> !(Elems(desired) <= Elems(published)) || !NoDup(published)
  {
    var u := Canon(published + desired);
    CanonSpec(published + desired);
    ElemsConcat(published, desired);
    NoDupMultiset(u);
    if multiset(published) == multiset(u) {
      MultisetNoDup(published);
      forall x | x in desired ensures x in published {
        assert x in Elems(u);
        assert x in multiset(u);
      }
    }
    if Elems(desired) <= Elems(published) && NoDup(published) {
      NoDupMultiset(published);
      forall x ensures x in u <==> x in published {
        assert x in Elems(u) <==> x in Elems(published);
      }
      assert multiset(published) == multiset(u);
    }
  }

  // ---- exclude.go ---------------------------------------------------------------------------

  method NormalizeExcludedRefs(refs: seq<Ref>) returns (out: seq<Ref>)
    ensures out == Canon(refs)
  {
    var seen;
    out, seen := AppendUnseen(Itself, [], [], {}, refs);
    assert [] + refs == refs;
    out := Sort(RefLe, out);
  }

  lemma SameElems(a: seq<Ref>, b: seq<Ref>)
    ensures Elems(a) == Elems(b) <==> forall r :: r in a <==> r in b
  {
    if Elems(a) == Elems(b) {
      forall r ensures r in a <==> r in b { assert r in Elems(a) <==> r in Elems(b); }
    }
  }

  ghost predicate SameExcluded(a: seq<Ref>, b: seq<Ref>) {
    |a| == |b| && Elems(a) == Elems(b)
  }

  /** Lists of equal length are normalised before they are compared, so multiplicities are ignored. */
  method ExcludedRefsEqualIgnoreOrder(a: seq<Ref>, b: seq<Ref>) returns (same: bool)
    ensures same <==> SameExcluded(a, b)
    ensures same <==> |a| == |b| && forall r :: r in a <==> r in b
  {
    SameElems(a, b);
    if |a| != |b| { return false; }
    CanonDeterminedBySet(a, b);
    var aa := NormalizeExcludedRefs(a);
    var bb := NormalizeExcludedRefs(b);
    if |aa| != |bb| { return false; }
    for i := 0 to |aa|
      invariant aa[..i] == bb[..i]
    {
      if aa[i] != bb[i] { return false; }
    }
    assert aa == aa[..|aa|] == bb[..|bb|] == bb;
    return true;
  }

  // ---- manifest.go --------------------------------------------------------------------------

  function TargetKey(t: Ref): string {
    Join2(t.apiVersion, Join2(t.kind, t.name))
  }

  predicate KeyClean(t: Ref) {
    BarFree(t.apiVersion) && BarFree(t.kind)
  }

  lemma TargetKeyInjective(a: Ref, b: Ref)
    requires KeyClean(a) && KeyClean(b) && TargetKey(a) == TargetKey(b)
    ensures a == b
  {
    JoinInjective(a.apiVersion, Join2(a.kind, a.name), b.apiVersion, Join2(b.kind, b.name));
    JoinInjective(a.kind, a.name, b.kind, b.name);
  }

  function CanonTargets(declared: seq<Ref>): seq<Ref> {
    Sort(RefLe, FirstSeen(TargetKey, declared))
  }

  method Targets(declared: seq<Ref>) returns (out: seq<Ref>)
    ensures out == CanonTargets(declared)
  {
    var seen;
    out, seen := AppendUnseen(TargetKey, [], [], {}, declared);
    assert [] + declared == declared;
    out := Sort(RefLe, out);
  }

  /** Every target list, clean or not: the canonical targets are declared targets, carry each declared
      identity once, and are not empty when something was declared. */
  lemma CanonTargetsSpec(x: seq<Ref>)
    ensures Sorted(RefLe, CanonTargets(x)) && Elems(CanonTargets(x)) <= Elems(x)
    ensures Keys(TargetKey, CanonTargets(x)) == Keys(TargetKey, x)
    ensures x != [] ==> CanonTargets(x) != []
  {
    RefOrder();
    var f := FirstSeen(TargetKey, x);
    FirstSeenSpec(TargetKey, x);
    SortSpec(RefLe, f);
    forall t ensures t in CanonTargets(x) <==> t in f {
      assert t in Elems(CanonTargets(x)) <==> t in Elems(f);
    }
    if x != [] {
      assert TargetKey(x[0]) in Keys(TargetKey, x);
    }
  }

  /** Same canonical targets exactly when the two declarations denote the same set of objects. */
  lemma TargetsDeterminedBySet(x: seq<Ref>, y: seq<Ref>)
    requires forall t :: t in x || t in y ==> KeyClean(t)
    ensures CanonTargets(x) == CanonTargets(y) <==> Elems(x) == Elems(y)
    ensures Keys(TargetKey, x) == Keys(TargetKey, y) <==> Elems(x) == Elems(y)
    ensures CanonTargets(x) == Canon(x)
  {
    forall a, b | (a in x || a in y) && (b in x || b in y) && TargetKey(a) == TargetKey(b) ensures a == b {
      TargetKeyInjective(a, b);
    }
    FirstSeenElems(TargetKey, x);
    FirstSeenElems(TargetKey, y);
    FirstSeenElems(Itself, x);
    RefOrder();
    SortSpec(RefLe, FirstSeen(TargetKey, x));
    SortSpec(RefLe, FirstSeen(TargetKey, y));
    if Elems(x) == Elems(y) {
      SortDeterminedByElems(RefLe, FirstSeen(TargetKey, x), FirstSeen(TargetKey, y));
      assert forall t :: t in x <==> t in Elems(x);
      assert forall t :: t in y <==> t in Elems(y);
      assert Keys(TargetKey, x) == Keys(TargetKey, y);
    }
    if Keys(TargetKey, x) == Keys(TargetKey, y) {
      forall t ensures t in x <==> t in y {
        if t in x { assert TargetKey(t) in Keys(TargetKey, y); }
        if t in y { assert TargetKey(t) in Keys(TargetKey, x); }
      }
    }
    SortDeterminedByElems(RefLe, FirstSeen(TargetKey, x), FirstSeen(Itself, x));
  }

  method KeySet(ts: seq<Ref>) returns (m: set<string>)
    ensures m == Keys(TargetKey, ts)
  {
    m := {};
    for i := 0 to |ts|
      invariant m == Keys(TargetKey, ts[..i])
    {
      FirstSeenStep(TargetKey, ts[..i], ts[i]);
      assert ts[..i + 1] == ts[..i] + [ts[i]];
      m := m + {TargetKey(ts[i])};
    }
    assert ts[..|ts|] == ts;
  }

  ghost predicate SameTargets(a: seq<Ref>, b: seq<Ref>) {
    Keys(TargetKey, a) == Keys(TargetKey, b)
  }

  /** The drift test compares sizes and then looks up one side only; that is set equality. */
  method SameSet(a: seq<Ref>, b: seq<Ref>) returns (same: bool)
    ensures same <==> SameTargets(a, b)
  {
    var sa := KeySet(a);
    var sb := KeySet(b);
    if |sa| != |sb| { return false; }
    var rest := sb;
    while rest != {}
      invariant rest <= sb && sb - rest <= sa
      decreases |rest|
    {
      var k :| k in rest;
      if k !in sa { return false; }
      rest := rest - {k};
    }
    SubsetSameSize(sb, sa);
    return true;
  }
}
