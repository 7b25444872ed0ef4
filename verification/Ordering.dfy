/** Total orders, sorting and first-occurrence de-duplication: the list idioms every component of the
    snapshotter shares (sort.Slice over a copied slice, a `seen` map over a loop). */
module Ordering {

  ghost function Elems<T>(s: seq<T>): set<T> {
    set x | x in s
  }

  ghost predicate NoDup<T>(s: seq<T>) {
    forall i, j :: 0 <= i < j < |s| ==> s[i] != s[j]
  }

  ghost predicate TotalOrder<T(!new)>(le: (T, T) -> bool) {
    && (forall a, b :: le(a, b) || le(b, a))
    && (forall a, b :: le(a, b) && le(b, a) ==> a == b)
    && (forall a, b, c :: le(a, b) && le(b, c) ==> le(a, c))
  }

  ghost predicate Sorted<T>(le: (T, T) -> bool, s: seq<T>) {
    forall i, j :: 0 <= i < j < |s| ==> le(s[i], s[j])
  }

  function Insert<T>(le: (T, T) -> bool, x: T, s: seq<T>): seq<T> {
    if s == [] then [x]
    else if le(x, s[0]) then [x] + s
    else [s[0]] + Insert(le, x, s[1..])
  }

  /** The result of sort.Slice. Its algorithm does not matter: SortedUnique below shows that a total
      order leaves exactly one sorted arrangement. */
  function Sort<T>(le: (T, T) -> bool, s: seq<T>): seq<T> {
    if s == [] then [] else Insert(le, s[0], Sort(le, s[1..]))
  }

  lemma {:induction false} InsertSpec<T(!new)>(le: (T, T) -> bool, x: T, s: seq<T>)
    requires TotalOrder(le) && Sorted(le, s)
    ensures Sorted(le, Insert(le, x, s))
    ensures multiset(Insert(le, x, s)) == multiset{x} + multiset(s)
  {
    if s == [] {
    } else if le(x, s[0]) {
    } else {
      InsertSpec(le, x, s[1..]);
      var rest := Insert(le, x, s[1..]);
      assert s == [s[0]] + s[1..];
      forall y | y in rest ensures le(s[0], y) {
        assert y in multiset(rest);
        assert y == x || y in s[1..];
      }
    }
  }

  lemma ElemsConcat<T>(a: seq<T>, b: seq<T>)
    ensures Elems(a + b) == Elems(a) + Elems(b)
  {
  }

  lemma SameMultiset<T>(s: seq<T>, t: seq<T>)
    requires multiset(s) == multiset(t)
    ensures |s| == |t| && Elems(s) == Elems(t)
  {
    assert |s| == |multiset(s)| == |multiset(t)| == |t|;
    forall x ensures x in Elems(s) <==> x in Elems(t) {
      assert x in s <==> x in multiset(s);
      assert x in t <==> x in multiset(t);
    }
  }

  lemma {:induction false} SortSpec<T(!new)>(le: (T, T) -> bool, s: seq<T>)
    requires TotalOrder(le)
    ensures Sorted(le, Sort(le, s)) && multiset(Sort(le, s)) == multiset(s)
    ensures |Sort(le, s)| == |s| && Elems(Sort(le, s)) == Elems(s)
  {
    if s != [] {
      SortSpec(le, s[1..]);
      InsertSpec(le, s[0], Sort(le, s[1..]));
      assert s == [s[0]] + s[1..];
    }
    SameMultiset(Sort(le, s), s);
  }

  lemma LeastFirst<T(!new)>(le: (T, T) -> bool, s: seq<T>, x: T)
    requires TotalOrder(le) && Sorted(le, s) && x in multiset(s)
    ensures s != [] && le(s[0], x)
  {
    var i :| 0 <= i < |s| && s[i] == x;
    assert le(s[0], s[0]);
  }

  lemma TailMultiset<T>(s: seq<T>)
    requires s != []
    ensures multiset(s[1..]) == multiset(s) - multiset{s[0]}
  {
    assert s == [s[0]] + s[1..];
  }

  lemma SortedTail<T>(le: (T, T) -> bool, s: seq<T>)
    requires s != [] && Sorted(le, s)
    ensures Sorted(le, s[1..])
  {
  }

  /** A total order leaves one sorted arrangement of a given multiset. */
  lemma {:induction false} SortedUnique<T(!new)>(le: (T, T) -> bool, a: seq<T>, b: seq<T>)
    requires TotalOrder(le) && Sorted(le, a) && Sorted(le, b) && multiset(a) == multiset(b)
    ensures a == b
  {
    assert |a| == |multiset(a)| == |multiset(b)| == |b|;
    if a != [] {
      LeastFirst(le, a, b[0]) by { assert b[0] in multiset(b); }
      LeastFirst(le, b, a[0]) by { assert a[0] in multiset(a); }
      assert a[0] == b[0];
      TailMultiset(a);
      TailMultiset(b);
      SortedTail(le, a);
      SortedTail(le, b);
      SortedUnique(le, a[1..], b[1..]);
      assert a == [a[0]] + a[1..] && b == [b[0]] + b[1..];
    }
  }

  lemma {:induction false} NoDupMultiset<T>(s: seq<T>)
    requires NoDup(s)
    ensures forall x :: multiset(s)[x] == if x in s then 1 else 0
  {
    if s != [] {
      NoDupMultiset(s[1..]);
      assert s == [s[0]] + s[1..];
      assert s[0] !in s[1..];
    }
  }

  lemma MultisetNoDup<T>(s: seq<T>)
    requires forall x :: multiset(s)[x] <= 1
    ensures NoDup(s)
  {
    forall i, j | 0 <= i < j < |s| ensures s[i] != s[j] {
      assert s == s[..j] + s[j..];
      assert s[i] == s[..j][i] && s[i] in multiset(s[..j]);
      assert s[j] == s[j..][0] && s[j] in multiset(s[j..]);
      assert s[i] == s[j] ==> multiset(s)[s[i]] >= 2;
    }
  }

  /** Duplicate-free lists with the same elements sort to the same list. */
  lemma SortDeterminedByElems<T(!new)>(le: (T, T) -> bool, a: seq<T>, b: seq<T>)
    requires TotalOrder(le) && NoDup(a) && NoDup(b) && Elems(a) == Elems(b)
    ensures Sort(le, a) == Sort(le, b)
  {
    NoDupMultiset(a);
    NoDupMultiset(b);
    forall x ensures x in a <==> x in b {
      assert x in Elems(a) <==> x in Elems(b);
    }
    assert multiset(a) == multiset(b);
    SortSpec(le, a);
    SortSpec(le, b);
    SortedUnique(le, Sort(le, a), Sort(le, b));
  }

  /** First occurrences, in order, where two elements are "the same" when `key` agrees. */
  function FirstSeen<T(==), K(==)>(key: T -> K, s: seq<T>): seq<T> {
    if s == [] then []
    else
      var init := FirstSeen(key, s[..|s| - 1]);
      var x := s[|s| - 1];
      if exists y | y in s[..|s| - 1] :: key(y) == key(x) then init else init + [x]
  }

  ghost function Keys<T, K>(key: T -> K, s: seq<T>): set<K> {
    set x | x in s :: key(x)
  }

  lemma {:induction false} FirstSeenSpec<T, K>(key: T -> K, s: seq<T>)
    ensures forall x :: x in FirstSeen(key, s) ==> x in s
    ensures forall i, j :: 0 <= i < j < |FirstSeen(key, s)| ==> key(FirstSeen(key, s)[i]) != key(FirstSeen(key, s)[j])
    ensures Keys(key, FirstSeen(key, s)) == Keys(key, s)
    ensures |FirstSeen(key, s)| <= |s|
  {
    if s != [] {
      var p := s[..|s| - 1];
      FirstSeenSpec(key, p);
      assert s == p + [s[|s| - 1]];
      var x := s[|s| - 1];
      var q := FirstSeen(key, p);
      assert Keys(key, s) == Keys(key, p) + {key(x)};
      if exists y | y in p :: key(y) == key(x) {
        assert key(x) in Keys(key, p);
      } else {
        assert FirstSeen(key, s) == q + [x];
        assert Keys(key, q + [x]) == Keys(key, q) + {key(x)};
        forall i | 0 <= i < |q| ensures key(q[i]) != key(x) { assert q[i] in p; }
      }
    }
  }

  /** De-duplication by an injective key keeps exactly the elements. */
  lemma FirstSeenElems<T, K>(key: T -> K, s: seq<T>)
    requires forall x, y :: x in s && y in s && key(x) == key(y) ==> x == y
    ensures Elems(FirstSeen(key, s)) == Elems(s) && NoDup(FirstSeen(key, s))
  {
    FirstSeenSpec(key, s);
    forall x | x in s ensures x in FirstSeen(key, s) {
      assert key(x) in Keys(key, s);
      assert key(x) in Keys(key, FirstSeen(key, s));
      var y :| y in FirstSeen(key, s) && key(y) == key(x);
      assert y == x;
    }
  }

  /** One round of the `seen`-map loop. */
  lemma FirstSeenStep<T, K>(key: T -> K, s: seq<T>, x: T)
    ensures FirstSeen(key, s + [x]) == if key(x) in Keys(key, s) then FirstSeen(key, s) else FirstSeen(key, s) + [x]
    ensures Keys(key, s + [x]) == Keys(key, s) + {key(x)}
  {
    assert (s + [x])[..|s|] == s;
  }

  lemma SubsetSameSize<T>(a: set<T>, b: set<T>)
    requires a <= b && |a| == |b|
    ensures a == b
  {
    assert |b - a| == |b| - |a|;
  }

  // ---- strings, compared as Go compares them ------------------------------------------------

  predicate LexLe(a: string, b: string) {
    if a == "" then true
    else if b == "" then false
    else a[0] < b[0] || (a[0] == b[0] && LexLe(a[1..], b[1..]))
  }

  lemma {:induction false} LexTotal(a: string, b: string)
    ensures LexLe(a, b) || LexLe(b, a)
    ensures LexLe(a, b) && LexLe(b, a) ==> a == b
  {
    if a != "" && b != "" {
      LexTotal(a[1..], b[1..]);
      assert a == [a[0]] + a[1..] && b == [b[0]] + b[1..];
    }
  }

  lemma {:induction false} LexTrans(a: string, b: string, c: string)
    requires LexLe(a, b) && LexLe(b, c)
    ensures LexLe(a, c)
  {
    if a != "" && b != "" && c != "" && a[0] == b[0] == c[0] {
      LexTrans(a[1..], b[1..], c[1..]);
    }
  }

  lemma LexOrder()
    ensures TotalOrder(LexLe)
  {
    forall a, b ensures (LexLe(a, b) || LexLe(b, a)) && (LexLe(a, b) && LexLe(b, a) ==> a == b) {
      LexTotal(a, b);
    }
    forall a, b, c | LexLe(a, b) && LexLe(b, c) ensures LexLe(a, c) {
      LexTrans(a, b, c);
    }
  }

  /** `a` is the smaller one at position i, where the two part. */
  ghost predicate PartsAt(a: string, b: string, i: nat) {
    i < |a| && i < |b| && a[..i] == b[..i] && a[i] < b[i]
  }

  lemma PartsLater(a: string, b: string, i: nat)
    requires a != "" && b != "" && a[0] == b[0]
    ensures PartsAt(a, b, i + 1) <==> PartsAt(a[1..], b[1..], i)
    ensures !PartsAt(a, b, 0)
  {
    if i < |a| - 1 && i < |b| - 1 {
      assert a[..i + 1] == [a[0]] + a[1..][..i] && b[..i + 1] == [b[0]] + b[1..][..i];
      assert a[..i + 1][1..] == a[1..][..i] && b[..i + 1][1..] == b[1..][..i];
    }
  }

  lemma PartsAtOnce(a: string, b: string, i: nat)
    requires a != "" && b != "" && a[0] != b[0]
    ensures PartsAt(a, b, i) <==> i == 0 && a[0] < b[0]
  {
    if 0 < i < |a| && i < |b| { assert a[..i][0] == a[0] && b[..i][0] == b[0]; }
  }

  /** The place where two strings part decides, and a prefix comes first. */
  lemma {:induction false} LexLeExactly(a: string, b: string)
    ensures LexLe(a, b) <==> a <= b || exists i: nat :: PartsAt(a, b, i)
  {
    if a != "" && b != "" {
      assert a == [a[0]] + a[1..] && b == [b[0]] + b[1..];
      if a[0] == b[0] {
        LexLeExactly(a[1..], b[1..]);
        if i: nat :| PartsAt(a[1..], b[1..], i) { PartsLater(a, b, i); }
        if i: nat :| PartsAt(a, b, i) { PartsLater(a, b, if i > 0 then i - 1 else 0); }
      } else {
        PartsAtOnce(a, b, 0);
        if i: nat :| PartsAt(a, b, i) { PartsAtOnce(a, b, i); }
      }
    }
  }

  /** The concatenation of a list of lists. */
  function Flat<T>(groups: seq<seq<T>>): seq<T> {
    if groups == [] then [] else Flat(groups[..|groups| - 1]) + groups[|groups| - 1]
  }

  lemma FlatSnoc<T>(groups: seq<seq<T>>, g: seq<T>)
    ensures Flat(groups + [g]) == Flat(groups) + g
  {
    assert (groups + [g])[..|groups|] == groups;
  }

  lemma {:induction false} FlatCons<T>(g: seq<T>, groups: seq<seq<T>>)
    ensures Flat([g] + groups) == g + Flat(groups)
  {
    if groups == [] {
      assert [g] + groups == [g] && [g][..0] == [];
    } else {
      var init, last := groups[..|groups| - 1], groups[|groups| - 1];
      FlatCons(g, init);
      assert [g] + groups == [g] + init + [last];
      FlatSnoc([g] + init, last);
      assert g + Flat(init) + last == g + (Flat(init) + last);
    }
  }
}
