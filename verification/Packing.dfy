/** Greedy packing of uploaded objects into size-bounded chunks. */
module Packing {
  import opened Ordering

  const MAX_CHUNK_BYTES: nat := 800 * 1000

  /** What measuring a candidate group can answer: json.Marshal fails, gzip fails, or a compressed size. */
  datatype Measured = MarshalFails | GzipFails | Size(bytes: nat)

  predicate Over(m: Measured) {
    m.Size? && m.bytes > MAX_CHUNK_BYTES
  }

  datatype State<T> = State(groups: seq<seq<T>>, current: seq<T>)

  function Flush<T>(s: State<T>): seq<seq<T>> {
    if s.current == [] then s.groups else s.groups + [s.current]
  }

  function Place<T>(measure: seq<T> -> Measured, s: State<T>, obj: T): State<T> {
    var m := measure(s.current + [obj]);
    if m.MarshalFails? then State(Flush(s) + [[obj]], [])
    else if Over(m) && s.current != [] then State(s.groups + [s.current], [obj])
    else State(s.groups, s.current + [obj])
  }

  function Packed<T>(measure: seq<T> -> Measured, objects: seq<T>): State<T> {
    if objects == [] then State([], [])
    else Place(measure, Packed(measure, objects[..|objects| - 1]), objects[|objects| - 1])
  }

  function Pack<T>(measure: seq<T> -> Measured, objects: seq<T>): seq<seq<T>> {
    Flush(Packed(measure, objects))
  }

  method GroupObjectsBySize<T>(measure: seq<T> -> Measured, objects: seq<T>) returns (out: seq<seq<T>>)
    ensures out == Pack(measure, objects)
  {
    var groups: seq<seq<T>> := [];
    var current: seq<T> := [];
    for i := 0 to |objects|
      invariant State(groups, current) == Packed(measure, objects[..i])
    {
      assert objects[..i + 1][..i] == objects[..i];
      var obj := objects[i];
      var candidate := current + [obj];
      var m := measure(candidate);
      if m.MarshalFails? {
        if |current| > 0 {
          groups := groups + [current];
          current := [];
        }
        groups := groups + [[obj]];
        continue;
      }
      if m.Size? && m.bytes > MAX_CHUNK_BYTES && |current| > 0 {
        groups := groups + [current];
        current := [obj];
        continue;
      }
      current := candidate;
    }
    assert objects[..|objects|] == objects;
    if |current| > 0 {
      groups := groups + [current];
    }
    return groups;
  }

  // ---- what every packing keeps ----------------------------------------------------------------------

  ghost predicate GroupOk<T>(measure: seq<T> -> Measured, g: seq<T>) {
    g != [] && (|g| > 1 ==> !Over(measure(g)) && !measure(g).MarshalFails?)
  }

  ghost predicate StateOk<T>(measure: seq<T> -> Measured, s: State<T>, objects: seq<T>) {
    && Flat(s.groups) + s.current == objects
    && (forall g :: g in s.groups ==> GroupOk(measure, g))
    && (s.current != [] ==> GroupOk(measure, s.current))
  }

  lemma FlushOk<T>(measure: seq<T> -> Measured, s: State<T>, objects: seq<T>)
    requires StateOk(measure, s, objects)
    ensures Flat(Flush(s)) == objects && forall g :: g in Flush(s) ==> GroupOk(measure, g)
  {
    FlatSnoc(s.groups, s.current);
  }

  lemma ClosedGroups<T>(measure: seq<T> -> Measured, groups: seq<seq<T>>, g: seq<T>, objects: seq<T>)
    requires Flat(groups) + g == objects && GroupOk(measure, g) && forall h :: h in groups ==> GroupOk(measure, h)
    ensures Flat(groups + [g]) == objects && forall h :: h in groups + [g] ==> GroupOk(measure, h)
  {
    FlatSnoc(groups, g);
  }

  lemma PlaceOk<T>(measure: seq<T> -> Measured, s: State<T>, objects: seq<T>, x: T)
    requires StateOk(measure, s, objects)
    ensures StateOk(measure, Place(measure, s, x), objects + [x])
  {
    var m := measure(s.current + [x]);
    if m.MarshalFails? {
      FlushOk(measure, s, objects);
      ClosedGroups(measure, Flush(s), [x], objects + [x]);
      assert objects + [x] + [] == objects + [x];
    } else if Over(m) && s.current != [] {
      ClosedGroups(measure, s.groups, s.current, objects);
    } else {
      assert Flat(s.groups) + (s.current + [x]) == (Flat(s.groups) + s.current) + [x];
    }
  }

  /** Whatever the measure answers: the groups concatenate to the objects in order, none is empty, and a
      group of several objects was measured and is not over the limit. */
  lemma PackingIsSound<T>(measure: seq<T> -> Measured, objects: seq<T>)
    ensures Flat(Pack(measure, objects)) == objects
    ensures forall g :: g in Pack(measure, objects) ==> GroupOk(measure, g)
  {
    PackedOk(measure, objects);
    FlushOk(measure, Packed(measure, objects), objects);
  }

  lemma {:induction false} PackedOk<T>(measure: seq<T> -> Measured, objects: seq<T>)
    ensures StateOk(measure, Packed(measure, objects), objects)
  {
    if objects != [] {
      var p, x := objects[..|objects| - 1], objects[|objects| - 1];
      PackedOk(measure, p);
      PlaceOk(measure, Packed(measure, p), p, x);
      assert objects == p + [x];
    }
  }

  // ---- where groups end, whatever the measure answers -------------------------------------------------------

  /** Group k was closed because its one object does not marshal, alone or after the group before. */
  ghost predicate ClosedAlone<T>(measure: seq<T> -> Measured, groups: seq<seq<T>>, k: nat)
    requires k < |groups|
  {
    |groups[k]| == 1 && (measure(groups[k]).MarshalFails? || (k > 0 && measure(groups[k - 1] + groups[k]).MarshalFails?))
  }

  /** Why group k ends where it does: the next object would put it over the limit, or does not marshal and
      stands alone, or the group itself was closed by such an object. */
  ghost predicate EndsRightly<T>(measure: seq<T> -> Measured, groups: seq<seq<T>>, k: nat)
    requires k + 1 < |groups|
  {
    && groups[k + 1] != []
    && var m := measure(groups[k] + [groups[k + 1][0]]);
    || (m.Size? && m.bytes > 800000)
    || (m.MarshalFails? && |groups[k + 1]| == 1)
    || ClosedAlone(measure, groups, k)
  }

  ghost predicate AllEndRightly<T>(measure: seq<T> -> Measured, groups: seq<seq<T>>) {
    forall k :: 0 <= k < |groups| - 1 ==> EndsRightly(measure, groups, k)
  }

  /** The last closed group may be followed by an open one, whatever comes. */
  ghost predicate MayFollow<T>(measure: seq<T> -> Measured, groups: seq<seq<T>>, x: T) {
    groups == [] || ClosedAlone(measure, groups, |groups| - 1) || Over(measure(groups[|groups| - 1] + [x]))
  }

  ghost predicate EndsState<T>(measure: seq<T> -> Measured, s: State<T>) {
    && AllEndRightly(measure, s.groups)
    && (s.current == [] && s.groups != [] ==> ClosedAlone(measure, s.groups, |s.groups| - 1))
    && (s.current != [] ==> MayFollow(measure, s.groups, s.current[0]))
  }

  lemma EndsSnoc<T>(measure: seq<T> -> Measured, groups: seq<seq<T>>, g: seq<T>)
    requires AllEndRightly(measure, groups) && g != []
    requires groups == [] || EndsRightly(measure, groups + [g], |groups| - 1)
    ensures AllEndRightly(measure, groups + [g])
  {
    forall k | 0 <= k < |groups| ensures EndsRightly(measure, groups + [g], k) {
      if k < |groups| - 1 { assert EndsRightly(measure, groups, k); }
    }
  }

  lemma FlushEnds<T>(measure: seq<T> -> Measured, s: State<T>)
    requires EndsState(measure, s)
    ensures AllEndRightly(measure, Flush(s))
  {
    if s.current != [] { EndsSnoc(measure, s.groups, s.current); }
  }

  lemma PlaceEnds<T>(measure: seq<T> -> Measured, s: State<T>, x: T)
    requires EndsState(measure, s)
    ensures EndsState(measure, Place(measure, s, x))
  {
    var m := measure(s.current + [x]);
    FlushEnds(measure, s);
    if m.MarshalFails? {
      var flushed := Flush(s);
      if s.current == [] { assert [] + [x] == [x]; }
      EndsSnoc(measure, flushed, [x]);
      assert ClosedAlone(measure, flushed + [[x]], |flushed|);
    }
  }

  lemma {:induction false} PackedEnds<T>(measure: seq<T> -> Measured, objects: seq<T>)
    ensures EndsState(measure, Packed(measure, objects))
  {
    if objects != [] {
      PackedEnds(measure, objects[..|objects| - 1]);
      PlaceEnds(measure, Packed(measure, objects[..|objects| - 1]), objects[|objects| - 1]);
    }
  }

  /** For any measure, failures included: no group ends without a reason. */
  lemma GroupsEndRightly<T>(measure: seq<T> -> Measured, objects: seq<T>)
    ensures AllEndRightly(measure, Pack(measure, objects))
  {
    PackedEnds(measure, objects);
    FlushEnds(measure, Packed(measure, objects));
  }

  /** Objects that always marshal, as validated JSON does. */
  ghost predicate Marshals<T>(measure: seq<T> -> Measured, objects: seq<T>) {
    forall i, j :: 0 <= i <= j <= |objects| ==> !measure(objects[i..j]).MarshalFails?
  }

  /** No group can take the first object of the next one. */
  ghost predicate TightAt<T>(measure: seq<T> -> Measured, groups: seq<seq<T>>, k: nat)
    requires k + 1 < |groups|
  {
    groups[k + 1] != [] && Over(measure(groups[k] + [groups[k + 1][0]]))
  }

  ghost predicate Tight<T>(measure: seq<T> -> Measured, groups: seq<seq<T>>) {
    forall k :: 0 <= k < |groups| - 1 ==> TightAt(measure, groups, k)
  }

  lemma PackedNext<T>(measure: seq<T> -> Measured, objects: seq<T>, j: nat)
    requires 0 < j <= |objects|
    ensures Packed(measure, objects[..j]) == Place(measure, Packed(measure, objects[..j - 1]), objects[j - 1])
  {
    assert objects[..j][..j - 1] == objects[..j - 1];
  }

  /** One object more, when the open group is the stretch from i on. */
  lemma PlaceOpen<T>(measure: seq<T> -> Measured, objects: seq<T>, s: State<T>, i: nat, j: nat)
    requires Marshals(measure, objects) && i < j <= |objects| && s.current == objects[i..j - 1]
    ensures s.current + [objects[j - 1]] == objects[i..j] && !measure(objects[i..j]).MarshalFails?
    ensures Place(measure, s, objects[j - 1]) ==
      if Over(measure(objects[i..j])) && i < j - 1 then State(s.groups + [s.current], [objects[j - 1]]) else State(s.groups, objects[i..j])
    ensures objects[j - 1..j] == [objects[j - 1]]
  {
    assert s.current + [objects[j - 1]] == objects[i..j];
  }

  /** Where the open group begins after j objects. */
  lemma {:induction false} OpenGroup<T>(measure: seq<T> -> Measured, objects: seq<T>, j: nat) returns (i: nat)
    requires Marshals(measure, objects) && j <= |objects|
    ensures i <= j && Packed(measure, objects[..j]).current == objects[i..j] && (j > 0 ==> i < j)
  {
    if j == 0 {
      i := 0;
    } else {
      var k := OpenGroup(measure, objects, j - 1);
      PackedNext(measure, objects, j);
      PlaceOpen(measure, objects, Packed(measure, objects[..j - 1]), k, j);
      i := if Over(measure(objects[k..j])) && k < j - 1 then j - 1 else k;
    }
  }

  lemma TightSnoc<T>(measure: seq<T> -> Measured, groups: seq<seq<T>>, last: seq<T>, x: T)
    requires Tight(measure, groups) && groups != [] && groups[|groups| - 1] == last && Over(measure(last + [x]))
    ensures Tight(measure, groups + [[x]])
  {
    forall k | 0 <= k < |groups| ensures TightAt(measure, groups + [[x]], k) {
      if k < |groups| - 1 { assert TightAt(measure, groups, k); }
    }
  }

  lemma TightLonger<T>(measure: seq<T> -> Measured, groups: seq<seq<T>>, last: seq<T>, x: T)
    requires last != [] && Tight(measure, groups + [last])
    ensures Tight(measure, groups + [last + [x]])
  {
    forall k | 0 <= k < |groups| ensures TightAt(measure, groups + [last + [x]], k) {
      assert TightAt(measure, groups + [last], k);
    }
  }

  /** The open group is empty only before the first object. */
  ghost predicate TightState<T>(measure: seq<T> -> Measured, s: State<T>) {
    Tight(measure, Flush(s)) && (s.current == [] ==> s.groups == [])
  }

  lemma PlaceTight<T>(measure: seq<T> -> Measured, s: State<T>, x: T)
    requires TightState(measure, s) && !measure(s.current + [x]).MarshalFails?
    ensures TightState(measure, Place(measure, s, x))
  {
    if s.current != [] {
      if Over(measure(s.current + [x])) {
        TightSnoc(measure, s.groups + [s.current], s.current, x);
      } else {
        TightLonger(measure, s.groups, s.current, x);
      }
    }
  }

  lemma {:induction false} PrefixIsTight<T>(measure: seq<T> -> Measured, objects: seq<T>, j: nat)
    requires Marshals(measure, objects) && j <= |objects|
    ensures TightState(measure, Packed(measure, objects[..j]))
  {
    if j > 0 {
      PrefixIsTight(measure, objects, j - 1);
      var i := OpenGroup(measure, objects, j - 1);
      PackedNext(measure, objects, j);
      var s := Packed(measure, objects[..j - 1]);
      PlaceOpen(measure, objects, s, i, j);
      PlaceTight(measure, s, objects[j - 1]);
    }
  }

  lemma PackingIsTight<T>(measure: seq<T> -> Measured, objects: seq<T>)
    requires Marshals(measure, objects)
    ensures Tight(measure, Pack(measure, objects))
  {
    PrefixIsTight(measure, objects, |objects|);
    assert objects[..|objects|] == objects;
  }

  // ---- optimality -----------------------------------------------------------------------------------------

  ghost predicate OverAt<T>(measure: seq<T> -> Measured, objects: seq<T>, i: nat, j: nat)
    requires i <= j <= |objects|
  {
    Over(measure(objects[i..j]))
  }

  /** A stretch of the list that is over the limit stays over it when it grows. */
  ghost predicate Monotone<T>(measure: seq<T> -> Measured, objects: seq<T>) {
    forall i: nat, i': nat, j': nat, j: nat ::
      (i <= i' <= j' <= j <= |objects| && OverAt(measure, objects, i', j')) ==> OverAt(measure, objects, i, j)
  }

  /** Groups still to be closed when the open group is objects[i..j] and objects[j..] are to come. */
  ghost function Count<T>(measure: seq<T> -> Measured, objects: seq<T>, i: nat, j: nat): nat
    requires i <= j <= |objects|
    decreases |objects| - j
  {
    if j == |objects| then (if i < j then 1 else 0)
    else if i < j && OverAt(measure, objects, i, j + 1) then 1 + Count(measure, objects, j, j + 1)
    else Count(measure, objects, i, j + 1)
  }

  /** The loop closes as many groups as Count says. */
  lemma {:induction false} PackCounts<T>(measure: seq<T> -> Measured, objects: seq<T>, j: nat) returns (i: nat)
    requires Marshals(measure, objects) && j <= |objects|
    ensures i <= j && Packed(measure, objects[..j]).current == objects[i..j] && (j > 0 ==> i < j)
    ensures |Packed(measure, objects[..j]).groups| + Count(measure, objects, i, j) == Count(measure, objects, 0, 0)
  {
    if j == 0 {
      i := 0;
    } else {
      var k := PackCounts(measure, objects, j - 1);
      PackedNext(measure, objects, j);
      PlaceOpen(measure, objects, Packed(measure, objects[..j - 1]), k, j);
      i := if OverAt(measure, objects, k, j) && k < j - 1 then j - 1 else k;
    }
  }

  /** A shorter open group needs no more groups, and a longer one at most one more. */
  lemma {:induction false} CountBounds<T>(measure: seq<T> -> Measured, objects: seq<T>, i: nat, i': nat, j: nat)
    requires Monotone(measure, objects) && i <= i' <= j <= |objects|
    ensures Count(measure, objects, i', j) <= Count(measure, objects, i, j) <= 1 + Count(measure, objects, i', j)
    decreases |objects| - j
  {
    if j < |objects| {
      CountBounds(measure, objects, i, i', j + 1);
      CountBounds(measure, objects, i', j, j + 1);
      assert OverAt(measure, objects, i', j + 1) ==> OverAt(measure, objects, i, j + 1);
    }
  }

  /** A stretch that is a lawful group is never split by the loop that starts at its beginning. */
  lemma {:induction false} Absorb<T>(measure: seq<T> -> Measured, objects: seq<T>, i: nat, j: nat, e: nat)
    requires Monotone(measure, objects) && i <= j <= e <= |objects|
    requires e - i > 1 ==> !OverAt(measure, objects, i, e)
    ensures Count(measure, objects, i, j) == Count(measure, objects, i, e)
    decreases e - j
  {
    if j < e {
      Absorb(measure, objects, i, j + 1, e);
      assert OverAt(measure, objects, i, j + 1) ==> OverAt(measure, objects, i, e);
    }
  }

  /** A partition whose groups are single objects or within the limit. */
  ghost predicate LawfulPartition<T>(measure: seq<T> -> Measured, objects: seq<T>, parts: seq<seq<T>>) {
    && Flat(parts) == objects
    && forall g :: g in parts ==> |g| <= 1 || !Over(measure(g))
  }

  lemma {:induction false} CountAtMost<T>(measure: seq<T> -> Measured, objects: seq<T>, o: nat, parts: seq<seq<T>>)
    requires Monotone(measure, objects) && o <= |objects| && LawfulPartition(measure, objects[o..], parts)
    ensures Count(measure, objects, o, o) <= |parts|
    decreases |parts|
  {
    if parts == [] {
      assert objects[o..] == [];
    } else {
      var g, e := parts[0], o + |parts[0]|;
      assert parts == [g] + parts[1..];
      FlatCons(g, parts[1..]);
      assert objects[o..] == g + Flat(parts[1..]);
      assert g == objects[o..][..|g|] == objects[o..e];
      assert objects[e..] == objects[o..][|g|..] == Flat(parts[1..]);
      CountAtMost(measure, objects, e, parts[1..]);
      Absorb(measure, objects, o, o, e);
      CountBounds(measure, objects, o, e, e);
    }
  }

  /** Greedy packing is optimal: no lawful contiguous partition has fewer groups. */
  lemma GreedyIsOptimal<T>(measure: seq<T> -> Measured, objects: seq<T>, parts: seq<seq<T>>)
    requires Marshals(measure, objects) && Monotone(measure, objects) && LawfulPartition(measure, objects, parts)
    ensures |Pack(measure, objects)| <= |parts|
  {
    var i := PackCounts(measure, objects, |objects|);
    assert objects[..|objects|] == objects && objects[0..] == objects;
    CountAtMost(measure, objects, 0, parts);
  }

  /** Without monotone sizes greedy packing can be beaten: three objects of which any two are too large
      together, but not all three. */
  lemma GreedyNeedsMonotone()
    ensures var measure := (s: seq<nat>) => Size(if |s| == 2 then MAX_CHUNK_BYTES + 1 else 0);
      Marshals(measure, [0, 1, 2]) && LawfulPartition(measure, [0, 1, 2], [[0, 1, 2]]) && |Pack(measure, [0, 1, 2])| == 3
  {
    var measure := (s: seq<nat>) => Size(if |s| == 2 then MAX_CHUNK_BYTES + 1 else 0);
    assert [0, 1, 2][..2] == [0, 1] && [0, 1][..1] == [0] && [0][..0] == [];
    assert Packed(measure, [0]) == State([], [0]);
    assert Packed(measure, [0, 1]) == State([[0]], [1]);
    assert Packed(measure, [0, 1, 2]) == State([[0], [1]], [2]);
    assert [[0, 1, 2]] == [] + [[0, 1, 2]];
    FlatSnoc([], [0, 1, 2]);
  }
}
