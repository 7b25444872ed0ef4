/** Key/Value normalisation: ordered maps that were serialised as lists of {Key, Value} pairs. */
module KeyValue {
  import opened OwnerRef

  /** A decoded JSON value; numbers are kept as their text. */
  datatype Json =
    | JNull
    | JBool(b: bool)
    | JNum(text: string)
    | JStr(s: string)
    | JArr(items: seq<Json>)
    | JObj(fields: map<string, Json>)

  const KEY := "Key"
  const VALUE := "Value"

  predicate IsPair(v: Json) {
    v.JObj? && KEY in v.fields && VALUE in v.fields
  }

  /** The only test a list gets: its first element. */
  predicate PairHead(items: seq<Json>) {
    items != [] && IsPair(items[0])
  }

  /** A key that is not a string is printed; `sprint` stands for fmt.Sprint. */
  function PairKey(sprint: Json -> string, key: Json): string {
    if key.JStr? then key.s else sprint(key)
  }

  /** convertKeyValueArrayToMap: elements that are not pairs are skipped, later keys win. */
  function ConvertPairs(sprint: Json -> string, items: seq<Json>): map<string, Json>
    decreases items
  {
    if items == [] then map[]
    else
      var init := ConvertPairs(sprint, items[..|items| - 1]);
      var p := items[|items| - 1];
      if IsPair(p) then init[PairKey(sprint, p.fields[KEY]) := Convert(sprint, p.fields[VALUE])] else init
  }

  /** convertMapSliceToMap. */
  function Convert(sprint: Json -> string, v: Json): Json
    decreases v
  {
    match v
    case JArr(items) =>
      if PairHead(items) then JObj(ConvertPairs(sprint, items))
      else JArr(seq(|items|, i requires 0 <= i < |items| => Convert(sprint, items[i])))
    case JObj(fields) => JObj(map k | k in fields :: Convert(sprint, fields[k]))
    case _ => v
  }

  method ConvertKeyValueArrayToMap(sprint: Json -> string, items: seq<Json>) returns (result: map<string, Json>)
    ensures result == ConvertPairs(sprint, items)
    decreases items
  {
    result := map[];
    for i := 0 to |items|
      invariant result == ConvertPairs(sprint, items[..i])
    {
      assert items[..i + 1][..i] == items[..i];
      var pair := items[i];
      if !pair.JObj? { continue; }
      if KEY !in pair.fields || VALUE !in pair.fields { continue; }
      var value := ConvertMapSliceToMap(sprint, pair.fields[VALUE]);
      result := result[PairKey(sprint, pair.fields[KEY]) := value];
    }
    assert items[..|items|] == items;
  }

  method ConvertMapSliceToMap(sprint: Json -> string, v: Json) returns (r: Json)
    ensures r == Convert(sprint, v)
    decreases v
  {
    match v
    case JArr(items) =>
      if PairHead(items) {
        var m := ConvertKeyValueArrayToMap(sprint, items);
        return JObj(m);
      }
      var result: seq<Json> := [];
      for i := 0 to |items|
        invariant |result| == i && forall j :: 0 <= j < i ==> result[j] == Convert(sprint, items[j])
      {
        var x := ConvertMapSliceToMap(sprint, items[i]);
        result := result + [x];
      }
      return JArr(result);
    case JObj(fields) =>
      var result: map<string, Json> := map[];
      var rest := fields.Keys;
      while rest != {}
        invariant rest <= fields.Keys && result == map k | k in fields && k !in rest :: Convert(sprint, fields[k])
        decreases |rest|
      {
        var k :| k in rest;
        var x := ConvertMapSliceToMap(sprint, fields[k]);
        result := result[k := x];
        rest := rest - {k};
      }
      return JObj(result);
    case _ => return v;
  }

  // ---- the pair-list encoding ------------------------------------------------------------------------

  function PairName(item: Json): string {
    if IsPair(item) && item.fields[KEY].JStr? then item.fields[KEY].s else ""
  }

  function PairValue(item: Json): Json {
    if IsPair(item) then item.fields[VALUE] else JNull
  }

  ghost predicate NamedPairs(items: seq<Json>) {
    && (forall i :: 0 <= i < |items| ==> IsPair(items[i]) && items[i].fields[KEY].JStr?)
    && (forall i, j :: 0 <= i < j < |items| ==> PairName(items[i]) != PairName(items[j]))
  }

  ghost predicate EncodesPairs(fields: map<string, Json>, items: seq<Json>) {
    && NamedPairs(items)
    && (forall i :: 0 <= i < |items| ==> PairName(items[i]) in fields)
    && (forall k :: k in fields ==> exists i :: 0 <= i < |items| && PairName(items[i]) == k)
  }

  /** `e` is `v` with every map written as a list of pairs, in any order of keys. */
  ghost predicate Encodes(v: Json, e: Json)
    decreases v
  {
    match v
    case JObj(fields) =>
      && e.JArr? && EncodesPairs(fields, e.items)
      && forall i :: 0 <= i < |e.items| ==> Encodes(fields[PairName(e.items[i])], PairValue(e.items[i]))
    case JArr(items) =>
      e.JArr? && |e.items| == |items| && forall i :: 0 <= i < |items| ==> Encodes(items[i], e.items[i])
    case _ => e == v
  }

  ghost predicate NoEmptyMap(v: Json) {
    match v
    case JObj(fields) => fields != map[] && forall k :: k in fields ==> NoEmptyMap(fields[k])
    case JArr(items) => forall i :: 0 <= i < |items| ==> NoEmptyMap(items[i])
    case _ => true
  }

  /** No list in the tree starts with a map that has both keys. */
  ghost predicate NoPairHead(v: Json) {
    match v
    case JObj(fields) => forall k :: k in fields ==> NoPairHead(fields[k])
    case JArr(items) => !PairHead(items) && forall i :: 0 <= i < |items| ==> NoPairHead(items[i])
    case _ => true
  }

  /** Converting a list of string-keyed pairs with distinct keys. */
  lemma {:induction false} PairsConverted(sprint: Json -> string, items: seq<Json>, i: nat)
    requires NamedPairs(items) && i < |items|
    ensures PairName(items[i]) in ConvertPairs(sprint, items)
    ensures ConvertPairs(sprint, items)[PairName(items[i])] == Convert(sprint, PairValue(items[i]))
    decreases |items|
  {
    if i < |items| - 1 {
      PairsConverted(sprint, items[..|items| - 1], i);
      assert PairName(items[i]) != PairName(items[|items| - 1]);
    }
  }

  lemma {:induction false} PairsNamed(sprint: Json -> string, items: seq<Json>, k: string) returns (i: nat)
    requires NamedPairs(items) && k in ConvertPairs(sprint, items)
    ensures i < |items| && PairName(items[i]) == k
    decreases |items|
  {
    i := |items| - 1;
    if k != PairName(items[i]) {
      i := PairsNamed(sprint, items[..|items| - 1], k);
    }
  }

  /** The fields an encoded map converts to. */
  lemma FieldsConverted(sprint: Json -> string, fields: map<string, Json>, items: seq<Json>)
    requires EncodesPairs(fields, items)
    ensures ConvertPairs(sprint, items).Keys == fields.Keys
    ensures forall i :: 0 <= i < |items| ==>
      ConvertPairs(sprint, items)[PairName(items[i])] == Convert(sprint, PairValue(items[i]))
  {
    forall i | 0 <= i < |items|
      ensures PairName(items[i]) in ConvertPairs(sprint, items)
      ensures ConvertPairs(sprint, items)[PairName(items[i])] == Convert(sprint, PairValue(items[i]))
    {
      PairsConverted(sprint, items, i);
    }
    forall k ensures k in ConvertPairs(sprint, items) <==> k in fields {
      if k in ConvertPairs(sprint, items) { var i := PairsNamed(sprint, items, k); }
    }
  }

  /** A pair under the key `k`: a key that is not a string counts as its printed form. */
  predicate PairUnder(sprint: Json -> string, item: Json, k: string) {
    && item.JObj? && "Key" in item.fields && "Value" in item.fields
    && k == if item.fields["Key"].JStr? then item.fields["Key"].s else sprint(item.fields["Key"])
  }

  /** The last pair under `k` is item i. */
  ghost predicate LastUnder(sprint: Json -> string, items: seq<Json>, k: string, i: nat) {
    i < |items| && PairUnder(sprint, items[i], k) && forall j :: i < j < |items| ==> !PairUnder(sprint, items[j], k)
  }

  lemma PairsSnoc(sprint: Json -> string, init: seq<Json>, last: Json, k: string)
    ensures var m := ConvertPairs(sprint, init + [last]);
      if PairUnder(sprint, last, k) then k in m && m[k] == Convert(sprint, last.fields["Value"])
      else (k in m <==> k in ConvertPairs(sprint, init)) && (k in m ==> m[k] == ConvertPairs(sprint, init)[k])
  {
    assert (init + [last])[..|init|] == init;
  }

  /** Any list taken as pairs: the last pair under a key decides, and elements that are not pairs have no part. */
  lemma {:induction false} LastPairWins(sprint: Json -> string, items: seq<Json>, k: string, i: nat)
    requires LastUnder(sprint, items, k, i)
    ensures k in ConvertPairs(sprint, items) && ConvertPairs(sprint, items)[k] == Convert(sprint, items[i].fields["Value"])
    decreases |items|
  {
    var init, last := items[..|items| - 1], items[|items| - 1];
    assert init + [last] == items;
    PairsSnoc(sprint, init, last, k);
    if i < |init| { LastPairWins(sprint, init, k, i); }
  }

  /** And a key is there only if some pair has it. */
  lemma {:induction false} KeyHasPair(sprint: Json -> string, items: seq<Json>, k: string) returns (i: nat)
    requires k in ConvertPairs(sprint, items)
    ensures LastUnder(sprint, items, k, i)
    decreases |items|
  {
    var init, last := items[..|items| - 1], items[|items| - 1];
    assert init + [last] == items;
    PairsSnoc(sprint, init, last, k);
    i := |items| - 1;
    if !PairUnder(sprint, last, k) { i := KeyHasPair(sprint, init, k); }
  }

  lemma EncodedIsNoObject(v: Json, e: Json)
    requires Encodes(v, e)
    ensures !e.JObj?
  {
  }

  /** Conversion undoes the encoding exactly on trees without empty maps: an empty map is encoded as an
      empty list and stays one. */
  lemma {:induction false} ConversionInvertsEncoding(sprint: Json -> string, v: Json, e: Json)
    requires Encodes(v, e)
    ensures Convert(sprint, e) == v <==> NoEmptyMap(v)
    decreases v
  {
    match v
    case JObj(fields) =>
      FieldsConverted(sprint, fields, e.items);
      forall i | 0 <= i < |e.items|
        ensures var k := PairName(e.items[i]); Convert(sprint, PairValue(e.items[i])) == fields[k] <==> NoEmptyMap(fields[k])
      {
        ConversionInvertsEncoding(sprint, fields[PairName(e.items[i])], PairValue(e.items[i]));
      }
      MapsEqual(sprint, fields, e.items);
    case JArr(items) =>
      forall i | 0 <= i < |items| ensures Convert(sprint, e.items[i]) == items[i] <==> NoEmptyMap(items[i]) {
        ConversionInvertsEncoding(sprint, items[i], e.items[i]);
      }
      if items != [] { EncodedIsNoObject(items[0], e.items[0]); }
    case _ =>
  }

  lemma MapsEqual(sprint: Json -> string, fields: map<string, Json>, items: seq<Json>)
    requires EncodesPairs(fields, items)
    requires forall i :: 0 <= i < |items| ==>
      var k := PairName(items[i]); Convert(sprint, PairValue(items[i])) == fields[k] <==> NoEmptyMap(fields[k])
    ensures ConvertPairs(sprint, items) == fields <==> forall k :: k in fields ==> NoEmptyMap(fields[k])
    ensures items == [] <==> fields == map[]
  {
    FieldsConverted(sprint, fields, items);
    if items == [] { assert fields.Keys == {}; }
    var converted := ConvertPairs(sprint, items);
    forall k | k in fields ensures converted[k] == fields[k] <==> NoEmptyMap(fields[k]) {
      var i :| 0 <= i < |items| && PairName(items[i]) == k;
    }
    SameFields(converted, fields);
  }

  lemma SameFields(a: map<string, Json>, b: map<string, Json>)
    requires a.Keys == b.Keys
    ensures a == b <==> forall k :: k in b ==> a[k] == b[k]
  {
    if forall k :: k in b ==> a[k] == b[k] { assert a == b; }
  }

  /** `e` is `v` with some of its maps, wherever they stand, written as lists of pairs. */
  ghost predicate Spells(v: Json, e: Json)
    decreases v
  {
    match v
    case JObj(fields) =>
      if e.JArr? then
        EncodesPairs(fields, e.items) && forall i :: 0 <= i < |e.items| ==> Spells(fields[PairName(e.items[i])], PairValue(e.items[i]))
      else
        e.JObj? && e.fields.Keys == fields.Keys && forall k :: k in fields ==> Spells(fields[k], e.fields[k])
    case JArr(items) =>
      e.JArr? && |e.items| == |items| && forall i :: 0 <= i < |items| ==> Spells(items[i], e.items[i])
    case _ => e == v
  }

  /** Nothing in the text is ambiguous: no map written as a list is empty, and no list of the tree is written with
      a pair at its head. */
  ghost predicate Legible(v: Json, e: Json)
    requires Spells(v, e)
    decreases v
  {
    match v
    case JObj(fields) =>
      if e.JArr? then
        fields != map[] && forall i :: 0 <= i < |e.items| ==> Legible(fields[PairName(e.items[i])], PairValue(e.items[i]))
      else forall k :: k in fields ==> Legible(fields[k], e.fields[k])
    case JArr(items) => !PairHead(e.items) && forall i :: 0 <= i < |items| ==> Legible(items[i], e.items[i])
    case _ => true
  }

  lemma PairsEqual(sprint: Json -> string, fields: map<string, Json>, items: seq<Json>)
    requires EncodesPairs(fields, items)
    ensures ConvertPairs(sprint, items) == fields <==>
              forall i :: 0 <= i < |items| ==> Convert(sprint, PairValue(items[i])) == fields[PairName(items[i])]
    ensures PairHead(items) <==> fields != map[]
  {
    FieldsConverted(sprint, fields, items);
    if items == [] { assert fields.Keys == {}; } else { assert PairName(items[0]) in fields; }
    if forall i :: 0 <= i < |items| ==> Convert(sprint, PairValue(items[i])) == fields[PairName(items[i])] {
      forall k | k in fields ensures ConvertPairs(sprint, items)[k] == fields[k] {
        var i :| 0 <= i < |items| && PairName(items[i]) == k;
      }
      SameFields(ConvertPairs(sprint, items), fields);
    }
  }

  /** Conversion reads back every mixture of the two spellings - a map may hold lists of pairs, a list of pairs
      maps - exactly when the text is legible. */
  lemma {:induction false} ConversionReadsExactly(sprint: Json -> string, v: Json, e: Json)
    requires Spells(v, e)
    ensures Convert(sprint, e) == v <==> Legible(v, e)
    decreases v
  {
    match v
    case JObj(fields) =>
      if e.JArr? {
        forall i | 0 <= i < |e.items|
          ensures var k := PairName(e.items[i]);
            Convert(sprint, PairValue(e.items[i])) == fields[k] <==> Legible(fields[k], PairValue(e.items[i]))
        {
          ConversionReadsExactly(sprint, fields[PairName(e.items[i])], PairValue(e.items[i]));
        }
        PairsEqual(sprint, fields, e.items);
      } else {
        forall k | k in fields ensures Convert(sprint, e.fields[k]) == fields[k] <==> Legible(fields[k], e.fields[k]) {
          ConversionReadsExactly(sprint, fields[k], e.fields[k]);
        }
        SameFields(Convert(sprint, e).fields, fields);
      }
    case JArr(items) =>
      forall i | 0 <= i < |items| ensures Convert(sprint, e.items[i]) == items[i] <==> Legible(items[i], e.items[i]) {
        ConversionReadsExactly(sprint, items[i], e.items[i]);
      }
    case _ =>
  }

  /** Conversion leaves a tree alone exactly when it holds no list headed by a pair; a second conversion
      never repairs the first. */
  lemma {:induction false} FixedExactly(sprint: Json -> string, v: Json)
    ensures Convert(sprint, v) == v <==> NoPairHead(v)
    ensures Convert(sprint, Convert(sprint, v)) == v <==> NoPairHead(v)
    decreases v
  {
    match v
    case JObj(fields) =>
      forall k | k in fields
        ensures Convert(sprint, fields[k]) == fields[k] <==> NoPairHead(fields[k])
        ensures Convert(sprint, Convert(sprint, fields[k])) == fields[k] <==> NoPairHead(fields[k])
      {
        FixedExactly(sprint, fields[k]);
      }
      ObjectTwice(sprint, fields);
    case JArr(items) =>
      forall i | 0 <= i < |items|
        ensures Convert(sprint, items[i]) == items[i] <==> NoPairHead(items[i])
        ensures Convert(sprint, Convert(sprint, items[i])) == items[i] <==> NoPairHead(items[i])
      {
        FixedExactly(sprint, items[i]);
      }
      ListTwice(sprint, items);
    case _ =>
  }

  lemma ObjectTwice(sprint: Json -> string, fields: map<string, Json>)
    ensures Convert(sprint, JObj(fields)) == JObj(fields) <==> forall k :: k in fields ==> Convert(sprint, fields[k]) == fields[k]
    ensures Convert(sprint, Convert(sprint, JObj(fields))) == JObj(fields) <==>
              forall k :: k in fields ==> Convert(sprint, Convert(sprint, fields[k])) == fields[k]
  {
    var once := Convert(sprint, JObj(fields)).fields;
    assert once.Keys == fields.Keys;
    var twice := Convert(sprint, JObj(once)).fields;
    assert twice.Keys == fields.Keys;
    assert forall k :: k in fields ==> twice[k] == Convert(sprint, Convert(sprint, fields[k]));
    if forall k :: k in fields ==> Convert(sprint, Convert(sprint, fields[k])) == fields[k] { assert twice == fields; }
    if forall k :: k in fields ==> Convert(sprint, fields[k]) == fields[k] { assert once == fields; }
  }

  lemma ListTwice(sprint: Json -> string, items: seq<Json>)
    ensures PairHead(items) ==> Convert(sprint, JArr(items)).JObj? && Convert(sprint, Convert(sprint, JArr(items))).JObj?
    ensures !PairHead(items) ==>
              (Convert(sprint, JArr(items)) == JArr(items) <==> forall i :: 0 <= i < |items| ==> Convert(sprint, items[i]) == items[i])
    ensures !PairHead(items) && Convert(sprint, Convert(sprint, JArr(items))) == JArr(items) ==>
              forall i :: 0 <= i < |items| ==> Convert(sprint, Convert(sprint, items[i])) == items[i]
    ensures !PairHead(items) && Convert(sprint, JArr(items)) == JArr(items) ==>
              Convert(sprint, Convert(sprint, JArr(items))) == JArr(items)
  {
    if !PairHead(items) {
      var once := Convert(sprint, JArr(items)).items;
      assert |once| == |items| && forall i :: 0 <= i < |items| ==> once[i] == Convert(sprint, items[i]);
      if forall i :: 0 <= i < |items| ==> Convert(sprint, items[i]) == items[i] { assert once == items; }
      var again := Convert(sprint, JArr(once));
      if again == JArr(items) {
        assert !PairHead(once);
        assert forall i :: 0 <= i < |items| ==> again.items[i] == Convert(sprint, once[i]);
      }
    }
  }

  // ---- decoding a chunk and building the archive ------------------------------------------------------

  /** One item of a chunk: a list is taken as pairs whatever its head, a map is converted, anything else is
      skipped. */
  function DecodeItem(sprint: Json -> string, item: Json): Option<Json> {
    match item
    case JArr(items) => Some(JObj(ConvertPairs(sprint, items)))
    case JObj(_) => Some(Convert(sprint, item))
    case _ => None
  }

  /** createJSONArchive converts every collected object once more. */
  function ArchiveItem(sprint: Json -> string, obj: Json): Json {
    Convert(sprint, obj)
  }

  /** Decoding and archiving an encoded tree: two conversions give it back exactly when it has no empty map
      and no list headed by a pair. */
  lemma {:induction false} TwiceFromEncoding(sprint: Json -> string, v: Json, e: Json)
    requires Encodes(v, e)
    ensures Convert(sprint, Convert(sprint, e)) == v <==> NoEmptyMap(v) && NoPairHead(v)
    decreases v
  {
    ConversionInvertsEncoding(sprint, v, e);
    FixedExactly(sprint, v);
    match v
    case JObj(fields) =>
      if fields != map[] { EncodedObjectTwice(sprint, fields, e.items); }
    case JArr(items) =>
      forall i | 0 <= i < |items|
        ensures Convert(sprint, Convert(sprint, e.items[i])) == items[i] <==> NoEmptyMap(items[i]) && NoPairHead(items[i])
      {
        TwiceFromEncoding(sprint, items[i], e.items[i]);
      }
      if items != [] { EncodedIsNoObject(items[0], e.items[0]); }
      ListTwiceFrom(sprint, items, e.items);
    case _ =>
  }

  lemma ListTwiceFrom(sprint: Json -> string, items: seq<Json>, es: seq<Json>)
    requires |items| == |es| && !PairHead(es)
    requires forall i :: 0 <= i < |items| ==>
      (Convert(sprint, Convert(sprint, es[i])) == items[i] <==> NoEmptyMap(items[i]) && NoPairHead(items[i]))
    ensures Convert(sprint, Convert(sprint, JArr(es))) == JArr(items) ==>
              NoEmptyMap(JArr(items)) && forall i :: 0 <= i < |items| ==> NoPairHead(items[i])
    ensures Convert(sprint, Convert(sprint, JArr(es))) == JArr(items) ==> !PairHead(Convert(sprint, JArr(es)).items)
  {
    var once := Convert(sprint, JArr(es)).items;
    assert |once| == |es| && forall i :: 0 <= i < |es| ==> once[i] == Convert(sprint, es[i]);
    var again := Convert(sprint, JArr(once));
    if again == JArr(items) {
      assert !PairHead(once);
      assert forall i :: 0 <= i < |items| ==> again.items[i] == Convert(sprint, once[i]);
    }
  }

  lemma {:induction false} EncodedObjectTwice(sprint: Json -> string, fields: map<string, Json>, items: seq<Json>)
    requires Encodes(JObj(fields), JArr(items))
    ensures Convert(sprint, JObj(ConvertPairs(sprint, items))) == JObj(fields) <==>
              forall k :: k in fields ==> NoEmptyMap(fields[k]) && NoPairHead(fields[k])
    ensures fields != map[] ==> PairHead(items)
    decreases JObj(fields), 0
  {
    FieldsConverted(sprint, fields, items);
    var once := ConvertPairs(sprint, items);
    var twice := Convert(sprint, JObj(once)).fields;
    assert twice.Keys == fields.Keys;
    if items == [] { assert fields.Keys == {}; }
    forall k | k in fields ensures twice[k] == fields[k] <==> NoEmptyMap(fields[k]) && NoPairHead(fields[k]) {
      var i :| 0 <= i < |items| && PairName(items[i]) == k;
      TwiceFromEncoding(sprint, fields[k], PairValue(items[i]));
      assert twice[k] == Convert(sprint, Convert(sprint, PairValue(items[i])));
    }
    SameFields(twice, fields);
  }

  /** The path of a stored object through decode and archive: an object written as pairs comes back exactly
      when no value in it holds an empty map or a list headed by a pair - an empty object itself does come
      back - and an object written as a map exactly when it holds no list headed by a pair. */
  lemma ArchiveReturnsObject(sprint: Json -> string, fields: map<string, Json>, e: Json)
    requires Encodes(JObj(fields), e)
    ensures DecodeItem(sprint, e).Some?
    ensures ArchiveItem(sprint, DecodeItem(sprint, e).value) == JObj(fields) <==>
              forall k :: k in fields ==> NoEmptyMap(fields[k]) && NoPairHead(fields[k])
    ensures DecodeItem(sprint, JObj(fields)).Some?
    ensures ArchiveItem(sprint, DecodeItem(sprint, JObj(fields)).value) == JObj(fields) <==> NoPairHead(JObj(fields))
  {
    EncodedObjectTwice(sprint, fields, e.items);
    FixedExactly(sprint, JObj(fields));
  }
}
