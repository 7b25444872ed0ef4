/** There is a lawful codec: JSON lists have a text form that can be read back. */
module LawfulCodec {
  import opened OwnerRef
  import opened KeyValue
  import opened ChunkCodec

  function Ticks(n: nat): string {
    if n == 0 then ";" else "x" + Ticks(n - 1)
  }

  /** A text that tells its own length. */
  function Frame(s: string): string {
    Ticks(|s|) + s
  }

  lemma {:induction false} TicksExactly(m: nat, n: nat, a: string, b: string)
    requires Ticks(m) + a == Ticks(n) + b
    ensures m == n && a == b
  {
    var s, t := Ticks(m) + a, Ticks(n) + b;
    assert s[0] == t[0];
    if m > 0 && n > 0 {
      assert s[1..] == Ticks(m - 1) + a && t[1..] == Ticks(n - 1) + b;
      TicksExactly(m - 1, n - 1, a, b);
    } else {
      assert s[1..] == a && t[1..] == b;
    }
  }

  lemma FrameExactly(a: string, x: string, b: string, y: string)
    requires Frame(a) + x == Frame(b) + y
    ensures a == b && x == y
  {
    assert Frame(a) + x == Ticks(|a|) + (a + x) && Frame(b) + y == Ticks(|b|) + (b + y);
    TicksExactly(|a|, |b|, a + x, b + y);
    assert a == (a + x)[..|a|] && b == (b + y)[..|b|] && x == (a + x)[|a|..] && y == (b + y)[|b|..];
  }

  ghost function Text(v: Json): string
    decreases v, 1, 0
  {
    match v
    case JNull => "n"
    case JBool(b) => if b then "t" else "f"
    case JNum(text) => "#" + text
    case JStr(s) => "$" + s
    case JArr(items) => "[" + ListText(items)
    case JObj(fields) => "{" + MapText(v, fields)
  }

  ghost function ListText(items: seq<Json>): string
    decreases items, 1, 1
  {
    if items == [] then "" else "," + Frame(Text(items[0])) + ListText(items[1..])
  }

  ghost predicate Part(v: Json, rest: map<string, Json>) {
    v.JObj? && forall k :: k in rest ==> k in v.fields && rest[k] == v.fields[k]
  }

  /** Fields of `v` in some order. */
  ghost function MapText(v: Json, rest: map<string, Json>): string
    requires Part(v, rest)
    decreases v, 0, |rest|
  {
    if rest == map[] then ""
    else
      var k :| k in rest;
      "," + Frame(k) + Frame(Text(v.fields[k])) + MapText(v, rest - {k})
  }

  lemma {:induction false} TextExactly(v: Json, u: Json)
    requires Text(v) == Text(u)
    ensures v == u
    decreases v, 1, 0
  {
    assert Text(v)[0] == Text(u)[0];
    match v
    case JNum(text) => assert text == Text(v)[1..] == Text(u)[1..];
    case JStr(s) => assert s == Text(v)[1..] == Text(u)[1..];
    case JArr(items) =>
      assert ListText(items) == Text(v)[1..] == Text(u)[1..] == ListText(u.items);
      ListTextExactly(items, u.items);
    case JObj(fields) =>
      assert MapText(v, fields) == Text(v)[1..] == Text(u)[1..] == MapText(u, u.fields);
      MapTextExactly(v, fields, u, u.fields);
    case _ =>
  }

  lemma {:induction false} ListTextExactly(a: seq<Json>, b: seq<Json>)
    requires ListText(a) == ListText(b)
    ensures a == b
    decreases a, 1, 1
  {
    if a != [] && b != [] {
      var x, y := Frame(Text(a[0])) + ListText(a[1..]), Frame(Text(b[0])) + ListText(b[1..]);
      assert ListText(a) == "," + x && ListText(b) == "," + y;
      assert x == ListText(a)[1..] == ListText(b)[1..] == y;
      FrameExactly(Text(a[0]), ListText(a[1..]), Text(b[0]), ListText(b[1..]));
      TextExactly(a[0], b[0]);
      ListTextExactly(a[1..], b[1..]);
      assert a == [a[0]] + a[1..] && b == [b[0]] + b[1..];
    }
  }

  /** A text of fields begins with one of them. */
  lemma MapTextKey(v: Json, all: map<string, Json>) returns (k: string)
    requires Part(v, all) && all != map[]
    ensures k in all && MapText(v, all) == "," + Frame(k) + Frame(Text(v.fields[k])) + MapText(v, all - {k})
  {
    k :| k in all && MapText(v, all) == "," + Frame(k) + Frame(Text(v.fields[k])) + MapText(v, all - {k});
  }

  lemma MapTextFirst(v: Json, all: map<string, Json>) returns (k: string, value: Json, rest: map<string, Json>)
    requires Part(v, all) && all != map[]
    ensures all == rest[k := value] && |rest| < |all| && Part(v, rest) && k in v.fields && v.fields[k] == value
    ensures MapText(v, all) == "," + (Frame(k) + (Frame(Text(value)) + MapText(v, rest)))
  {
    k := MapTextKey(v, all);
    value, rest := v.fields[k], all - {k};
    Smaller(all, k);
    Regroup(Frame(k), Frame(Text(value)), MapText(v, rest));
  }

  lemma Regroup(a: string, b: string, c: string)
    ensures "," + a + b + c == "," + (a + (b + c))
  {
  }

  lemma Smaller(all: map<string, Json>, k: string)
    requires k in all
    ensures all == (all - {k})[k := all[k]] && |all - {k}| < |all|
  {
    assert (all - {k}).Keys == all.Keys - {k};
    assert |(all - {k}).Keys| == |all - {k}| && |all.Keys| == |all|;
  }

  lemma FieldExactly(k: string, x: string, rest: string, l: string, y: string, more: string)
    requires "," + (Frame(k) + (Frame(x) + rest)) == "," + (Frame(l) + (Frame(y) + more))
    ensures k == l && x == y && rest == more
  {
    var a, b := Frame(k) + (Frame(x) + rest), Frame(l) + (Frame(y) + more);
    assert a == ("," + a)[1..] == ("," + b)[1..] == b;
    FrameExactly(k, Frame(x) + rest, l, Frame(y) + more);
    FrameExactly(x, rest, y, more);
  }

  lemma {:induction false} MapTextExactly(v: Json, a: map<string, Json>, u: Json, b: map<string, Json>)
    requires Part(v, a) && Part(u, b) && MapText(v, a) == MapText(u, b)
    ensures a == b
    decreases v, 0, |a|
  {
    if a != map[] && b != map[] {
      var k, x, rest := MapTextFirst(v, a);
      var l, y, more := MapTextFirst(u, b);
      FieldExactly(k, Text(x), MapText(v, rest), l, Text(y), MapText(u, more));
      TextExactly(x, y);
      MapTextExactly(v, rest, u, more);
    }
  }

  /** The assumptions about encoding and hashing can be met together. */
  lemma LawfulCodecExists() returns (c: Codec)
    ensures Lawful(c)
  {
    c := Codec(
      g => ListText(g),
      b => if exists g :: ListText(g) == b then var g :| ListText(g) == b; Some(g) else None,
      b => b, s => Some(s), b => "h" + b);
    forall g ensures c.gunzip(c.gzip(g)) == Some(g) {
      assert ListText(g) == c.gzip(g);
      var h := c.gunzip(c.gzip(g)).value;
      ListTextExactly(g, h);
    }
    forall a, b | c.sha(a) == c.sha(b) ensures a == b {
      assert a == c.sha(a)[1..] && b == c.sha(b)[1..];
    }
  }
}
