/** The registry of snapshot and content kinds: five maps, a builder over parallel lists, and a rollback. */
module GvkRegistry {
  import opened OwnerRef

  datatype Gvk = Gvk(group: string, version: string, kind: string)

  // ---- text form -----------------------------------------------------------------------------------------

  /** Position of the first slash, or the length. */
  function FirstSlash(s: string): (i: nat)
    ensures i <= |s| && (forall j :: 0 <= j < i ==> s[j] != '/') && (i < |s| ==> s[i] == '/')
  {
    if s == "" || s[0] == '/' then 0 else 1 + FirstSlash(s[1..])
  }

  function Parse(kind: string, apiVersion: string): Gvk {
    var i := FirstSlash(apiVersion);
    if i < |apiVersion| then Gvk(apiVersion[..i], apiVersion[i + 1..], kind) else Gvk("", apiVersion, kind)
  }

  /** GroupVersion().String(). */
  function ApiVersion(g: Gvk): string {
    if g.group == "" then g.version else g.group + "/" + g.version
  }

  /** What the builder makes of a kind it is given. */
  function Normal(g: Gvk): Gvk {
    Parse(g.kind, ApiVersion(g))
  }

  predicate SlashFree(s: string) {
    forall i :: 0 <= i < |s| ==> s[i] != '/'
  }

  lemma SlashUnique(s: string, i: nat)
    requires i < |s| && s[i] == '/' && SlashFree(s[..i])
    ensures FirstSlash(s) == i
  {
    assert forall j :: 0 <= j < i ==> s[j] == s[..i][j];
  }

  /** Printing and parsing give a kind back exactly when its group has no slash, and its version has none
      either if the group is empty. */
  lemma ParsesBackExactly(g: Gvk)
    ensures Normal(g) == g <==> SlashFree(g.group) && (g.group == "" ==> SlashFree(g.version))
  {
    var text := ApiVersion(g);
    var i := FirstSlash(text);
    if g.group == "" {
      if SlashFree(g.version) {
        assert i == |text|;
      } else {
        assert i < |text| && |text[i + 1..]| < |g.version|;
      }
    } else {
      assert text[|g.group|] == '/' && text[..|g.group|] == g.group && text[|g.group| + 1..] == g.version;
      if SlashFree(g.group) {
        SlashUnique(text, |g.group|);
      } else {
        assert i < |g.group| && |text[..i]| < |g.group|;
      }
    }
  }

  // ---- the tables ------------------------------------------------------------------------------------------

  datatype Tables = Tables(
    snapshots: map<string, Gvk>, contents: map<string, Gvk>, kindByContent: map<string, string>,
    contentByKind: map<string, Gvk>, needsData: map<string, bool>)

  const EMPTY := Tables(map[], map[], map[], map[], map[])

  const SUFFIX := "Content"

  predicate HasSuffix(kind: string) {
    |kind| >= |SUFFIX| && kind[|kind| - |SUFFIX|..] == SUFFIX
  }

  function TrimSuffix(kind: string): string {
    if HasSuffix(kind) then kind[..|kind| - |SUFFIX|] else kind
  }

  function GroupKind(g: Gvk): string {
    g.group + "/" + g.kind
  }

  /** A parsed group holds no slash, so the key of a parsed kind separates group and kind. */
  lemma GroupKindExactly(g: Gvk, h: Gvk)
    requires SlashFree(g.group) && SlashFree(h.group)
    ensures GroupKind(g) == GroupKind(h) <==> g.group == h.group && g.kind == h.kind
  {
    var k, l := GroupKind(g), GroupKind(h);
    assert k[..|g.group|] == g.group && l[..|h.group|] == h.group;
    assert k[|g.group| + 1..] == g.kind && l[|h.group| + 1..] == h.kind;
    SlashUnique(k, |g.group|);
    SlashUnique(l, |h.group|);
  }

  function PutSnapshot(t: Tables, g: Gvk): (Tables, bool) {
    if g.kind in t.snapshots then (t, t.snapshots[g.kind] == g) else (t.(snapshots := t.snapshots[g.kind := g]), true)
  }

  /** A default mapping never overrides one that is there. */
  function WithDefault(t: Tables, g: Gvk): Tables {
    var k := TrimSuffix(g.kind);
    if !HasSuffix(g.kind) || k == "" || (GroupKind(g) in t.kindByContent && t.kindByContent[GroupKind(g)] != k) then t
    else t.(kindByContent := t.kindByContent[GroupKind(g) := k])
  }

  function PutContent(t: Tables, g: Gvk): (Tables, bool) {
    if g.kind in t.contents then (t, ApiVersion(t.contents[g.kind]) == ApiVersion(g))
    else (WithDefault(t.(contents := t.contents[g.kind := g]), g), true)
  }

  function PutMapping(t: Tables, snap: Gvk, cont: Gvk): (Tables, bool) {
    var sk := snap.kind;
    if sk in t.contentByKind && t.contentByKind[sk] != cont then (t, false)
    else (t.(
      contentByKind := if sk in t.contentByKind then t.contentByKind else t.contentByKind[sk := cont],
      kindByContent := t.kindByContent[GroupKind(cont) := sk]), true)
  }

  /** A failure keeps what was registered before it. */
  function Put(t: Tables, snap: Gvk, cont: Gvk): (Tables, bool) {
    var (t1, ok1) := PutSnapshot(t, snap);
    if !ok1 then (t1, false)
    else
      var (t2, ok2) := PutContent(t1, cont);
      if !ok2 then (t2, false) else PutMapping(t2, snap, cont)
  }

  /** Every stored field is exactly this pair's. */
  predicate StoredExactly(t: Tables, sk: string, snap: Gvk, cont: Gvk) {
    && sk in t.contentByKind && t.contentByKind[sk] == cont
    && sk in t.snapshots && t.snapshots[sk] == snap
    && cont.kind in t.contents && t.contents[cont.kind] == cont
    && GroupKind(cont) in t.kindByContent && t.kindByContent[GroupKind(cont)] == sk
  }

  function Revert(t: Tables, sk: string, snap: Gvk, cont: Gvk): Tables {
    if !StoredExactly(t, sk, snap, cont) then t
    else t.(
      contentByKind := t.contentByKind - {sk}, kindByContent := t.kindByContent - {GroupKind(cont)},
      snapshots := t.snapshots - {sk}, contents := t.contents - {cont.kind})
  }

  function ResolveSnapshot(t: Tables, kind: string): Option<Gvk> {
    if kind in t.snapshots then Some(t.snapshots[kind]) else None
  }

  function ResolveContent(t: Tables, sk: string): Option<Gvk> {
    if sk in t.contentByKind then Some(t.contentByKind[sk])
    else match ResolveSnapshot(t, sk)
      case None => None
      case Some(snap) =>
        var ck := sk + SUFFIX;
        if ck in t.contents then Some(t.contents[ck]) else Some(Gvk(snap.group, snap.version, ck))
  }

  function ResolveContentOf(t: Tables, snap: Gvk): Option<Gvk> {
    if ResolveSnapshot(t, snap.kind) == Some(snap) then ResolveContent(t, snap.kind) else None
  }

  function ResolveKind(t: Tables, cont: Gvk): Option<string> {
    if GroupKind(cont) in t.kindByContent then Some(t.kindByContent[GroupKind(cont)])
    else if HasSuffix(cont.kind) then
      match ResolveSnapshot(t, TrimSuffix(cont.kind))
      case None => None
      case Some(snap) => if snap.group == cont.group then Some(TrimSuffix(cont.kind)) else None
    else None
  }

  // ---- the registry object ------------------------------------------------------------------------------------

  class GvkTable {
    var snapshotGvks: map<string, Gvk>
    var contentGvks: map<string, Gvk>
    var snapshotKindByContentGroupKind: map<string, string>
    var contentGvkBySnapshotKind: map<string, Gvk>
    var requiresDataBySnapshotKind: map<string, bool>

    ghost function View(): Tables
      reads this
    {
      Tables(snapshotGvks, contentGvks, snapshotKindByContentGroupKind, contentGvkBySnapshotKind, requiresDataBySnapshotKind)
    }

    constructor ()
      ensures View() == EMPTY
    {
      snapshotGvks, contentGvks, snapshotKindByContentGroupKind := map[], map[], map[];
      contentGvkBySnapshotKind, requiresDataBySnapshotKind := map[], map[];
    }

    method RegisterSnapshotGvk(kind: string, apiVersion: string) returns (ok: bool)
      modifies this
      ensures (View(), ok) == PutSnapshot(old(View()), Parse(kind, apiVersion))
    {
      var gvk := Parse(kind, apiVersion);
      if kind in snapshotGvks {
        return snapshotGvks[kind] == gvk;
      }
      snapshotGvks := snapshotGvks[kind := gvk];
      return true;
    }

    method RegisterDefaultContentMapping(gvk: Gvk)
      modifies this
      ensures View() == WithDefault(old(View()), gvk)
    {
      if !HasSuffix(gvk.kind) { return; }
      var snapshotKind := TrimSuffix(gvk.kind);
      if snapshotKind == "" { return; }
      var key := GroupKind(gvk);
      if key in snapshotKindByContentGroupKind && snapshotKindByContentGroupKind[key] != snapshotKind { return; }
      snapshotKindByContentGroupKind := snapshotKindByContentGroupKind[key := snapshotKind];
    }

    method RegisterSnapshotContentGvk(kind: string, apiVersion: string) returns (ok: bool)
      modifies this
      ensures (View(), ok) == PutContent(old(View()), Parse(kind, apiVersion))
    {
      var gvk := Parse(kind, apiVersion);
      if kind in contentGvks {
        return ApiVersion(contentGvks[kind]) == ApiVersion(gvk);
      }
      contentGvks := contentGvks[kind := gvk];
      RegisterDefaultContentMapping(gvk);
      return true;
    }

    method RegisterSnapshotContentMapping(sk: string, sApi: string, ck: string, cApi: string) returns (ok: bool)
      modifies this
      ensures (View(), ok) == Put(old(View()), Parse(sk, sApi), Parse(ck, cApi))
    {
      ok := RegisterSnapshotGvk(sk, sApi);
      if !ok { return; }
      ok := RegisterSnapshotContentGvk(ck, cApi);
      if !ok { return; }
      var contentGvk := Parse(ck, cApi);
      if sk in contentGvkBySnapshotKind {
        if contentGvkBySnapshotKind[sk] != contentGvk { return false; }
      } else {
        contentGvkBySnapshotKind := contentGvkBySnapshotKind[sk := contentGvk];
      }
      snapshotKindByContentGroupKind := snapshotKindByContentGroupKind[GroupKind(contentGvk) := sk];
    }

    method RevertSnapshotRegistrationIfExact(sk: string, snap: Gvk, cont: Gvk)
      modifies this
      ensures View() == Revert(old(View()), sk, snap, cont)
    {
      if sk !in contentGvkBySnapshotKind || contentGvkBySnapshotKind[sk] != cont { return; }
      if sk !in snapshotGvks || snapshotGvks[sk] != snap { return; }
      if cont.kind !in contentGvks || contentGvks[cont.kind] != cont { return; }
      var key := GroupKind(cont);
      if key !in snapshotKindByContentGroupKind || snapshotKindByContentGroupKind[key] != sk { return; }
      contentGvkBySnapshotKind := contentGvkBySnapshotKind - {sk};
      snapshotKindByContentGroupKind := snapshotKindByContentGroupKind - {key};
      snapshotGvks := snapshotGvks - {sk};
      contentGvks := contentGvks - {cont.kind};
    }

    method MarkRequiresDataArtifact(sk: string, requiresData: bool)
      modifies this
      ensures View() == old(View()).(needsData := old(View()).needsData[sk := requiresData])
    {
      requiresDataBySnapshotKind := requiresDataBySnapshotKind[sk := requiresData];
    }

    method ResolveSnapshotGvk(kind: string) returns (r: Option<Gvk>)
      ensures r == ResolveSnapshot(View(), kind)
    {
      if kind !in snapshotGvks { return None; }
      return Some(snapshotGvks[kind]);
    }

    method HasSnapshotGvk(g: Gvk) returns (has: bool)
      ensures has <==> ResolveSnapshot(View(), g.kind) == Some(g)
    {
      has := g.kind in snapshotGvks && snapshotGvks[g.kind] == g;
    }

    method ResolveSnapshotContentGvkBySnapshotGvk(snap: Gvk) returns (r: Option<Gvk>)
      ensures r == ResolveContentOf(View(), snap)
    {
      var has := HasSnapshotGvk(snap);
      if !has { return None; }
      r := ResolveSnapshotContentGvk(snap.kind);
    }

    method ResolveSnapshotContentGvk(sk: string) returns (r: Option<Gvk>)
      ensures r == ResolveContent(View(), sk)
    {
      if sk in contentGvkBySnapshotKind { return Some(contentGvkBySnapshotKind[sk]); }
      var snap := ResolveSnapshotGvk(sk);
      if snap == None { return None; }
      var contentKind := sk + SUFFIX;
      if contentKind in contentGvks { return Some(contentGvks[contentKind]); }
      return Some(Gvk(snap.value.group, snap.value.version, contentKind));
    }

    method ResolveSnapshotKindByContentGvk(cont: Gvk) returns (r: Option<string>)
      ensures r == ResolveKind(View(), cont)
    {
      var key := GroupKind(cont);
      if key in snapshotKindByContentGroupKind { return Some(snapshotKindByContentGroupKind[key]); }
      if HasSuffix(cont.kind) {
        var sk := TrimSuffix(cont.kind);
        var snap := ResolveSnapshotGvk(sk);
        if snap == None || snap.value.group != cont.group { return None; }
        return Some(sk);
      }
      return None;
    }
  }

  // ---- the builder ----------------------------------------------------------------------------------------------

  datatype Pair = Pair(snap: Gvk, cont: Gvk)

  /** The pairs as they are registered: printed and parsed again. */
  function Registered(snaps: seq<Gvk>, conts: seq<Gvk>): seq<Pair>
    requires |snaps| == |conts|
  {
    seq(|snaps|, i requires 0 <= i < |snaps| => Pair(Normal(snaps[i]), Normal(conts[i])))
  }

  function Built(pairs: seq<Pair>): Option<Tables> {
    if pairs == [] then Some(EMPTY)
    else match Built(pairs[..|pairs| - 1])
      case None => None
      case Some(t) =>
        var p := pairs[|pairs| - 1];
        if Put(t, p.snap, p.cont).1 then Some(Put(t, p.snap, p.cont).0) else None
  }

  lemma {:induction false} FailureStays(pairs: seq<Pair>, n: nat)
    requires n <= |pairs| && Built(pairs[..n]) == None
    ensures Built(pairs) == None
    decreases |pairs| - n
  {
    if n == |pairs| {
      assert pairs[..n] == pairs;
    } else {
      assert pairs[..n + 1][..n] == pairs[..n];
      FailureStays(pairs, n + 1);
    }
  }

  lemma BuiltNext(pairs: seq<Pair>, i: nat)
    requires i < |pairs| && Built(pairs[..i]).Some?
    ensures var put := Put(Built(pairs[..i]).value, pairs[i].snap, pairs[i].cont);
      Built(pairs[..i + 1]) == if put.1 then Some(put.0) else None
  {
    assert pairs[..i + 1][..i] == pairs[..i];
  }

  /** NewGVKRegistryFromParallelSnapshotContentPairs; null stands for its error. */
  method NewFromParallelPairs(snaps: seq<Gvk>, conts: seq<Gvk>) returns (r: GvkTable?)
    ensures r != null ==> fresh(r)
    ensures r != null <==> |snaps| == |conts| && Built(Registered(snaps, conts)).Some?
    ensures r != null ==> r.View() == Built(Registered(snaps, conts)).value
  {
    if |snaps| != |conts| { return null; }
    ghost var pairs := Registered(snaps, conts);
    var registry := new GvkTable();
    for i := 0 to |snaps|
      invariant fresh(registry) && Built(pairs[..i]) == Some(registry.View())
    {
      BuiltNext(pairs, i);
      var ok := registry.RegisterSnapshotContentMapping(
        snaps[i].kind, ApiVersion(snaps[i]), conts[i].kind, ApiVersion(conts[i]));
      if !ok {
        FailureStays(pairs, i + 1);
        return null;
      }
    }
    assert pairs[..|pairs|] == pairs;
    return registry;
  }

  /** Two pairs that can be registered together. */
  predicate Compatible(p: Pair, q: Pair) {
    && (p.snap.kind == q.snap.kind ==> p == q)
    && (p.cont.kind == q.cont.kind ==> ApiVersion(p.cont) == ApiVersion(q.cont))
  }

  ghost predicate AllCompatible(pairs: seq<Pair>) {
    forall p, q :: p in pairs && q in pairs ==> Compatible(p, q)
  }

  /** The three tables a pair is looked up in hold it. */
  predicate HoldsPair(t: Tables, p: Pair) {
    && p.snap.kind in t.snapshots && t.snapshots[p.snap.kind] == p.snap
    && p.snap.kind in t.contentByKind && t.contentByKind[p.snap.kind] == p.cont
    && p.cont.kind in t.contents && ApiVersion(t.contents[p.cont.kind]) == ApiVersion(p.cont)
  }

  predicate SnapOf(p: Pair, k: string) {
    p.snap.kind == k
  }

  predicate ContOf(p: Pair, k: string) {
    p.cont.kind == k
  }

  ghost predicate HasSnap(pairs: seq<Pair>, k: string) {
    exists p :: p in pairs && SnapOf(p, k)
  }

  ghost predicate HasCont(pairs: seq<Pair>, k: string) {
    exists p :: p in pairs && ContOf(p, k)
  }

  /** The tables hold the pairs and no other kind. */
  ghost predicate Holds(t: Tables, pairs: seq<Pair>) {
    && (forall p :: p in pairs ==> HoldsPair(t, p))
    && (forall k :: k in t.snapshots || k in t.contentByKind ==> HasSnap(pairs, k))
    && (forall k :: k in t.contents ==> HasCont(pairs, k))
  }

  lemma PutNeeds(t: Tables, p: Pair, q: Pair)
    requires HoldsPair(t, q) && Put(t, p.snap, p.cont).1
    ensures Compatible(p, q)
  {
  }

  lemma PutContentShape(t: Tables, cont: Gvk)
    ensures var t' := PutContent(t, cont).0;
      && t'.snapshots == t.snapshots && t'.contentByKind == t.contentByKind && t'.needsData == t.needsData
      && t'.contents == (if cont.kind in t.contents then t.contents else t.contents[cont.kind := cont])
      && t'.kindByContent - {GroupKind(cont)} == t.kindByContent - {GroupKind(cont)}
  {
  }

  lemma PutMappingShape(t: Tables, snap: Gvk, cont: Gvk)
    requires PutMapping(t, snap, cont).1
    ensures var t' := PutMapping(t, snap, cont).0;
      && t'.snapshots == t.snapshots && t'.contents == t.contents && t'.needsData == t.needsData
      && t'.contentByKind == t.contentByKind[snap.kind := cont]
      && GroupKind(cont) in t'.kindByContent && t'.kindByContent[GroupKind(cont)] == snap.kind
      && t'.kindByContent - {GroupKind(cont)} == t.kindByContent - {GroupKind(cont)}
  {
  }

  /** The tables after a mapping that succeeded. */
  lemma PutShape(t: Tables, snap: Gvk, cont: Gvk)
    requires Put(t, snap, cont).1
    ensures var t' := Put(t, snap, cont).0;
      && t'.snapshots == t.snapshots[snap.kind := snap] && t'.contentByKind == t.contentByKind[snap.kind := cont]
      && t'.contents == (if cont.kind in t.contents then t.contents else t.contents[cont.kind := cont])
      && GroupKind(cont) in t'.kindByContent && t'.kindByContent[GroupKind(cont)] == snap.kind
      && t'.kindByContent - {GroupKind(cont)} == t.kindByContent - {GroupKind(cont)}
      && t'.needsData == t.needsData
  {
    var t1 := PutSnapshot(t, snap).0;
    assert t1.snapshots == t.snapshots[snap.kind := snap];
    PutContentShape(t1, cont);
    PutMappingShape(PutContent(t1, cont).0, snap, cont);
  }

  lemma PutHolds(t: Tables, p: Pair)
    requires Put(t, p.snap, p.cont).1
    ensures var t' := Put(t, p.snap, p.cont).0;
      && HoldsPair(t', p)
      && t'.snapshots.Keys == t.snapshots.Keys + {p.snap.kind} && t'.contentByKind.Keys == t.contentByKind.Keys + {p.snap.kind}
      && t'.contents.Keys == t.contents.Keys + {p.cont.kind}
  {
    PutAgrees(t, p);
    PutShape(t, p.snap, p.cont);
  }

  lemma PutAgrees(t: Tables, p: Pair)
    requires Put(t, p.snap, p.cont).1
    ensures p.cont.kind in t.contents ==> ApiVersion(t.contents[p.cont.kind]) == ApiVersion(p.cont)
    ensures p.snap.kind in t.snapshots ==> t.snapshots[p.snap.kind] == p.snap
    ensures p.snap.kind in t.contentByKind ==> t.contentByKind[p.snap.kind] == p.cont
  {
  }

  lemma PutKeeps(t: Tables, p: Pair, q: Pair)
    requires HoldsPair(t, q) && Put(t, p.snap, p.cont).1
    ensures HoldsPair(Put(t, p.snap, p.cont).0, q)
  {
    PutAgrees(t, p);
    PutShape(t, p.snap, p.cont);
  }

  lemma PutAccepts(t: Tables, pairs: seq<Pair>, p: Pair)
    requires Holds(t, pairs) && forall q :: q in pairs ==> Compatible(p, q)
    ensures Put(t, p.snap, p.cont).1
  {
    if p.snap.kind in t.snapshots || p.snap.kind in t.contentByKind {
      assert HasSnap(pairs, p.snap.kind);
      var q :| q in pairs && SnapOf(q, p.snap.kind);
      assert HoldsPair(t, q) && Compatible(p, q);
    }
    if p.cont.kind in t.contents {
      assert HasCont(pairs, p.cont.kind);
      var q :| q in pairs && ContOf(q, p.cont.kind);
      assert HoldsPair(t, q) && Compatible(p, q);
    }
  }

  lemma HasMore(pairs: seq<Pair>, p: Pair, k: string)
    ensures HasSnap(pairs + [p], k) <==> HasSnap(pairs, k) || p.snap.kind == k
    ensures HasCont(pairs + [p], k) <==> HasCont(pairs, k) || p.cont.kind == k
  {
    assert p in pairs + [p] && forall q :: q in pairs + [p] <==> q in pairs || q == p;
    assert SnapOf(p, p.snap.kind) && ContOf(p, p.cont.kind);
    if HasSnap(pairs, k) {
      var q :| q in pairs && SnapOf(q, k);
      assert q in pairs + [p];
    }
    if HasCont(pairs, k) {
      var q :| q in pairs && ContOf(q, k);
      assert q in pairs + [p];
    }
  }

  /** Registering one more pair. */
  lemma PutOne(t: Tables, pairs: seq<Pair>, p: Pair)
    requires Holds(t, pairs)
    ensures Put(t, p.snap, p.cont).1 <==> forall q :: q in pairs ==> Compatible(p, q)
    ensures Put(t, p.snap, p.cont).1 ==> Holds(Put(t, p.snap, p.cont).0, pairs + [p])
  {
    if forall q :: q in pairs ==> Compatible(p, q) {
      PutAccepts(t, pairs, p);
    }
    var t', ok := Put(t, p.snap, p.cont).0, Put(t, p.snap, p.cont).1;
    if ok {
      PutHolds(t, p);
      forall q | q in pairs ensures Compatible(p, q) && HoldsPair(t', q) {
        PutNeeds(t, p, q);
        PutKeeps(t, p, q);
      }
      forall k | k in t'.snapshots || k in t'.contentByKind ensures HasSnap(pairs + [p], k) { HasMore(pairs, p, k); }
      forall k | k in t'.contents ensures HasCont(pairs + [p], k) { HasMore(pairs, p, k); }
    }
  }

  lemma CompatibleMore(pairs: seq<Pair>, p: Pair)
    ensures AllCompatible(pairs + [p]) <==> AllCompatible(pairs) && forall q :: q in pairs ==> Compatible(p, q)
  {
    assert forall q :: q in pairs + [p] <==> q in pairs || q == p;
    assert forall q :: Compatible(p, q) <==> Compatible(q, p);
    assert Compatible(p, p);
    if AllCompatible(pairs + [p]) {
      assert forall q :: q in pairs ==> q in pairs + [p];
    }
  }

  /** Registering a list of pairs succeeds exactly when any two are compatible, and then the tables hold the
      pairs and nothing else. */
  lemma {:induction false} BuildsExactly(pairs: seq<Pair>)
    ensures Built(pairs).Some? <==> AllCompatible(pairs)
    ensures Built(pairs).Some? ==> Holds(Built(pairs).value, pairs)
  {
    if pairs != [] {
      var init, p := pairs[..|pairs| - 1], pairs[|pairs| - 1];
      assert pairs == init + [p];
      BuildsExactly(init);
      CompatibleMore(init, p);
      if Built(init).Some? { PutOne(Built(init).value, init, p); }
    }
  }

  /** Two entries of the input lists that can be registered together. */
  predicate Agree(s: Gvk, c: Gvk, s': Gvk, c': Gvk) {
    && (s.kind == s'.kind ==> Normal(s) == Normal(s') && Normal(c) == Normal(c'))
    && (c.kind == c'.kind ==> ApiVersion(Normal(c)) == ApiVersion(Normal(c')))
  }

  lemma AgreeIsCompatible(s: Gvk, c: Gvk, s': Gvk, c': Gvk)
    ensures Agree(s, c, s', c') <==> Compatible(Pair(Normal(s), Normal(c)), Pair(Normal(s'), Normal(c')))
  {
    assert Normal(s).kind == s.kind && Normal(s').kind == s'.kind && Normal(c).kind == c.kind && Normal(c').kind == c'.kind;
  }

  /** Any two entries of the input lists can be registered together. */
  ghost predicate AllAgree(snaps: seq<Gvk>, conts: seq<Gvk>)
    requires |snaps| == |conts|
  {
    forall i, j :: 0 <= i < |snaps| && 0 <= j < |snaps| ==> Agree(snaps[i], conts[i], snaps[j], conts[j])
  }

  lemma AgreementIsCompatibility(snaps: seq<Gvk>, conts: seq<Gvk>)
    requires |snaps| == |conts|
    ensures AllAgree(snaps, conts) <==> AllCompatible(Registered(snaps, conts))
  {
    var pairs := Registered(snaps, conts);
    if AllCompatible(pairs) {
      forall i, j | 0 <= i < |snaps| && 0 <= j < |snaps| ensures Agree(snaps[i], conts[i], snaps[j], conts[j]) {
        assert Compatible(pairs[i], pairs[j]) by { assert pairs[i] in pairs && pairs[j] in pairs; }
        AgreeIsCompatible(snaps[i], conts[i], snaps[j], conts[j]);
      }
    }
    if AllAgree(snaps, conts) {
      forall p, q | p in pairs && q in pairs ensures Compatible(p, q) {
        var i :| 0 <= i < |pairs| && pairs[i] == p;
        var j :| 0 <= j < |pairs| && pairs[j] == q;
        AgreeIsCompatible(snaps[i], conts[i], snaps[j], conts[j]);
      }
    }
  }

  /** The builder on any two lists of kinds of one length: it succeeds exactly when pairs of one snapshot kind
      agree once printed and parsed, and contents of one kind print one API version. */
  lemma BuilderSucceedsExactly(snaps: seq<Gvk>, conts: seq<Gvk>)
    requires |snaps| == |conts|
    ensures Built(Registered(snaps, conts)).Some? <==> AllAgree(snaps, conts)
  {
    BuildsExactly(Registered(snaps, conts));
    AgreementIsCompatibility(snaps, conts);
  }

  /** Snapshot and content resolution return the pairs and know no other kind. */
  lemma ResolvesExactly(pairs: seq<Pair>, p: Pair, kind: string)
    requires Built(pairs).Some?
    ensures p in pairs && p.snap.kind == kind ==>
              && ResolveSnapshot(Built(pairs).value, kind) == Some(p.snap)
              && ResolveContent(Built(pairs).value, kind) == Some(p.cont)
              && ResolveContentOf(Built(pairs).value, p.snap) == Some(p.cont)
    ensures !HasSnap(pairs, kind) ==>
              ResolveSnapshot(Built(pairs).value, kind) == None && ResolveContent(Built(pairs).value, kind) == None
  {
    BuildsExactly(pairs);
    if p in pairs { assert HoldsPair(Built(pairs).value, p); }
  }

  /** The order of the lists and repetitions in them decide neither success nor what a snapshot kind resolves to. */
  lemma BuilderIgnoresOrder(pairs: seq<Pair>, other: seq<Pair>, kind: string)
    requires forall p :: p in pairs <==> p in other
    ensures Built(pairs).Some? <==> Built(other).Some?
    ensures Built(pairs).Some? ==>
              && ResolveSnapshot(Built(pairs).value, kind) == ResolveSnapshot(Built(other).value, kind)
              && ResolveContent(Built(pairs).value, kind) == ResolveContent(Built(other).value, kind)
  {
    BuildsExactly(pairs);
    BuildsExactly(other);
    if Built(pairs).Some? {
      if HasSnap(pairs, kind) {
        var p :| p in pairs && SnapOf(p, kind);
        ResolvesExactly(pairs, p, kind);
        ResolvesExactly(other, p, kind);
      } else {
        var none := Pair(Gvk("", "", ""), Gvk("", "", ""));
        ResolvesExactly(pairs, none, kind);
        ResolvesExactly(other, none, kind);
      }
    }
  }

  predicate SameGroupKind(g: Gvk, h: Gvk) {
    g.group == h.group && g.kind == h.kind
  }

  /** The last pair whose content has this group and kind. */
  function LastWith(pairs: seq<Pair>, cont: Gvk): Option<Pair> {
    if pairs == [] then None
    else if SameGroupKind(pairs[|pairs| - 1].cont, cont) then Some(pairs[|pairs| - 1])
    else LastWith(pairs[..|pairs| - 1], cont)
  }

  /** Reverse resolution does depend on the order: of several snapshot kinds with one content group and kind,
      the last wins, whatever default mappings came before. */
  lemma {:induction false} ReverseIsLast(pairs: seq<Pair>, cont: Gvk)
    requires Built(pairs).Some? && SlashFree(cont.group) && forall p :: p in pairs ==> SlashFree(p.cont.group)
    ensures match LastWith(pairs, cont)
      case None => GroupKind(cont) !in Built(pairs).value.kindByContent
      case Some(p) => ResolveKind(Built(pairs).value, cont) == Some(p.snap.kind)
  {
    if pairs != [] {
      var init, p := pairs[..|pairs| - 1], pairs[|pairs| - 1];
      ReverseIsLast(init, cont);
      PutShape(Built(init).value, p.snap, p.cont);
      assert p in pairs;
      GroupKindExactly(p.cont, cont);
      var key, before, after := GroupKind(p.cont), Built(init).value.kindByContent, Built(pairs).value.kindByContent;
      if GroupKind(cont) != key {
        assert GroupKind(cont) in after <==> GroupKind(cont) in after - {key};
        assert GroupKind(cont) in before <==> GroupKind(cont) in before - {key};
        assert GroupKind(cont) in before ==> before[GroupKind(cont)] == (before - {key})[GroupKind(cont)];
      }
    }
  }

  lemma RegisteredGroups(snaps: seq<Gvk>, conts: seq<Gvk>)
    requires |snaps| == |conts|
    ensures forall p :: p in Registered(snaps, conts) ==> SlashFree(p.snap.group) && SlashFree(p.cont.group)
  {
  }

  // ---- rollback ---------------------------------------------------------------------------------------------------

  /** The four entries of a pair. */
  predicate NoneStored(t: Tables, sk: string, cont: Gvk) {
    && sk !in t.snapshots && sk !in t.contentByKind
    && cont.kind !in t.contents && GroupKind(cont) !in t.kindByContent
  }

  /** The mapping was there, under a content that prints the same but is stored differently. */
  predicate AlreadyMapped(t: Tables, snap: Gvk, cont: Gvk) {
    && snap.kind in t.snapshots && t.snapshots[snap.kind] == snap
    && snap.kind in t.contentByKind && t.contentByKind[snap.kind] == cont
    && cont.kind in t.contents && t.contents[cont.kind] != cont
    && GroupKind(cont) in t.kindByContent && t.kindByContent[GroupKind(cont)] == snap.kind
  }

  /** Rolling back a mapping that succeeded restores the registry exactly when none of its four entries was
      there before (or the rollback's own test refuses and there was nothing to undo). */
  lemma RollbackExactly(t: Tables, snap: Gvk, cont: Gvk)
    requires Put(t, snap, cont).1
    ensures Revert(Put(t, snap, cont).0, snap.kind, snap, cont) == t <==>
              NoneStored(t, snap.kind, cont) || AlreadyMapped(t, snap, cont)
  {
    if NoneStored(t, snap.kind, cont) {
      Restores(t, snap, cont);
    }
    if AlreadyMapped(t, snap, cont) {
      assert Put(t, snap, cont).0.kindByContent == t.kindByContent;
    }
  }

  lemma DropAdded<V>(m: map<string, V>, k: string, v: V)
    requires k !in m
    ensures m[k := v] - {k} == m && m - {k} == m
  {
  }

  /** A pair of which nothing is stored can be mapped. */
  lemma PutFresh(t: Tables, snap: Gvk, cont: Gvk)
    requires NoneStored(t, snap.kind, cont)
    ensures Put(t, snap, cont).1
  {
    assert PutSnapshot(t, snap).1;
    PutContentShape(PutSnapshot(t, snap).0, cont);
  }

  lemma Restores(t: Tables, snap: Gvk, cont: Gvk)
    requires NoneStored(t, snap.kind, cont)
    ensures Put(t, snap, cont).1 && Revert(Put(t, snap, cont).0, snap.kind, snap, cont) == t
  {
    PutFresh(t, snap, cont);
    PutShape(t, snap, cont);
    DropAdded(t.snapshots, snap.kind, snap);
    DropAdded(t.contents, cont.kind, cont);
    DropAdded(t.contentByKind, snap.kind, cont);
    DropAdded(t.kindByContent, GroupKind(cont), snap.kind);
  }

  /** Two snapshot kinds share a content; rolling back the second takes the content from the first, whose
      reverse resolution survives only through the "Content" suffix rule. */
  lemma RollbackOfShared(a: Gvk, b: Gvk, c: Gvk)
    requires a.kind != b.kind
    ensures Built([Pair(a, c), Pair(b, c)]).Some?
    ensures var back := Revert(Built([Pair(a, c), Pair(b, c)]).value, b.kind, b, c);
      && c.kind !in back.contents && ResolveContent(back, a.kind) == Some(c)
      && (ResolveKind(back, c) == Some(a.kind) <==> c.kind == a.kind + SUFFIX && c.group == a.group)
  {
    SharedTables(a, b, c);
    var t := Built([Pair(a, c), Pair(b, c)]).value;
    var back := Revert(t, b.kind, b, c);
    assert back.snapshots == map[a.kind := a] && back.contentByKind == map[a.kind := c];
    assert back.contents == map[] && GroupKind(c) !in back.kindByContent;
    if HasSuffix(c.kind) { assert c.kind == TrimSuffix(c.kind) + SUFFIX; }
    assert HasSuffix(a.kind + SUFFIX) && TrimSuffix(a.kind + SUFFIX) == a.kind;
  }

  lemma SharedTables(a: Gvk, b: Gvk, c: Gvk)
    requires a.kind != b.kind
    ensures var t := Built([Pair(a, c), Pair(b, c)]);
      && t.Some? && t.value.snapshots == map[a.kind := a, b.kind := b] && t.value.contents == map[c.kind := c]
      && t.value.contentByKind == map[a.kind := c, b.kind := c]
      && GroupKind(c) in t.value.kindByContent && t.value.kindByContent[GroupKind(c)] == b.kind
  {
    var p, q := Pair(a, c), Pair(b, c);
    assert [p][..0] == [] && [p, q][..1] == [p];
    var t1 := Put(EMPTY, a, c).0;
    PutShape(EMPTY, a, c);
    assert Built([p]) == Some(t1);
    assert t1.snapshots == map[a.kind := a] && t1.contents == map[c.kind := c] && t1.contentByKind == map[a.kind := c];
    PutShape(t1, b, c);
    assert Built([p, q]) == Some(Put(t1, b, c).0);
  }

  // ---- any history ------------------------------------------------------------------------------------------------

  datatype Op =
    | OpSnapshot(kind: string, apiVersion: string)
    | OpContent(kind: string, apiVersion: string)
    | OpMapping(sk: string, sApi: string, ck: string, cApi: string)
    | OpRevert(kind: string, snap: Gvk, cont: Gvk)
    | OpMark(kind: string, requiresData: bool)

  ghost function Do(t: Tables, op: Op): Tables {
    match op
    case OpSnapshot(kind, api) => PutSnapshot(t, Parse(kind, api)).0
    case OpContent(kind, api) => PutContent(t, Parse(kind, api)).0
    case OpMapping(sk, sApi, ck, cApi) => Put(t, Parse(sk, sApi), Parse(ck, cApi)).0
    case OpRevert(kind, snap, cont) => Revert(t, kind, snap, cont)
    case OpMark(kind, requiresData) => t.(needsData := t.needsData[kind := requiresData])
  }

  ghost function History(ops: seq<Op>): Tables {
    if ops == [] then EMPTY else Do(History(ops[..|ops| - 1]), ops[|ops| - 1])
  }

  /** Entries sit under their own kind, and an explicit mapping is only there for a registered snapshot kind. */
  ghost predicate Coherent(t: Tables) {
    && (forall k :: k in t.snapshots ==> t.snapshots[k].kind == k)
    && (forall k :: k in t.contents ==> t.contents[k].kind == k)
    && (forall k :: k in t.contentByKind ==> k in t.snapshots)
  }

  lemma ContentCoherent(t: Tables, cont: Gvk)
    requires Coherent(t)
    ensures Coherent(PutContent(t, cont).0) && PutContent(t, cont).0.snapshots == t.snapshots
  {
    PutContentShape(t, cont);
  }

  lemma MappingCoherent(t: Tables, snap: Gvk, cont: Gvk)
    requires Coherent(t) && snap.kind in t.snapshots
    ensures Coherent(PutMapping(t, snap, cont).0)
  {
    if PutMapping(t, snap, cont).1 { PutMappingShape(t, snap, cont); }
  }

  lemma PutCoherent(t: Tables, snap: Gvk, cont: Gvk)
    requires Coherent(t)
    ensures Coherent(Put(t, snap, cont).0)
  {
    var t1 := PutSnapshot(t, snap).0;
    assert Coherent(t1) && snap.kind in t1.snapshots;
    ContentCoherent(t1, cont);
    MappingCoherent(PutContent(t1, cont).0, snap, cont);
  }

  /** Whatever was registered, failed to register, rolled back or marked, in any order: a content kind can be
      resolved exactly for the registered snapshot kinds. */
  lemma {:induction false} HistoryCoherent(ops: seq<Op>)
    ensures Coherent(History(ops))
    ensures forall k :: ResolveContent(History(ops), k).Some? <==> k in History(ops).snapshots
  {
    if ops != [] {
      var t, op := History(ops[..|ops| - 1]), ops[|ops| - 1];
      HistoryCoherent(ops[..|ops| - 1]);
      match op
      case OpContent(kind, api) => ContentCoherent(t, Parse(kind, api));
      case OpMapping(sk, sApi, ck, cApi) => PutCoherent(t, Parse(sk, sApi), Parse(ck, cApi));
      case _ =>
    }
  }

  /** Without an explicit mapping, after any history: a registered snapshot kind resolves to what is registered
      for its kind + "Content", and else to that kind in its own group and version; and that derived kind leads
      back to the snapshot kind unless its group and kind were given to another. */
  lemma UnmappedResolves(ops: seq<Op>, sk: string)
    requires sk in History(ops).snapshots && sk !in History(ops).contentByKind
    ensures var t := History(ops); var derived := Gvk(t.snapshots[sk].group, t.snapshots[sk].version, sk + "Content");
      && ResolveContent(t, sk) == Some(if sk + "Content" in t.contents then t.contents[sk + "Content"] else derived)
      && (GroupKind(derived) !in t.kindByContent ==> ResolveKind(t, derived) == Some(sk))
      && (GroupKind(derived) in t.kindByContent ==> ResolveKind(t, derived) == Some(t.kindByContent[GroupKind(derived)]))
  {
    SuffixTrims(sk);
  }

  lemma SuffixTrims(kind: string)
    ensures HasSuffix(kind + "Content") && TrimSuffix(kind + "Content") == kind
  {
    assert (kind + "Content")[|kind|..] == "Content" && (kind + "Content")[..|kind|] == kind;
  }

  /** A content that nothing was given to, after any history: it leads to a snapshot kind exactly when it is that
      kind + "Content" in the group the snapshot kind is registered in. */
  lemma UnmappedLeadsBack(ops: seq<Op>, cont: Gvk, sk: string)
    requires GroupKind(cont) !in History(ops).kindByContent
    ensures var t := History(ops);
      ResolveKind(t, cont) == Some(sk) <==>
        cont.kind == sk + "Content" && sk in t.snapshots && t.snapshots[sk].group == cont.group
  {
    SuffixTrims(sk);
    if HasSuffix(cont.kind) { assert cont.kind == TrimSuffix(cont.kind) + "Content"; }
  }

  /** The first registration of a content kind whose name is a kind + "Content", after any history: it is taken as
      the content of that kind, registered or not, unless its group and kind were given to another already. */
  lemma DefaultLeadsBack(ops: seq<Op>, sk: string, apiVersion: string)
    requires sk != "" && sk + "Content" !in History(ops).contents
    ensures var t := History(ops); var cont := Parse(sk + "Content", apiVersion); var t' := Do(t, OpContent(sk + "Content", apiVersion));
      && t'.contents == t.contents[sk + "Content" := cont] && t'.snapshots == t.snapshots && t'.contentByKind == t.contentByKind
      && ResolveKind(t', cont) == Some(if GroupKind(cont) in t.kindByContent then t.kindByContent[GroupKind(cont)] else sk)
  {
    SuffixTrims(sk);
    var cont := Parse(sk + "Content", apiVersion);
    assert cont.kind == sk + "Content";
  }

  /** Resolution by a full snapshot kind answers for exactly what is registered. */
  lemma ExactKindOnly(ops: seq<Op>, snap: Gvk)
    ensures var t := History(ops);
      && (ResolveContentOf(t, snap).Some? <==> snap.kind in t.snapshots && t.snapshots[snap.kind] == snap)
      && (ResolveContentOf(t, snap).Some? ==> ResolveContentOf(t, snap) == ResolveContent(t, snap.kind))
  {
    HistoryCoherent(ops);
  }

  // ---- bootstrap --------------------------------------------------------------------------------------------------

  /** The content kind that goes with a snapshot kind. */
  function ContentOf(g: Gvk): Gvk {
    Gvk(g.group, g.version, g.kind + "Content")
  }

  function PutBoth(t: Tables, g: Gvk): (Tables, bool) {
    var (t1, ok) := PutSnapshot(t, g);
    if !ok then (t1, false) else PutContent(t1, ContentOf(g))
  }

  function Booted(gvks: seq<Gvk>): Option<Tables> {
    if gvks == [] then Some(EMPTY)
    else match Booted(gvks[..|gvks| - 1])
      case None => None
      case Some(t) => var (t', ok) := PutBoth(t, Normal(gvks[|gvks| - 1])); if ok then Some(t') else None
  }

  lemma {:induction false} BootFailureStays(gvks: seq<Gvk>, n: nat)
    requires n <= |gvks| && Booted(gvks[..n]) == None
    ensures Booted(gvks) == None
    decreases |gvks| - n
  {
    if n == |gvks| {
      assert gvks[..n] == gvks;
    } else {
      assert gvks[..n + 1][..n] == gvks[..n];
      BootFailureStays(gvks, n + 1);
    }
  }

  /** The kinds as they are registered. */
  function Normals(gvks: seq<Gvk>): seq<Gvk> {
    seq(|gvks|, i requires 0 <= i < |gvks| => Normal(gvks[i]))
  }

  lemma BootedSnoc(init: seq<Gvk>, gvk: Gvk)
    ensures Booted(init + [gvk]) == match Booted(init)
      case None => None
      case Some(t) => if PutBoth(t, Normal(gvk)).1 then Some(PutBoth(t, Normal(gvk)).0) else None
    ensures Normals(init + [gvk]) == Normals(init) + [Normal(gvk)] && SlashFree(Normal(gvk).group)
  {
    assert (init + [gvk])[..|init|] == init;
  }

  lemma BothParsed(g: Gvk)
    ensures Parse(g.kind, ApiVersion(g)) == Normal(g) && Parse(g.kind + "Content", ApiVersion(g)) == ContentOf(Normal(g))
  {
  }

  /** The registrations of the generic binder's constructor; null stands for its error. */
  method Bootstrap(gvks: seq<Gvk>) returns (r: GvkTable?)
    ensures r != null ==> fresh(r)
    ensures r != null <==> Booted(gvks).Some?
    ensures r != null ==> r.View() == Booted(gvks).value
  {
    var registry := new GvkTable();
    for i := 0 to |gvks|
      invariant fresh(registry) && Booted(gvks[..i]) == Some(registry.View())
    {
      BootedSnoc(gvks[..i], gvks[i]);
      assert gvks[..i] + [gvks[i]] == gvks[..i + 1];
      BothParsed(gvks[i]);
      ghost var t := registry.View();
      var ok := registry.RegisterSnapshotGvk(gvks[i].kind, ApiVersion(gvks[i]));
      if ok { ok := registry.RegisterSnapshotContentGvk(gvks[i].kind + "Content", ApiVersion(gvks[i])); }
      assert (registry.View(), ok) == PutBoth(t, Normal(gvks[i]));
      if !ok {
        BootFailureStays(gvks, i + 1);
        return null;
      }
    }
    assert gvks[..|gvks|] == gvks;
    return registry;
  }

  /** One kind and its content, as bootstrap leaves them. */
  ghost predicate BootHolds(t: Tables, g: Gvk) {
    && g.kind in t.snapshots && t.snapshots[g.kind] == g
    && g.kind + "Content" in t.contents && t.contents[g.kind + "Content"] == ContentOf(g)
    && (g.kind != "" ==> GroupKind(ContentOf(g)) in t.kindByContent)
    && (GroupKind(ContentOf(g)) in t.kindByContent ==> t.kindByContent[GroupKind(ContentOf(g))] == g.kind)
  }

  ghost predicate BootTables(t: Tables, gs: seq<Gvk>) {
    && t.contentByKind == map[] && t.needsData == map[]
    && (forall g :: g in gs ==> BootHolds(t, g) && SlashFree(g.group))
    && (forall k :: k in t.snapshots ==> t.snapshots[k] in gs && t.snapshots[k].kind == k)
    && (forall k :: k in t.contents ==> exists g :: g in gs && k == g.kind + "Content")
    && (forall key :: key in t.kindByContent ==> exists g :: g in gs && key == GroupKind(ContentOf(g)) && t.kindByContent[key] == g.kind)
  }

  lemma ContentKindsDiffer(a: string, b: string)
    ensures a + "Content" == b + "Content" <==> a == b
  {
    SuffixTrims(a);
    SuffixTrims(b);
  }

  /** The next kind is accepted exactly when it is the one registered under its name, if there is one. */
  lemma BootAccepts(t: Tables, gs: seq<Gvk>, g: Gvk)
    requires BootTables(t, gs) && SlashFree(g.group)
    ensures PutBoth(t, g).1 <==> forall h :: h in gs && h.kind == g.kind ==> h == g
  {
    ApiVersionOfContent(g);
    if g.kind + "Content" in t.contents {
      var h :| h in gs && g.kind + "Content" == h.kind + "Content";
      ContentKindsDiffer(g.kind, h.kind);
      assert BootHolds(t, h);
    }
    if h :| h in gs && h.kind == g.kind { assert BootHolds(t, h); }
  }

  lemma ApiVersionOfContent(g: Gvk)
    ensures ApiVersion(ContentOf(g)) == ApiVersion(g)
  {
  }

  /** The tables after one more kind. */
  ghost predicate OneMoreKind(t: Tables, t': Tables, g: Gvk) {
    && t'.contentByKind == t.contentByKind && t'.needsData == t.needsData
    && t'.snapshots == t.snapshots[g.kind := g] && t'.contents == t.contents[g.kind + "Content" := ContentOf(g)]
    && t'.kindByContent == if g.kind == "" then t.kindByContent else t.kindByContent[GroupKind(ContentOf(g)) := g.kind]
  }

  lemma SamePut<K, V>(m: map<K, V>, k: K, v: V)
    requires k in m && m[k] == v
    ensures m[k := v] == m
  {
  }

  lemma KindAgain(t: Tables, gs: seq<Gvk>, g: Gvk)
    requires BootTables(t, gs) && g in gs
    ensures PutBoth(t, g) == (t, true) && OneMoreKind(t, t, g)
  {
    assert BootHolds(t, g);
    ApiVersionOfContent(g);
    SamePut(t.snapshots, g.kind, g);
    SamePut(t.contents, g.kind + "Content", ContentOf(g));
    if g.kind != "" { SamePut(t.kindByContent, GroupKind(ContentOf(g)), g.kind); }
  }

  /** Nothing is stored under a new kind. */
  lemma KindIsNew(t: Tables, gs: seq<Gvk>, g: Gvk)
    requires BootTables(t, gs) && SlashFree(g.group) && forall h :: h in gs ==> h.kind != g.kind
    ensures g.kind !in t.snapshots && g.kind + "Content" !in t.contents && GroupKind(ContentOf(g)) !in t.kindByContent
  {
    forall h | h in gs ensures g.kind + "Content" != h.kind + "Content" && GroupKind(ContentOf(g)) != GroupKind(ContentOf(h)) {
      assert BootHolds(t, h);
      ContentKindsDiffer(g.kind, h.kind);
      GroupKindExactly(ContentOf(g), ContentOf(h));
    }
  }

  lemma NewDefault(t: Tables, g: Gvk)
    requires GroupKind(ContentOf(g)) !in t.kindByContent
    ensures WithDefault(t, ContentOf(g)) ==
      if g.kind == "" then t else t.(kindByContent := t.kindByContent[GroupKind(ContentOf(g)) := g.kind])
  {
    SuffixTrims(g.kind);
  }

  lemma PutNewKind(t: Tables, g: Gvk)
    requires g.kind !in t.snapshots && g.kind + "Content" !in t.contents && GroupKind(ContentOf(g)) !in t.kindByContent
    ensures PutBoth(t, g).1 && OneMoreKind(t, PutBoth(t, g).0, g)
  {
    var t1 := t.(snapshots := t.snapshots[g.kind := g], contents := t.contents[g.kind + "Content" := ContentOf(g)]);
    assert PutBoth(t, g) == (WithDefault(t1, ContentOf(g)), true);
    NewDefault(t1, g);
  }

  lemma PutBothShape(t: Tables, gs: seq<Gvk>, g: Gvk)
    requires BootTables(t, gs) && SlashFree(g.group) && forall h :: h in gs && h.kind == g.kind ==> h == g
    ensures PutBoth(t, g).1 && OneMoreKind(t, PutBoth(t, g).0, g)
  {
    if g in gs {
      KindAgain(t, gs, g);
    } else {
      KindIsNew(t, gs, g);
      PutNewKind(t, g);
    }
  }

  /** An earlier kind and the new one afterwards. */
  lemma KindHolds(t: Tables, gs: seq<Gvk>, t': Tables, g: Gvk, h: Gvk)
    requires BootTables(t, gs) && OneMoreKind(t, t', g) && SlashFree(g.group)
    requires h in gs || h == g
    requires h.kind == g.kind ==> h == g
    ensures BootHolds(t', h) && SlashFree(h.group)
  {
    if h in gs { assert BootHolds(t, h); }
    ContentKindsDiffer(g.kind, h.kind);
    GroupKindExactly(ContentOf(g), ContentOf(h));
    BootKeyOfEmpty(t, gs, g, h);
  }

  /** Nothing else is stored afterwards. */
  lemma KindsOnly(t: Tables, gs: seq<Gvk>, t': Tables, g: Gvk)
    requires BootTables(t, gs) && OneMoreKind(t, t', g)
    ensures forall k :: k in t'.snapshots ==> t'.snapshots[k] in gs + [g] && t'.snapshots[k].kind == k
    ensures forall k :: k in t'.contents ==> exists h :: h in gs + [g] && k == h.kind + "Content"
    ensures forall key :: key in t'.kindByContent ==>
              exists h :: h in gs + [g] && key == GroupKind(ContentOf(h)) && t'.kindByContent[key] == h.kind
  {
    assert g in gs + [g];
    forall k | k in t'.contents ensures exists h :: h in gs + [g] && k == h.kind + "Content" {
      if k != g.kind + "Content" {
        var h :| h in gs && k == h.kind + "Content";
        assert h in gs + [g];
      }
    }
    forall key | key in t'.kindByContent
      ensures exists h :: h in gs + [g] && key == GroupKind(ContentOf(h)) && t'.kindByContent[key] == h.kind
    {
      if g.kind == "" || key != GroupKind(ContentOf(g)) {
        var h :| h in gs && key == GroupKind(ContentOf(h)) && t.kindByContent[key] == h.kind;
        assert h in gs + [g];
      }
    }
  }

  lemma BootMore(t: Tables, gs: seq<Gvk>, g: Gvk)
    requires BootTables(t, gs) && SlashFree(g.group) && forall h :: h in gs && h.kind == g.kind ==> h == g
    ensures BootTables(PutBoth(t, g).0, gs + [g])
  {
    var t' := PutBoth(t, g).0;
    PutBothShape(t, gs, g);
    KindsOnly(t, gs, t', g);
    forall h | h in gs + [g] ensures BootHolds(t', h) && SlashFree(h.group) {
      KindHolds(t, gs, t', g, h);
    }
  }

  /** The kind with the empty name gets no default mapping, and finds none. */
  lemma BootKeyOfEmpty(t: Tables, gs: seq<Gvk>, g: Gvk, h: Gvk)
    requires BootTables(t, gs) && SlashFree(h.group) && SlashFree(g.group)
    ensures GroupKind(ContentOf(h)) in t.kindByContent ==> t.kindByContent[GroupKind(ContentOf(h))] == h.kind
  {
    var key := GroupKind(ContentOf(h));
    if key in t.kindByContent {
      var x :| x in gs && key == GroupKind(ContentOf(x)) && t.kindByContent[key] == x.kind;
      GroupKindExactly(ContentOf(h), ContentOf(x));
      ContentKindsDiffer(h.kind, x.kind);
    }
  }

  /** Kinds of one name are one kind. */
  ghost predicate OnePerName(gs: seq<Gvk>) {
    forall g, h :: g in gs && h in gs && g.kind == h.kind ==> g == h
  }

  lemma OnePerNameMore(gs: seq<Gvk>, g: Gvk)
    ensures OnePerName(gs + [g]) <==> OnePerName(gs) && forall h :: h in gs && h.kind == g.kind ==> h == g
  {
    assert forall h :: h in gs + [g] <==> h in gs || h == g;
  }

  ghost predicate BootOk(gvks: seq<Gvk>) {
    && (Booted(gvks).Some? <==> OnePerName(Normals(gvks)))
    && (Booted(gvks).Some? ==> BootTables(Booted(gvks).value, Normals(gvks)))
  }

  lemma BootOkNext(init: seq<Gvk>, gvk: Gvk)
    requires BootOk(init)
    ensures BootOk(init + [gvk])
  {
    BootedSnoc(init, gvk);
    OnePerNameMore(Normals(init), Normal(gvk));
    if Booted(init).Some? { BootNext(Booted(init).value, Normals(init), Normal(gvk)); }
  }

  lemma BootOkNone()
    ensures BootOk([])
  {
    assert Normals([]) == [];
  }

  lemma {:induction false} BootBuilds(gvks: seq<Gvk>)
    ensures BootOk(gvks)
    decreases |gvks|
  {
    if |gvks| == 0 {
      BootOkNone();
      assert gvks == [];
    } else {
      var init, last := gvks[..|gvks| - 1], gvks[|gvks| - 1];
      assert gvks == init + [last];
      BootBuilds(init);
      BootOkNext(init, last);
    }
  }

  lemma BootNext(t: Tables, gs: seq<Gvk>, g: Gvk)
    requires BootTables(t, gs) && SlashFree(g.group)
    ensures PutBoth(t, g).1 <==> forall h :: h in gs && h.kind == g.kind ==> h == g
    ensures PutBoth(t, g).1 ==> BootTables(PutBoth(t, g).0, gs + [g])
  {
    BootAccepts(t, gs, g);
    if PutBoth(t, g).1 { BootMore(t, gs, g); }
  }

  lemma OnePerNameExactly(gvks: seq<Gvk>)
    ensures OnePerName(Normals(gvks)) <==>
              forall i, j :: 0 <= i < |gvks| && 0 <= j < |gvks| && gvks[i].kind == gvks[j].kind ==> Normal(gvks[i]) == Normal(gvks[j])
  {
    if OnePerName(Normals(gvks)) {
      forall i, j | 0 <= i < |gvks| && 0 <= j < |gvks| && gvks[i].kind == gvks[j].kind ensures Normal(gvks[i]) == Normal(gvks[j]) {
        assert Normals(gvks)[i] in Normals(gvks) && Normals(gvks)[j] in Normals(gvks);
      }
    } else {
      var g, h :| g in Normals(gvks) && h in Normals(gvks) && g.kind == h.kind && g != h;
      var i := NormalAt(gvks, g);
      var j := NormalAt(gvks, h);
    }
  }

  lemma NormalAt(gvks: seq<Gvk>, g: Gvk) returns (i: nat)
    requires g in Normals(gvks)
    ensures i < |gvks| && Normal(gvks[i]) == g && gvks[i].kind == g.kind
  {
    i :| i < |gvks| && Normals(gvks)[i] == g;
  }

  /** Bootstrap of any list of kinds: it succeeds exactly when kinds of one name agree once printed and parsed;
      and then content resolution and reverse resolution invert each other on every registered kind, its content
      being its name + "Content" in its own group and version, and no other kind resolves. */
  lemma BootstrapExactly(gvks: seq<Gvk>)
    ensures Booted(gvks).Some? <==>
              forall i, j :: 0 <= i < |gvks| && 0 <= j < |gvks| && gvks[i].kind == gvks[j].kind ==> Normal(gvks[i]) == Normal(gvks[j])
    ensures Booted(gvks).Some? ==> forall i :: 0 <= i < |gvks| ==> RoundTrips(Booted(gvks).value, Normal(gvks[i]))
    ensures Booted(gvks).Some? ==> forall k :: (forall i :: 0 <= i < |gvks| ==> gvks[i].kind != k) ==> ResolveContent(Booted(gvks).value, k) == None
  {
    BootBuilds(gvks);
    OnePerNameExactly(gvks);
    var gs := Normals(gvks);
    if Booted(gvks).Some? {
      var t := Booted(gvks).value;
      forall i | 0 <= i < |gvks| ensures RoundTrips(t, Normal(gvks[i])) {
        assert gs[i] in gs;
        BootResolves(t, gs, gs[i]);
      }
      forall k | forall i :: 0 <= i < |gvks| ==> gvks[i].kind != k ensures ResolveContent(t, k) == None {
        BootKnowsNoOther(gvks, k);
      }
    }
  }

  lemma BootKnowsNoOther(gvks: seq<Gvk>, k: string)
    requires Booted(gvks).Some? && forall i :: 0 <= i < |gvks| ==> gvks[i].kind != k
    ensures ResolveContent(Booted(gvks).value, k) == None
  {
    BootBuilds(gvks);
    forall g | g in Normals(gvks) ensures g.kind != k {
      var i := NormalAt(gvks, g);
    }
  }

  /** A kind is found under its name, resolves to its name + "Content" in its own group and version, and that
      content leads back to it. */
  ghost predicate RoundTrips(t: Tables, g: Gvk) {
    && ResolveSnapshot(t, g.kind) == Some(g)
    && ResolveContent(t, g.kind) == Some(Gvk(g.group, g.version, g.kind + "Content"))
    && ResolveKind(t, Gvk(g.group, g.version, g.kind + "Content")) == Some(g.kind)
  }

  lemma BootResolves(t: Tables, gs: seq<Gvk>, g: Gvk)
    requires BootTables(t, gs) && g in gs
    ensures RoundTrips(t, g)
  {
    assert BootHolds(t, g);
    SuffixTrims(g.kind);
  }
}
