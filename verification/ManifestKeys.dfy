/** Captured manifests, their identities, and the string keys three components render for them. */
module ManifestKeys {
  import opened KeyText
  import opened Refs
  import opened OwnerRef

  datatype Metadata = Metadata(name: string, namespace: string, uid: string)

  /** A decoded object; a field that is missing or not a string reads as "". */
  datatype Manifest = Manifest(apiVersion: string, kind: string, metadata: Option<Metadata>)

  datatype Identity = Identity(apiVersion: string, kind: string, namespace: string, name: string, uid: string)

  const CLUSTER := "_cluster"

  function Scope(namespace: string): string {
    if namespace == "" then CLUSTER else namespace
  }

  function Render(apiVersion: string, kind: string, scope: string, name: string): string {
    Join2(apiVersion, Join2(kind, Join2(scope, name)))
  }

  // ---- the renderers ----------------------------------------------------------------------------

  /** aggregatedObjectIdentityKey; None is its error. */
  function AggregatedKey(m: Manifest): Option<string> {
    if m.metadata.None? then None
    else if m.apiVersion == "" || m.kind == "" || m.metadata.value.name == "" then None
    else Some(Render(m.apiVersion, m.kind, Scope(m.metadata.value.namespace), m.metadata.value.name))
  }

  /** subtreeManifestIdentityFrom; None is its error. */
  function IdentityFrom(m: Manifest): Option<Identity> {
    if m.metadata.None? then None
    else if m.apiVersion == "" || m.kind == "" || m.metadata.value.name == "" then None
    else Some(Identity(m.apiVersion, m.kind, m.metadata.value.namespace, m.metadata.value.name, m.metadata.value.uid))
  }

  /** The identity is the object's own: every field as the object has it, an empty namespace included. */
  predicate Describes(id: Identity, m: Manifest) {
    && m.metadata.Some?
    && id.apiVersion == m.apiVersion && id.kind == m.kind
    && id.namespace == m.metadata.value.namespace && id.name == m.metadata.value.name && id.uid == m.metadata.value.uid
  }

  /** What an object needs to be identified. */
  predicate Identifiable(m: Manifest) {
    m.metadata.Some? && m.apiVersion != "" && m.kind != "" && m.metadata.value.name != ""
  }

  lemma IdentityExactly(m: Manifest)
    ensures IdentityFrom(m).Some? <==> Identifiable(m)
    ensures AggregatedKey(m).Some? <==> Identifiable(m)
    ensures forall id :: IdentityFrom(m) == Some(id) <==> Identifiable(m) && Describes(id, m)
  {
  }

  /** subtreeIdentityExcludeKey. */
  function ExcludeKey(id: Identity): string {
    Render(id.apiVersion, id.kind, Scope(id.namespace), id.name)
  }

  /** ManifestTargetDedupKey: the snapshot's namespace stands in for the target's. */
  function TargetDedupKey(snapshotNamespace: string, t: Ref): string {
    Render(t.apiVersion, t.kind, Scope(snapshotNamespace), t.name)
  }

  /** The SDK's own union key leaves an empty namespace empty. */
  function UnionKey(id: Identity): string {
    Render(id.apiVersion, id.kind, id.namespace, id.name)
  }

  // ---- agreement ----------------------------------------------------------------------------------

  predicate Clean(id: Identity) {
    BarFree(id.apiVersion) && BarFree(id.kind) && BarFree(id.namespace)
  }

  predicate SameObject(a: Identity, b: Identity) {
    a.apiVersion == b.apiVersion && a.kind == b.kind && a.namespace == b.namespace && a.name == b.name
  }

  lemma RenderInjective(a1: string, k1: string, s1: string, n1: string, a2: string, k2: string, s2: string, n2: string)
    requires BarFree(a1) && BarFree(k1) && BarFree(s1) && BarFree(a2) && BarFree(k2) && BarFree(s2)
    ensures Render(a1, k1, s1, n1) == Render(a2, k2, s2, n2) <==> a1 == a2 && k1 == k2 && s1 == s2 && n1 == n2
  {
    if Render(a1, k1, s1, n1) == Render(a2, k2, s2, n2) {
      JoinInjective(a1, Join2(k1, Join2(s1, n1)), a2, Join2(k2, Join2(s2, n2)));
      JoinInjective(k1, Join2(s1, n1), k2, Join2(s2, n2));
      JoinInjective(s1, n1, s2, n2);
    }
  }

  /** The exclude key tells objects apart exactly, except that the cluster scope and a namespace literally
      named "_cluster" are one. */
  lemma ExcludeKeyExactly(a: Identity, b: Identity)
    requires Clean(a) && Clean(b)
    ensures ExcludeKey(a) == ExcludeKey(b) <==>
              SameObject(a, b.(namespace := a.namespace)) && Scope(a.namespace) == Scope(b.namespace)
    ensures a.namespace != CLUSTER && b.namespace != CLUSTER ==> (ExcludeKey(a) == ExcludeKey(b) <==> SameObject(a, b))
  {
    RenderInjective(a.apiVersion, a.kind, Scope(a.namespace), a.name, b.apiVersion, b.kind, Scope(b.namespace), b.name);
  }

  /** The key under which a node's checkpoint is de-duplicated and the key its published identity is
      excluded by are the same string; one exists exactly when the other does. */
  lemma RenderersAgree(m: Manifest)
    ensures AggregatedKey(m).Some? <==> IdentityFrom(m).Some?
    ensures IdentityFrom(m).Some? ==> AggregatedKey(m).value == ExcludeKey(IdentityFrom(m).value)
  {
  }

  /** A base target meets the exclude key of a captured identity exactly when that identity is the target's
      object in the snapshot's namespace. */
  lemma TargetMeetsIdentity(namespace: string, t: Ref, id: Identity)
    requires BarFree(t.apiVersion) && BarFree(t.kind) && BarFree(namespace) && Clean(id)
    requires namespace != "" && namespace != CLUSTER && id.namespace != CLUSTER
    ensures TargetDedupKey(namespace, t) == ExcludeKey(id) <==>
              SameObject(id, Identity(t.apiVersion, t.kind, namespace, t.name, ""))
  {
    ExcludeKeyExactly(id, Identity(t.apiVersion, t.kind, namespace, t.name, ""));
  }

  lemma {:induction false} ClusterNamespaceCollides(apiVersion: string, kind: string, name: string)
    ensures ExcludeKey(Identity(apiVersion, kind, "", name, "")) == ExcludeKey(Identity(apiVersion, kind, CLUSTER, name, ""))
    ensures !SameObject(Identity(apiVersion, kind, "", name, ""), Identity(apiVersion, kind, CLUSTER, name, ""))
  {
  }
}
