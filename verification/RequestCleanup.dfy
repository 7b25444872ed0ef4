/** When the core may latch the manifest leg as captured and delete its capture request. */
module RequestCleanup {
  import opened OwnerRef

  const CONTENT_API_VERSION := "state-snapshotter.deckhouse.io/v1alpha1"
  const CONTENT_KIND := "SnapshotContent"

  datatype Content = Content(uid: string, checkpointName: string)
  datatype Checkpoint = Checkpoint(ready: Option<bool>, owners: seq<Owner>)

  /** What the durable-handoff test reads; `contentName` is the bound content of the snapshot. */
  datatype Handoff = Handoff(contentName: string, contents: map<string, Content>, checkpoints: map<string, Checkpoint>)

  /** The first owner reference naming the content decides; later ones are not looked at. */
  predicate OwnedBy(owners: seq<Owner>, contentName: string, contentUid: string) {
    if owners == [] then false
    else if owners[0].apiVersion != CONTENT_API_VERSION || owners[0].kind != CONTENT_KIND || owners[0].name != contentName
    then OwnedBy(owners[1..], contentName, contentUid)
    else contentUid == "" || owners[0].uid == "" || owners[0].uid == contentUid
  }

  /** The bound content names an existing Ready checkpoint that it owns. */
  predicate Durable(h: Handoff) {
    && h.contentName in h.contents
    && var content := h.contents[h.contentName];
    && content.checkpointName != ""
    && content.checkpointName in h.checkpoints
    && var cp := h.checkpoints[content.checkpointName];
    && cp.ready == Some(true)
    && OwnedBy(cp.owners, h.contentName, content.uid)
  }

  /** A controller reference to the content of this name. */
  predicate NamesContent(ref: Owner, contentName: string) {
    ref.apiVersion == "state-snapshotter.deckhouse.io/v1alpha1" && ref.kind == "SnapshotContent" && ref.name == contentName
  }

  /** The first reference that names the content carries its UID, as far as both are known. */
  ghost predicate FirstNames(owners: seq<Owner>, contentName: string, contentUid: string) {
    exists i :: 0 <= i < |owners| && NamesContent(owners[i], contentName)
      && (forall j :: 0 <= j < i ==> !NamesContent(owners[j], contentName))
      && (contentUid == "" || owners[i].uid == "" || owners[i].uid == contentUid)
  }

  lemma {:induction false} OwnedByExactly(owners: seq<Owner>, contentName: string, contentUid: string)
    ensures OwnedBy(owners, contentName, contentUid) <==> FirstNames(owners, contentName, contentUid)
  {
    if owners != [] {
      var rest := owners[1..];
      OwnedByExactly(rest, contentName, contentUid);
      if NamesContent(owners[0], contentName) {
        if FirstNames(owners, contentName, contentUid) {
          var i :| 0 <= i < |owners| && NamesContent(owners[i], contentName)
            && (forall j :: 0 <= j < i ==> !NamesContent(owners[j], contentName))
            && (contentUid == "" || owners[i].uid == "" || owners[i].uid == contentUid);
          assert i == 0;
        }
      } else {
        if FirstNames(rest, contentName, contentUid) {
          var i :| 0 <= i < |rest| && NamesContent(rest[i], contentName)
            && (forall j :: 0 <= j < i ==> !NamesContent(rest[j], contentName))
            && (contentUid == "" || rest[i].uid == "" || rest[i].uid == contentUid);
          assert owners[i + 1] == rest[i];
          forall j | 0 <= j < i + 1 ensures !NamesContent(owners[j], contentName) {
            if j > 0 { assert owners[j] == rest[j - 1]; }
          }
        }
        if FirstNames(owners, contentName, contentUid) {
          var i :| 0 <= i < |owners| && NamesContent(owners[i], contentName)
            && (forall j :: 0 <= j < i ==> !NamesContent(owners[j], contentName))
            && (contentUid == "" || owners[i].uid == "" || owners[i].uid == contentUid);
          assert rest[i - 1] == owners[i];
          forall j | 0 <= j < i - 1 ensures !NamesContent(rest[j], contentName) { assert rest[j] == owners[j + 1]; }
        }
      }
    }
  }

  method OwnedByContent(owners: seq<Owner>, contentName: string, contentUid: string) returns (owned: bool)
    ensures owned == OwnedBy(owners, contentName, contentUid)
    ensures owned <==> FirstNames(owners, contentName, contentUid)
  {
    OwnedByExactly(owners, contentName, contentUid);
    for i := 0 to |owners|
      invariant OwnedBy(owners, contentName, contentUid) == OwnedBy(owners[i..], contentName, contentUid)
    {
      var ref := owners[i];
      if ref.apiVersion != CONTENT_API_VERSION || ref.kind != CONTENT_KIND || ref.name != contentName { continue; }
      return contentUid == "" || ref.uid == "" || ref.uid == contentUid;
    }
    return false;
  }

  /** The test itself, with its early exits in the source's order. `request` is the checkpoint name in the
      request's status, or None when the request is gone. */
  method SafeToDelete(request: Option<string>, h: Handoff) returns (safe: bool)
    ensures safe == Safe(request, h)
  {
    if h.contentName == "" { return false; }
    if h.contentName !in h.contents { return false; }
    var content := h.contents[h.contentName];
    if content.checkpointName == "" { return false; }
    if content.checkpointName !in h.checkpoints { return false; }
    var cp := h.checkpoints[content.checkpointName];
    if cp.ready != Some(true) { return false; }
    var owned := OwnedByContent(cp.owners, h.contentName, content.uid);
    if !owned { return false; }
    match request
    case None => return true;
    case Some(name) => return name != "" && name == content.checkpointName;
  }

  predicate Safe(request: Option<string>, h: Handoff) {
    && h.contentName != ""
    && Durable(h)
    && (request.Some? ==> request.value == h.contents[h.contentName].checkpointName)
  }

  /** The manifest has been handed over: the bound content exists and names a checkpoint, that checkpoint exists,
      says it is Ready and belongs to the content, and a request that is still there names the same checkpoint. */
  ghost predicate HandedOver(request: Option<string>, h: Handoff) {
    && h.contentName != "" && h.contentName in h.contents
    && var name := h.contents[h.contentName].checkpointName;
    && name != "" && name in h.checkpoints && h.checkpoints[name].ready == Some(true)
    && FirstNames(h.checkpoints[name].owners, h.contentName, h.contents[h.contentName].uid)
    && (request == None || request == Some(name))
  }

  lemma SafeExactly(request: Option<string>, h: Handoff)
    ensures Safe(request, h) <==> HandedOver(request, h)
  {
    if h.contentName in h.contents && h.contents[h.contentName].checkpointName in h.checkpoints {
      OwnedByExactly(h.checkpoints[h.contents[h.contentName].checkpointName].owners, h.contentName, h.contents[h.contentName].uid);
    }
  }

  /** Deleting the request never takes the verdict back, and the request's absence alone never gives it:
      the verdict without a request is exactly durability. */
  lemma VerdictSurvivesDeletion(name: string, h: Handoff)
    ensures Safe(Some(name), h) ==> Safe(None, h)
    ensures Safe(None, h) <==> h.contentName != "" && Durable(h)
    ensures Safe(None, h) <==> exists n :: Safe(Some(n), h)
  {
    if Safe(None, h) {
      assert Safe(Some(h.contents[h.contentName].checkpointName), h);
    }
  }
}
