/** The hosted background service: the worker loop that drains the persistence queue,
    the eviction of a room's keys from the version store, and the fold of a batch of
    operations into the source document. */
module BackgroundService {
  import opened Wrappers
  import opened Actions
  import opened BackgroundQueue
  import CollaborativeEditing

  /** The suffixes that name a room's keys beside the room key itself (the room's version
      counter, its revision watermark and its cleared side-list). Their values are defined
      in a helper class that is not part of this model. */
  datatype KeySuffixes = KeySuffixes(versionInfo: string, revisionInfo: string, actionsToRemove: string)

  /** The four keys of a room are told apart: every suffix is non-empty and they differ. */
  predicate DistinctSuffixes(sfx: KeySuffixes) {
    && sfx.versionInfo != "" && sfx.revisionInfo != "" && sfx.actionsToRemove != ""
    && sfx.versionInfo != sfx.revisionInfo
    && sfx.versionInfo != sfx.actionsToRemove
    && sfx.revisionInfo != sfx.actionsToRemove
  }

  /** The version store's key space. */
  class RedisStore {
    var entries: map<string, string>

    constructor (entries: map<string, string>)
      ensures this.entries == entries
    {
      this.entries := entries;
    }

    /** `KeyDeleteAsync`: the key is gone; deleting an absent key changes nothing. */
    method KeyDelete(key: string)
      modifies this`entries
      ensures entries == old(entries) - {key}
    {
      entries := entries - {key};
    }
  }

  /** The keys a processed work item evicts. */
  function EvictedKeys(workItem: SaveInfo, sfx: KeySuffixes): set<string> {
    var room := workItem.roomName;
    if workItem.partialSave then {room + sfx.actionsToRemove}
    else {room, room + sfx.revisionInfo, room + sfx.versionInfo, room + sfx.actionsToRemove}
  }

  /** `k` is the room name followed by some suffix (the room key included). */
  predicate DerivedFrom(k: string, room: string) {
    |room| <= |k| && k[..|room|] == room
  }

  /** `ClearRecordsFromRedisCache`: a full save deletes the room key and its revision and
      version keys; every save deletes the cleared side-list. */
  method ClearRecordsFromRedisCache(workItem: SaveInfo, db: RedisStore, sfx: KeySuffixes)
    modifies db`entries
    ensures db.entries == old(db.entries) - EvictedKeys(workItem, sfx)
  {
    if !workItem.partialSave {
      db.KeyDelete(workItem.roomName);
      db.KeyDelete(workItem.roomName + sfx.revisionInfo);
      db.KeyDelete(workItem.roomName + sfx.versionInfo);
    }
    db.KeyDelete(workItem.roomName + sfx.actionsToRemove);
  }

  /** Eviction only ever touches keys derived from the work item's room. */
  lemma EvictionStaysInRoom(workItem: SaveInfo, sfx: KeySuffixes, k: string)
    requires !DerivedFrom(k, workItem.roomName)
    ensures k !in EvictedKeys(workItem, sfx)
  {
    var room := workItem.roomName;
    assert (room + sfx.revisionInfo)[..|room|] == room;
    assert (room + sfx.versionInfo)[..|room|] == room;
    assert (room + sfx.actionsToRemove)[..|room|] == room;
    assert room[..|room|] == room;
  }

  /** A partial save keeps the room's log, revision and version keys (and every other key),
      and removes only the cleared side-list. */
  lemma PartialSaveKeepsRoomState(workItem: SaveInfo, sfx: KeySuffixes, entries: map<string, string>)
    requires workItem.partialSave && DistinctSuffixes(sfx)
    ensures var room := workItem.roomName;
      var after := entries - EvictedKeys(workItem, sfx);
      && room + sfx.actionsToRemove !in after
      && forall k :: k in entries && k != room + sfx.actionsToRemove ==> k in after && after[k] == entries[k]
    ensures var room := workItem.roomName;
      var toRemove := room + sfx.actionsToRemove;
      room != toRemove && room + sfx.revisionInfo != toRemove && room + sfx.versionInfo != toRemove
  {
    var room := workItem.roomName;
    var toRemove := room + sfx.actionsToRemove;
    assert toRemove[|room|..] == sfx.actionsToRemove;
    assert |toRemove| > |room|;
    assert (room + sfx.revisionInfo)[|room|..] == sfx.revisionInfo;
    assert (room + sfx.versionInfo)[|room|..] == sfx.versionInfo;
  }

  /** A full save evicts all four keys of the room and nothing else. */
  lemma FullSaveEvictsRoom(workItem: SaveInfo, sfx: KeySuffixes, entries: map<string, string>)
    requires !workItem.partialSave
    ensures var room := workItem.roomName;
      var after := entries - EvictedKeys(workItem, sfx);
      && room !in after && room + sfx.revisionInfo !in after
      && room + sfx.versionInfo !in after && room + sfx.actionsToRemove !in after
      && forall k :: k in entries && !DerivedFrom(k, room) ==> k in after && after[k] == entries[k]
  {
    var room := workItem.roomName;
    forall k | k in entries && !DerivedFrom(k, room)
      ensures k !in EvictedKeys(workItem, sfx)
    {
      EvictionStaysInRoom(workItem, sfx, k);
    }
  }

  /** The store after the work items of `done` were processed in order. */
  function EvictAll(entries: map<string, string>, done: seq<SaveInfo>, sfx: KeySuffixes): map<string, string> {
    if done == [] then entries
    else EvictAll(entries, done[..|done| - 1], sfx) - EvictedKeys(done[|done| - 1], sfx)
  }

  /** After a run of work items a key survives, with its value, exactly when no item's
      eviction named it; in particular a key derived from none of the rooms survives. */
  lemma {:induction false} EvictAllSpec(entries: map<string, string>, done: seq<SaveInfo>, sfx: KeySuffixes, k: string)
    ensures k in EvictAll(entries, done, sfx) <==>
      k in entries && forall i :: 0 <= i < |done| ==> k !in EvictedKeys(done[i], sfx)
    ensures k in EvictAll(entries, done, sfx) ==> EvictAll(entries, done, sfx)[k] == entries[k]
    ensures k in entries && (forall i :: 0 <= i < |done| ==> !DerivedFrom(k, done[i].roomName)) ==>
      k in EvictAll(entries, done, sfx)
    decreases |done|
  {
    if done != [] {
      var init := done[..|done| - 1];
      EvictAllSpec(entries, init, sfx, k);
      assert forall i :: 0 <= i < |init| ==> init[i] == done[i];
      if k in entries && forall i :: 0 <= i < |done| ==> !DerivedFrom(k, done[i].roomName) {
        forall i | 0 <= i < |done| ensures k !in EvictedKeys(done[i], sfx) {
          EvictionStaysInRoom(done[i], sfx, k);
        }
      }
    }
  }

  /** How the worker loop ends. */
  datatype LoopExit =
    | Cancelled                               // the stopping token was signalled
    | WaitingForWork                          // the queue is empty; the read waits
    | Faulted(item: SaveInfo, message: string) // processing threw; the wrapped exception ends the loop

  /** The message of the exception the loop wraps a processing failure in. */
  const ProcessingFailedMessage: string := "Failed to save the operations to source document"

  /** `BackgroundProcessing`: until cancellation is requested, take the next work item and
      clear its keys. `stopAfter` is the number of iterations after which the token is
      signalled; `fails` says of which items processing throws. A failing item has left the
      queue and is not retried. */
  method BackgroundProcessing(queue: BackgroundTaskQueue, db: RedisStore, sfx: KeySuffixes,
                              stopAfter: nat, fails: SaveInfo -> bool)
    returns (exit: LoopExit, processed: seq<SaveInfo>)
    requires queue.Valid()
    modifies queue`items, db`entries
    ensures queue.Valid()
    ensures |processed| <= stopAfter
    ensures forall i :: 0 <= i < |processed| ==> !fails(processed[i])
    ensures exit.Faulted? ==>
      fails(exit.item) && exit.message == ProcessingFailedMessage &&
      old(queue.items) == processed + [exit.item] + queue.items
    ensures !exit.Faulted? ==> old(queue.items) == processed + queue.items
    ensures exit == WaitingForWork ==> queue.items == []
    ensures exit == Cancelled ==> |processed| == stopAfter
    ensures db.entries == EvictAll(old(db.entries), processed, sfx)
  {
    processed := [];
    while |processed| < stopAfter
      invariant queue.Valid()
      invariant |processed| <= stopAfter
      invariant forall i :: 0 <= i < |processed| ==> !fails(processed[i])
      invariant old(queue.items) == processed + queue.items
      invariant db.entries == EvictAll(old(db.entries), processed, sfx)
      decreases stopAfter - |processed|
    {
      ghost var waiting := queue.items;
      var workItem := queue.Dequeue();
      if workItem.None? {
        return WaitingForWork, processed;
      }
      var item := workItem.value;
      assert waiting == [item] + queue.items;
      assert old(queue.items) == processed + [item] + queue.items;
      if fails(item) {
        return Faulted(item, ProcessingFailedMessage), processed;
      }
      ClearRecordsFromRedisCache(item, db, sfx);
      var next := processed + [item];
      assert next[..|processed|] == processed && next[|processed|] == item;
      assert EvictAll(old(db.entries), next, sfx) == EvictAll(old(db.entries), processed, sfx) - EvictedKeys(item, sfx);
      processed := next;
    }
    exit := Cancelled;
  }

  // ---------------------------------------------------------------- fold into the document

  /** The name of the document the fold loads, and the file it saves to. */
  const SourceDocumentName: string := "Giant Panda.docx"
  const SavedFileName: string := "Getting Started.docx"

  /** How a fold ends. */
  datatype ApplyOutcome<D> = NothingSaved | Saved(fileName: string, document: D) | ApplyFaulted

  /** The document after applying `actions` one after another, in index order, where
      `updateAction` stands for the editor library's `UpdateAction` (`None`: it threw).
      The first failure ends the fold. */
  function ApplyAll<D>(document: D, actions: seq<ActionInfo>, updateAction: (D, ActionInfo) -> Option<D>): Option<D> {
    if actions == [] then Some(document)
    else
      match ApplyAll(document, actions[..|actions| - 1], updateAction)
      case None => None
      case Some(d) => updateAction(d, actions[|actions| - 1])
  }

  /** Applying a list in two parts is applying it whole: first part, then the second on
      its result, unless the first part already failed. */
  lemma {:induction false} ApplyAllAppend<D>(document: D, s: seq<ActionInfo>, t: seq<ActionInfo>, updateAction: (D, ActionInfo) -> Option<D>)
    ensures ApplyAll(document, s + t, updateAction) ==
      match ApplyAll(document, s, updateAction)
      case None => None
      case Some(d) => ApplyAll(d, t, updateAction)
    decreases |t|
  {
    if t == [] {
      assert s + t == s;
    } else {
      var t' := t[..|t| - 1];
      ApplyAllAppend(document, s, t', updateAction);
      assert (s + t)[..|s + t| - 1] == s + t';
      assert (s + t)[|s + t| - 1] == t[|t| - 1];
    }
  }

  /** Once an update fails, the whole fold fails: a successful fold succeeded on every
      prefix. */
  lemma ApplyAllPrefix<D>(document: D, s: seq<ActionInfo>, k: nat, updateAction: (D, ActionInfo) -> Option<D>)
    requires k <= |s|
    ensures ApplyAll(document, s[..k], updateAction).None? ==> ApplyAll(document, s, updateAction).None?
  {
    ApplyAllAppend(document, s[..k], s[k..], updateAction);
    assert s[..k] + s[k..] == s;
  }

  /** `ApplyOperationsToSourceDocument`: load the document (`loaded`; `None` if that threw);
      for a null or empty list save nothing; otherwise transform the untransformed actions,
      apply every action in index order and save the result. An exception from the engine
      or from an update leaves the method before anything is saved. */
  function ApplyOperationsSpec<D>(actions: Option<seq<ActionInfo>>, loaded: Option<D>, transform: Transform,
                                  updateAction: (D, ActionInfo) -> Option<D>): ApplyOutcome<D>
  {
    match loaded
    case None => ApplyFaulted
    case Some(document) =>
      if actions.None? || |actions.value| == 0 then NothingSaved
      else
        match TransformPending(actions.value, transform)
        case None => ApplyFaulted
        case Some(ts) =>
          match ApplyAll(document, ts, updateAction)
          case None => ApplyFaulted
          case Some(updated) => Saved(SavedFileName, updated)
  }

  /** The fold as the service runs it, loading the fixed source document first. It is not
      called by the worker loop. */
  method ApplyOperationsToSourceDocument<B, D>(actions: Option<seq<ActionInfo>>,
                                               download: string -> Option<B>, load: (B, CollaborativeEditing.FormatType) -> Option<D>,
                                               transform: Transform, updateAction: (D, ActionInfo) -> Option<D>)
    returns (outcome: ApplyOutcome<D>)
    ensures outcome == ApplyOperationsSpec(actions, CollaborativeEditing.SourceDocument(SourceDocumentName, download, load),
                                           transform, updateAction)
  {
    var loaded := CollaborativeEditing.SourceDocument(SourceDocumentName, download, load);
    outcome := ApplyOperations(actions, loaded, transform, updateAction);
  }

  /** The part of `ApplyOperationsToSourceDocument` after the document is loaded (`None`
      when loading threw). */
  method ApplyOperations<D>(actions: Option<seq<ActionInfo>>, loaded: Option<D>,
                            transform: Transform, updateAction: (D, ActionInfo) -> Option<D>)
    returns (outcome: ApplyOutcome<D>)
    ensures outcome == ApplyOperationsSpec(actions, loaded, transform, updateAction)
  {
    if loaded.None? {
      return ApplyFaulted;
    }
    var document := loaded.value;
    if actions.None? || |actions.value| == 0 {
      return NothingSaved;
    }
    var transformed := TransformUntransformed(actions.value, transform);
    if transformed.None? {
      return ApplyFaulted;
    }
    var list := transformed.value;
    for i := 0 to |list|
      invariant ApplyAll(loaded.value, list[..i], updateAction) == Some(document)
    {
      assert list[..i + 1][..i] == list[..i];
      var updated := updateAction(document, list[i]);
      if updated.None? {
        ApplyAllPrefix(loaded.value, list, i + 1, updateAction);
        return ApplyFaulted;
      }
      document := updated.value;
    }
    assert list[..|list|] == list;
    outcome := Saved(SavedFileName, document);
  }

  /** Nothing is saved for a null or empty list. For a non-empty list the fold faults
      exactly when the engine or an update throws; when it saves, every update on the way
      succeeded and the saved document is the loaded one with every action applied in
      order, where already transformed actions are applied as given. */
  lemma ApplyOperationsSaves<D>(actions: Option<seq<ActionInfo>>, document: D, transform: Transform,
                                updateAction: (D, ActionInfo) -> Option<D>)
    ensures actions.None? || actions.value == [] ==>
      ApplyOperationsSpec(actions, Some(document), transform, updateAction) == NothingSaved
    ensures actions.Some? && (forall k :: 0 <= k < |actions.value| ==> actions.value[k].isTransformed) && actions.value != [] ==>
      ApplyOperationsSpec(actions, Some(document), transform, updateAction) ==
        if ApplyAll(document, actions.value, updateAction).Some?
        then Saved(SavedFileName, ApplyAll(document, actions.value, updateAction).value)
        else ApplyFaulted
    ensures ApplyOperationsSpec(actions, Some(document), transform, updateAction) == ApplyFaulted <==>
      && actions.Some? && actions.value != []
      && (TransformPending(actions.value, transform).None? ||
          ApplyAll(document, TransformPending(actions.value, transform).value, updateAction).None?)
    ensures ApplyOperationsSpec(actions, Some(document), transform, updateAction).Saved? ==>
      var ts := TransformPending(actions.value, transform).value;
      && |ts| == |actions.value|
      && (forall k :: 0 <= k < |ts| && actions.value[k].isTransformed ==> ts[k] == actions.value[k])
      && (forall k :: 0 <= k <= |ts| ==> ApplyAll(document, ts[..k], updateAction).Some?)
      && Some(ApplyOperationsSpec(actions, Some(document), transform, updateAction).document) ==
           updateAction(ApplyAll(document, ts[..|ts| - 1], updateAction).value, ts[|ts| - 1])
  {
    if actions.Some? {
      if forall k :: 0 <= k < |actions.value| ==> actions.value[k].isTransformed {
        AllTransformedUntouched(actions.value, 0, transform);
      }
      if TransformPending(actions.value, transform).Some? {
        var ts := TransformPending(actions.value, transform).value;
        TransformPendingSpec(actions.value, transform);
        forall k | 0 <= k <= |ts|
          ensures ApplyAll(document, ts, updateAction).Some? ==> ApplyAll(document, ts[..k], updateAction).Some?
        {
          ApplyAllPrefix(document, ts, k, updateAction);
        }
      }
    }
  }
}
