/** The controller of the collaborative editing server: ingest of one operation after
    the atomic insert script has run, catch-up of a client from its last version, the
    merge of the two pending lists, import of a document, and the helpers that locate
    a document in blob storage and pick its format. The scripts, the transform engine,
    blob download and document loading are parameters. */
module CollaborativeEditing {
  import opened Wrappers
  import opened Text
  import opened Actions

  /** The folder inside the blob container that holds the documents. */
  const RootFolderName: string := "Files"

  /** The message of the `NotSupportedException` that `GetFormatType` throws. */
  const NotSupportedMessage: string := "EJ2 DocumentEditor does not support this file format."

  /** What the insert script returns: the version it assigned (the number `int.Parse`
      reads), the operations logged since the client's version, and the batch it moved to
      the side-list when the log crossed the save threshold (`None` when it sent back no
      third result, or a null one). */
  datatype InsertResult = InsertResult(version: int, previous: seq<ActionInfo>, cleared: Option<seq<ActionInfo>>)

  /** What ingest produces: the action returned to the caller (and broadcast), the index
      sent to the record-update script, and the work item handed to the save queue. */
  datatype Ingested = Ingested(action: ActionInfo, recordIndex: int, saveItem: Option<SaveInfo>)

  /** The two shapes of the catch-up reply: a JSON array of actions, or the literal `{}`. */
  datatype CatchUpReply = ActionList(actions: seq<ActionInfo>) | EmptyObject

  /** The document formats the editor can load. */
  datatype FormatType = Docx | Doc | Rtf | Txt | WordML | Html

  /** The reply of `ImportFile` before serialization. */
  datatype DocumentContent<D> = DocumentContent(version: int, document: D)

  // ---------------------------------------------------------------- ingest

  /** `AddOperationsToCache` after the insert script: parse the script's version as a C#
      `int`; renumber the previous operations from the client's version; with more than
      one, adopt the last (an alias, so it carries its rewrite) and transform the
      untransformed ones; stamp the script's version and the transformed flag; send the
      record update `version - 1` (unchecked); wrap a cleared batch as a partial-save work
      item. `None`: the parse or a call to the engine threw, and the exception leaves the
      controller. */
  function IngestSpec(action: ActionInfo, script: InsertResult, transform: Transform): Option<Ingested> {
    if !IsInt32(script.version) then None else
    var prev := Renumbered(script.previous, action.version);
    var adopted :=
      if |prev| > 1 then
        match TransformPending(prev, transform)
        case None => None
        case Some(ts) => Some(ts[|ts| - 1])
      else Some(action);
    match adopted
    case None => None
    case Some(a) =>
      var stamped := a.(version := script.version, isTransformed := true);
      Some(Ingested(stamped, Wrap32(script.version - 1),
        if script.cleared.Some? then Some(SaveInfo(script.cleared.value, true, stamped.roomName)) else None))
  }

  /** The ingest body as the controller runs it, step by step. */
  method AddOperationsToCache(action: ActionInfo, script: InsertResult, transform: Transform)
    returns (r: Option<Ingested>)
    ensures r == IngestSpec(action, script, transform)
  {
    var clientVersion := action.version;
    if !IsInt32(script.version) {
      return None;
    }
    var version := script.version;
    var previousOperations := RenumberFrom(script.previous, clientVersion);
    var current := action;
    if |previousOperations| > 1 {
      var transformed := TransformUntransformed(previousOperations, transform);
      if transformed.None? {
        return None;
      }
      current := transformed.value[|transformed.value| - 1];
    }
    current := current.(version := version, isTransformed := true);
    var recordIndex := Wrap32(version - 1);
    var saveItem: Option<SaveInfo> := None;
    if script.cleared.Some? {
      var cleared := script.cleared.value;
      var actions: seq<ActionInfo> := [];
      for i := 0 to |cleared|
        invariant actions == cleared[..i]
      {
        actions := actions + [cleared[i]];
      }
      assert actions == cleared;
      saveItem := Some(SaveInfo(actions, true, current.roomName));
    }
    r := Some(Ingested(current, recordIndex, saveItem));
  }

  /** Whatever path ingest takes, the script's version is a valid `int`, the returned
      action carries it and the transformed flag, and the record update is sent index
      `version - 1`, which wraps only for the smallest `int`. */
  lemma IngestStampsAction(action: ActionInfo, script: InsertResult, transform: Transform)
    requires IngestSpec(action, script, transform).Some?
    ensures var out := IngestSpec(action, script, transform).value;
      && IsInt32(script.version)
      && out.action.version == script.version && out.action.isTransformed
      && out.recordIndex == Wrap32(script.version - 1)
      && (script.version > Int32Min ==> out.recordIndex == script.version - 1)
      && (script.version == Int32Min ==> out.recordIndex == Int32Max)
  {
  }

  /** With at most one previous operation nothing is transformed and the submitted action
      itself is returned, stamped; ingest fails only when the script's version does not
      parse as an `int`. */
  lemma IngestKeepsSubmitted(action: ActionInfo, script: InsertResult, transform: Transform)
    requires |script.previous| <= 1
    ensures IngestSpec(action, script, transform).Some? <==> IsInt32(script.version)
    ensures IngestSpec(action, script, transform).Some? ==>
      IngestSpec(action, script, transform).value.action == action.(version := script.version, isTransformed := true)
  {
  }

  /** With more than one previous operation the returned action is the last of them,
      numbered `clientVersion + n` on the 32-bit counter: when it was already transformed,
      as logged; otherwise, what the engine made of it given the list with all earlier
      operations already rewritten. Either way it is stamped with the script's version. */
  lemma IngestAdoptsLast(action: ActionInfo, script: InsertResult, transform: Transform)
    requires |script.previous| > 1 && IngestSpec(action, script, transform).Some?
    ensures var n := |script.previous|;
      var last := script.previous[n - 1];
      var renumbered := last.(version := Wrap32(action.version + n));
      var prev := Renumbered(script.previous, action.version);
      var out := IngestSpec(action, script, transform).value.action;
      && TransformPending(prev, transform).Some?
      && (last.isTransformed ==> out == last.(version := script.version))
      && (!last.isTransformed ==>
            var ts := TransformPending(prev, transform).value;
            && transform(renumbered, ts[..n - 1] + [renumbered]).Some?
            && out == transform(renumbered, ts[..n - 1] + [renumbered]).value.(version := script.version, isTransformed := true))
  {
    var n := |script.previous|;
    var prev := Renumbered(script.previous, action.version);
    RenumberedAt(script.previous, action.version, n - 1);
    TransformPendingSpec(prev, transform);
    var ts := TransformPending(prev, transform).value;
    if !script.previous[n - 1].isTransformed {
      assert prev[n - 1..] == [prev[n - 1]];
      assert transform(prev[n - 1], ts[..n - 1] + prev[n - 1..]) == Some(ts[n - 1]);
    }
  }

  /** Ingest fails exactly when the script's version is out of `int` range, or there is
      more than one previous operation and an engine call fails; with a valid version, an
      engine that never throws makes it always succeed. */
  lemma IngestFailsOnlyInTransform(action: ActionInfo, script: InsertResult, transform: Transform)
    ensures IngestSpec(action, script, transform).None? <==>
      !IsInt32(script.version) ||
      (|script.previous| > 1 && TransformPending(Renumbered(script.previous, action.version), transform).None?)
    ensures NeverFails(transform) && IsInt32(script.version) ==> IngestSpec(action, script, transform).Some?
  {
    if NeverFails(transform) {
      TransformFromSucceeds(Renumbered(script.previous, action.version), 0, transform);
    }
  }

  /** A work item is produced exactly when the script returned a cleared batch; it is a
      partial save of that batch, in its order, for the returned action's room. */
  lemma IngestSaveItem(action: ActionInfo, script: InsertResult, transform: Transform)
    requires IngestSpec(action, script, transform).Some?
    ensures var out := IngestSpec(action, script, transform).value;
      && (out.saveItem.Some? <==> script.cleared.Some?)
      && (out.saveItem.Some? ==>
            out.saveItem.value == SaveInfo(script.cleared.value, true, out.action.roomName))
  {
  }

  /** The engine does not move operations between rooms. */
  ghost predicate KeepsRoom(transform: Transform) {
    forall a, ctx :: transform(a, ctx).Some? ==> transform(a, ctx).value.roomName == a.roomName
  }

  /** When the logged operations belong to the submitter's room and the engine keeps
      rooms, the work item is for the submitter's room. */
  lemma IngestSaveItemRoom(action: ActionInfo, script: InsertResult, transform: Transform)
    requires KeepsRoom(transform)
    requires forall k :: 0 <= k < |script.previous| ==> script.previous[k].roomName == action.roomName
    requires IngestSpec(action, script, transform).Some? && script.cleared.Some?
    ensures IngestSpec(action, script, transform).value.saveItem.value.roomName == action.roomName
  {
    var n := |script.previous|;
    if n > 1 {
      var prev := Renumbered(script.previous, action.version);
      RenumberedAt(script.previous, action.version, n - 1);
      TransformPendingSpec(prev, transform);
      var ts := TransformPending(prev, transform).value;
      if !prev[n - 1].isTransformed {
        assert transform(prev[n - 1], ts[..n - 1] + prev[n - 1..]) == Some(ts[n - 1]);
      }
    }
  }

  /** Two clients submit against version 5. The first operation was logged at 6 and already
      transformed; the second, submitted with version 5 and logged last, comes back with
      version 7 as the engine rewrote it against the list `[first, second]`. */
  lemma ConcurrentSubmissions(a: ActionInfo, b: ActionInfo, transform: Transform)
    requires a.isTransformed && !b.isTransformed && b.version == 5
    requires transform(b.(version := 7), [a.(version := 6), b.(version := 7)]).Some?
    ensures var t := transform(b.(version := 7), [a.(version := 6), b.(version := 7)]).value;
      IngestSpec(b, InsertResult(7, [a, b], None), transform) ==
        Some(Ingested(t.(version := 7, isTransformed := true), 6, None))
  {
    var prev := Renumbered([a, b], 5);
    RenumberedAt([a, b], 5, 0);
    RenumberedAt([a, b], 5, 1);
    assert Wrap32(6) == 6 && Wrap32(7) == 7;
    assert prev == [a.(version := 6), b.(version := 7)];
    var t := transform(b.(version := 7), prev).value;
    assert TransformFrom(prev, 1, transform) == TransformFrom(prev[1 := t], 2, transform);
  }

  // ---------------------------------------------------------------- catch-up

  /** `GetActionsFromServer` on the list the effective-pending script returned (`None`:
      the script or its decoding threw): number from the client's version, keep those
      above it, transform the untransformed. Any failure gives `{}`. */
  function CatchUpSpec(clientVersion: int, fetched: Option<seq<ActionInfo>>, transform: Transform): CatchUpReply {
    match fetched
    case None => EmptyObject
    case Some(ops) =>
      var newer := Newer(Renumbered(ops, clientVersion), clientVersion);
      match TransformPending(newer, transform)
      case None => EmptyObject
      case Some(ts) => ActionList(ts)
  }

  /** The catch-up body as the controller runs it. `param.Version` is both the last synced
      version and the start of the renumbering counter. */
  method GetActionsFromServer(param: ActionInfo, fetched: Option<seq<ActionInfo>>, transform: Transform)
    returns (reply: CatchUpReply)
    ensures reply == CatchUpSpec(param.version, fetched, transform)
  {
    if fetched.None? {
      return EmptyObject;
    }
    var lastSyncedVersion := param.version;
    var actions := RenumberFrom(fetched.value, param.version);
    actions := KeepNewer(actions, lastSyncedVersion);
    var transformed := TransformUntransformed(actions, transform);
    if transformed.None? {
      return EmptyObject;
    }
    reply := ActionList(transformed.value);
  }

  /** A successful catch-up returns, in the fetched order, one action for each fetched
      operation numbered before the 32-bit counter wraps (all of them when it does not
      wrap): an already transformed one as fetched but numbered `clientVersion + i + 1`,
      any other as the engine rewrote it. With an engine that keeps versions, the i-th
      action has version `clientVersion + i + 1`: strictly increasing, no gaps.
      (`clientVersion` is a C# `int` and a list holds at most `Int32Max` entries.) */
  lemma CatchUpNumbering(clientVersion: int, ops: seq<ActionInfo>, transform: Transform)
    requires IsInt32(clientVersion) && |ops| <= Int32Max
    requires CatchUpSpec(clientVersion, Some(ops), transform).ActionList?
    ensures var s := CatchUpSpec(clientVersion, Some(ops), transform).actions;
      var m := BeforeWrap(|ops|, clientVersion);
      && |s| == m
      && (clientVersion + |ops| <= Int32Max ==> |s| == |ops|)
      && (forall i :: 0 <= i < m && ops[i].isTransformed ==>
            s[i] == ops[i].(version := clientVersion + i + 1))
      && (forall i :: 0 <= i < m && !ops[i].isTransformed ==>
            transform(ops[i].(version := clientVersion + i + 1), s[..i] + Renumbered(ops, clientVersion)[i..m]) == Some(s[i]))
      && (KeepsVersion(transform) ==> forall i :: 0 <= i < m ==> s[i].version == clientVersion + i + 1)
  {
    var numbered := Renumbered(ops, clientVersion);
    var m := BeforeWrap(|ops|, clientVersion);
    var newer := numbered[..m];
    NewerOfRenumbered(ops, clientVersion);
    TransformPendingSpec(newer, transform);
    forall i | 0 <= i < m
      ensures newer[i] == ops[i].(version := clientVersion + i + 1)
      ensures newer[i..] == numbered[i..m]
    {
      RenumberedAt(ops, clientVersion, i);
    }
    if KeepsVersion(transform) {
      TransformPendingKeepsVersions(newer, transform);
    }
  }

  /** Catch-up degrades to `{}` exactly when the fetch fails or an engine call on the
      operations numbered before the wrap fails; with a fetched list and an engine that
      never throws it always returns a list. */
  lemma CatchUpFailure(clientVersion: int, fetched: Option<seq<ActionInfo>>, transform: Transform)
    requires IsInt32(clientVersion) && (fetched.Some? ==> |fetched.value| <= Int32Max)
    ensures CatchUpSpec(clientVersion, fetched, transform) == EmptyObject <==>
      fetched.None? ||
      TransformPending(Renumbered(fetched.value, clientVersion)[..BeforeWrap(|fetched.value|, clientVersion)], transform).None?
    ensures fetched.Some? && NeverFails(transform) ==> CatchUpSpec(clientVersion, fetched, transform).ActionList?
  {
    if fetched.Some? {
      NewerOfRenumbered(fetched.value, clientVersion);
      if NeverFails(transform) {
        TransformFromSucceeds(Newer(Renumbered(fetched.value, clientVersion), clientVersion), 0, transform);
      }
    }
  }

  /** At the top of the `int` range the counter wraps: a client at version `Int32Max - 1`
      with two stored, transformed operations receives only the first, as version
      `Int32Max`; the second is numbered `Int32Min` and the `> lastSyncedVersion` filter
      drops it. */
  lemma CatchUpAtInt32Limit(a: ActionInfo, b: ActionInfo, transform: Transform)
    requires a.isTransformed && b.isTransformed
    ensures Renumbered([a, b], Int32Max - 1)[1].version == Int32Min
    ensures CatchUpSpec(Int32Max - 1, Some([a, b]), transform) == ActionList([a.(version := Int32Max)])
  {
    var numbered := Renumbered([a, b], Int32Max - 1);
    RenumberedAt([a, b], Int32Max - 1, 0);
    RenumberedAt([a, b], Int32Max - 1, 1);
    assert numbered == [a.(version := Int32Max), b.(version := Int32Min)];
    assert Newer(numbered, Int32Max - 1) == [a.(version := Int32Max)];
    AllTransformedUntouched([a.(version := Int32Max)], 0, transform);
  }

  /** A client offline since version 0 asks for what it missed; the store holds one
      transformed operation; the client gets exactly that operation as version 1. */
  lemma CatchUpOneMissed(param: ActionInfo, op: ActionInfo, transform: Transform)
    requires param.version == 0 && op.isTransformed
    ensures CatchUpSpec(param.version, Some([op]), transform) == ActionList([op.(version := 1)])
  {
    RenumberedAt([op], 0, 0);
    assert Renumbered([op], 0) == [op.(version := 1)];
    var numbered := [op.(version := 1)];
    assert Newer(numbered, 0) == numbered;
    AllTransformedUntouched(numbered, 0, transform);
  }

  // ---------------------------------------------------------------- pending operations

  /** `GetPendingOperations`: the side-list batch followed by the active log, each kept in
      order (two `AddRange` calls). */
  method GetPendingOperations(processing: seq<ActionInfo>, list: seq<ActionInfo>) returns (r: seq<ActionInfo>)
    ensures |r| == |processing| + |list|
    ensures forall i :: 0 <= i < |processing| ==> r[i] == processing[i]
    ensures forall i :: 0 <= i < |list| ==> r[|processing| + i] == list[i]
  {
    r := [];
    for i := 0 to |processing|
      invariant r == processing[..i]
    {
      r := r + [processing[i]];
    }
    for i := 0 to |list|
      invariant |r| == |processing| + i
      invariant forall k :: 0 <= k < |processing| ==> r[k] == processing[k]
      invariant forall k :: 0 <= k < i ==> r[|processing| + k] == list[k]
    {
      r := r + [list[i]];
    }
  }

  // ---------------------------------------------------------------- documents

  /** `GetFormatType`: the format for a file extension, ignoring case; an empty or unknown
      extension is refused. */
  function GetFormatType(format: string): (r: Result<FormatType>)
    ensures r.Failure? ==> r.message == NotSupportedMessage
  {
    if format == "" then Failure(NotSupportedMessage)
    else
      var f := Lower(format);
      if f == ".dotx" || f == ".docx" || f == ".docm" || f == ".dotm" then Success(Docx)
      else if f == ".dot" || f == ".doc" then Success(Doc)
      else if f == ".rtf" then Success(Rtf)
      else if f == ".txt" then Success(Txt)
      else if f == ".xml" then Success(WordML)
      else if f == ".html" then Success(Html)
      else Failure(NotSupportedMessage)
  }

  /** The extension table the editor supports, keyed by lower-case extension. */
  const FormatTable: map<string, FormatType> := map[
    ".dotx" := Docx, ".docx" := Docx, ".docm" := Docx, ".dotm" := Docx,
    ".dot" := Doc, ".doc" := Doc,
    ".rtf" := Rtf, ".txt" := Txt, ".xml" := WordML, ".html" := Html]

  /** `GetFormatType` is the table lookup of the lower-cased extension, refusing
      everything outside the table (the empty string among them). */
  lemma GetFormatTypeIsTable(format: string)
    ensures GetFormatType(format) ==
      if Lower(format) in FormatTable then Success(FormatTable[Lower(format)]) else Failure(NotSupportedMessage)
  {
    if format == "" {
      assert Lower(format) == "";
    }
  }

  /** Case does not matter: two extensions equal up to ASCII case give the same answer. */
  lemma GetFormatTypeIgnoresCase(a: string, b: string)
    requires Lower(a) == Lower(b)
    ensures GetFormatType(a) == GetFormatType(b)
  {
    GetFormatTypeIsTable(a);
    GetFormatTypeIsTable(b);
  }

  /** The extension rule: from the last `.` on, when there is one that is not the final
      character; `.docx` otherwise. It always starts with `.`, is at least two characters
      long and has no other `.`; when not the default, it is a suffix of the name. */
  function ExtensionOf(documentName: string): (ext: string)
    ensures |ext| >= 2 && ext[0] == '.' && Free(ext[1..], '.')
    ensures ext == ".docx" || (|ext| <= |documentName| && ext == documentName[|documentName| - |ext|..])
  {
    var index := LastIndexOf(documentName, '.');
    if index > -1 && index < |documentName| - 1 then documentName[index..] else ".docx"
  }

  /** A name made of a stem and an extension (a `.` and at least one further character,
      no other `.`) has that extension, whatever the stem holds. */
  lemma ExtensionOfNamed(stem: string, ext: string)
    requires |ext| >= 2 && ext[0] == '.' && Free(ext[1..], '.')
    ensures ExtensionOf(stem + ext) == ext
  {
    var name := stem + ext;
    var index := LastIndexOf(name, '.');
    assert name[|stem|] == '.';
    assert index == |stem| by {
      forall j | |stem| < j < |name| ensures name[j] != '.' {
        assert name[j] == ext[1..][j - |stem| - 1];
      }
    }
    assert name[index..] == ext;
  }

  /** A name without `.`, or whose only `.`-suffix is a final `.`, is read as `.docx`. */
  lemma ExtensionOfDefault(documentName: string)
    requires Free(documentName, '.') || EndsWith(documentName, '.')
    ensures ExtensionOf(documentName) == ".docx"
  {
  }

  /** The blob of a document: the root folder, a `/`, then the name. */
  function GenerateDocumentBlobPath(documentName: string): (path: string)
    ensures |path| == |RootFolderName| + 1 + |documentName|
    ensures path[..|RootFolderName| + 1] == RootFolderName + "/"
    ensures path[|RootFolderName| + 1..] == documentName
  {
    RootFolderName + "/" + documentName
  }

  /** Distinct documents have distinct blobs. */
  lemma BlobPathInjective(a: string, b: string)
    requires GenerateDocumentBlobPath(a) == GenerateDocumentBlobPath(b)
    ensures a == b
  {
    assert a == GenerateDocumentBlobPath(a)[|RootFolderName| + 1..];
  }

  /** `GetSourceDocumentFromAzureAsync`: download the document's blob, pick the format from
      its extension, load it. `download` and `load` stand for blob storage and the editor
      library; `None` from them means they threw. An unsupported format throws too. */
  function SourceDocument<B, D>(documentName: string, download: string -> Option<B>,
                                load: (B, FormatType) -> Option<D>): Option<D>
  {
    match download(GenerateDocumentBlobPath(documentName))
    case None => None
    case Some(blob) =>
      match GetFormatType(ExtensionOf(documentName))
      case Failure(_) => None
      case Success(format) => load(blob, format)
  }

  /** A document whose name has an unsupported extension is never loaded. */
  lemma UnsupportedDocumentNotLoaded<B, D>(documentName: string, download: string -> Option<B>,
                                          load: (B, FormatType) -> Option<D>)
    requires Lower(ExtensionOf(documentName)) !in FormatTable
    ensures SourceDocument(documentName, download, load).None?
  {
    GetFormatTypeIsTable(ExtensionOf(documentName));
  }

  /** `ImportFile`: load the document, fetch the room's pending operations (`pending` holds
      the two lists the pending-operations script returned, `None` if it threw), apply them
      only when there are any (`updateActions` stands for the editor library; `None` means
      it threw), and answer version 0. Any failure answers null (`None`). */
  method ImportFile<B, D>(fileName: string, documentOwner: string,
                          download: string -> Option<B>, load: (B, FormatType) -> Option<D>,
                          pending: Option<(seq<ActionInfo>, seq<ActionInfo>)>,
                          updateActions: (D, seq<ActionInfo>) -> Option<D>)
    returns (r: Option<DocumentContent<D>>)
    ensures r.Some? <==>
      && SourceDocument(fileName, download, load).Some? && pending.Some?
      && (|pending.value.0| + |pending.value.1| > 0 ==>
            updateActions(SourceDocument(fileName, download, load).value, pending.value.0 + pending.value.1).Some?)
    ensures r.Some? ==> r.value.version == 0
    ensures r.Some? ==>
      var document := SourceDocument(fileName, download, load).value;
      var actions := pending.value.0 + pending.value.1;
      r.value.document == if |actions| > 0 then updateActions(document, actions).value else document
  {
    var loaded := SourceDocument(fileName, download, load);
    r := ImportLoaded(loaded, pending, updateActions);
  }

  /** The part of `ImportFile` after the document is loaded (`None` when loading threw). */
  method ImportLoaded<D>(loaded: Option<D>, pending: Option<(seq<ActionInfo>, seq<ActionInfo>)>,
                         updateActions: (D, seq<ActionInfo>) -> Option<D>)
    returns (r: Option<DocumentContent<D>>)
    ensures r.Some? <==>
      && loaded.Some? && pending.Some?
      && (|pending.value.0| + |pending.value.1| > 0 ==> updateActions(loaded.value, pending.value.0 + pending.value.1).Some?)
    ensures r.Some? ==> r.value.version == 0
    ensures r.Some? ==>
      var actions := pending.value.0 + pending.value.1;
      r.value.document == if |actions| > 0 then updateActions(loaded.value, actions).value else loaded.value
  {
    if loaded.None? || pending.None? {
      return None;
    }
    var document := loaded.value;
    var actions := GetPendingOperations(pending.value.0, pending.value.1);
    assert actions == pending.value.0 + pending.value.1;
    if |actions| > 0 {
      var updated := updateActions(document, actions);
      if updated.None? {
        return None;
      }
      document := updated.value;
    }
    r := Some(DocumentContent(0, document));
  }
}
