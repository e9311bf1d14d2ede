# Collaborative Word editing: a Dafny model

This project models the sequential logic of a collaborative Word-editing sample. Three parts take part:

- an ASP.NET Core server keeps each room's edit operations in a Redis version store;
- a hosted background service drains a queue of save work items;
- Angular clients show who else is editing.

The scripts that run atomically inside Redis, the vendor's transform engine, SignalR, Azure Blob storage and the DOM sit around that logic. They are inputs or parameters here.

The model has these modules:

- **Actions**: edit operations (`ActionInfo`) and save work items (`SaveInfo`).
  - The renumbering pass runs `op.Version = ++counter` over a list of operations.
  - The transform pass hands every operation not yet transformed to the engine, together with the list as it then stands.
  - The transform engine is a function parameter. It returns `None` when it throws.
- **CollaborativeEditing**: the controller.
  - *Ingest*: what `AddOperationsToCache` does with the insert script's result.
  - *Catch-up*: `GetActionsFromServer`.
  - The merge in `GetPendingOperations`, and `ImportFile`.
  - The helpers that pick a document's format and blob path.
- **BackgroundQueue**: the bounded first-in first-out channel of save work items.
- **BackgroundService**:
  - the worker loop;
  - the eviction of a room's keys from the store, modelled as a map;
  - the fold of a batch of operations into the source document.
- **AzureStorage**:
  - the container paths the storage service registers;
  - the normalisation of a file-manager request's paths;
  - the dispatch of its action to the file provider.
- **Roster**: the presence roster that both client title bars keep.
  - A map from connection id to avatar, and the avatar list in display order.
  - The initials rule, and which entries of an `addUser` batch join.
- **EditorTitleBar** and **CollabTitleBar**: the two client copies of the title bar, as classes over the roster.
- **ClientData**: the client's `DataService`.
- **Text** and **Wrappers**, which support the others.
  - Text holds the .NET and JavaScript string operations the code relies on: `Replace`, `TrimEnd`, `Contains`, ASCII `ToLower`, `LastIndexOf` and `split`.
  - Wrappers holds `Option` and `Result`.

Each method that runs a loop is proved equal to a specification function. The properties the code promises are lemmas about those functions. State that changes in place is a class: the queue, the store, the title bars, the data service and the request object. Each class states its whole new state in `ensures`.

## Model

| member | source | states |
|---|---|---|
| Actions.RenumberedAt | Server-side/Controllers/CollaborativeEditingController.cs:164 | after renumbering from a counter `from`, the i-th operation is the i-th input with version `from + i + 1` on the 32-bit counter (wrapping past `Int32Max` to `Int32Min`) and every other field kept |
| Actions.Wrap32 | Server-side/Controllers/CollaborativeEditingController.cs:125 | the C# `int` wrap: the result is always an `int`, an `int` is left alone, and one past the top comes out `2^32` lower |
| Actions.WrapIncrement | Server-side/Controllers/CollaborativeEditingController.cs:125 | incrementing the wrapped counter is wrapping the unbounded count, so `++clientVersion` repeated i times from an `int` gives `Wrap32(clientVersion + i)` |
| Actions.RenumberedIsGapless | Server-side/Controllers/CollaborativeEditingController.cs:115-125 | renumbered versions are `Wrap32(from + 1), Wrap32(from + 2), …` with only the version changed; when the counter does not pass `Int32Max` they are exactly `from + 1, from + 2, …`, strictly increasing |
| Actions.Newer | Server-side/Controllers/CollaborativeEditingController.cs:128 | the filter keeps at most the input's operations, each with version above the bound |
| Actions.NewerPrefix | Server-side/Controllers/CollaborativeEditingController.cs:128 | when the first m versions lie above the bound and the rest do not, the filter returns exactly the first m |
| Actions.NewerAppend | Server-side/Controllers/CollaborativeEditingController.cs:127-128 | filtering a list with one more operation at the end appends that operation exactly when its version lies above the bound |
| Actions.NewerOfRenumbered | Server-side/Controllers/CollaborativeEditingController.cs:125-128 | numbering from `v + 1` on the 32-bit counter and filtering `> v` keeps exactly the operations numbered before the wrap, in order; all of them when `v + n` stays within `int` |
| Actions.TransformFromSpec | Server-side/Controllers/CollaborativeEditingController.cs:131-132 | the pass from index i leaves earlier entries alone and transformed ones unchanged; entry k not yet transformed becomes what the engine returns for it, given the list with entries before k already rewritten |
| Actions.TransformPendingSpec | Server-side/Controllers/CollaborativeEditingController.cs:172 | only operations not yet transformed go to the engine, in index order, each with the whole list; the others come out unchanged and the length is kept |
| Actions.AllTransformedUntouched | Server-side/Controllers/CollaborativeEditingController.cs:131-132 | when every operation is already transformed the engine is never called and the list is returned as it is |
| Actions.TransformFromSucceeds | Server-side/Controllers/CollaborativeEditingController.cs:131-132 | the pass fails only through a failing engine call; an engine that never throws always yields a list |
| Actions.TransformPendingKeepsVersions | Server-side/Controllers/CollaborativeEditingController.cs:131-132 | with an engine that keeps versions, the pass keeps every version |
| Actions.RenumberFrom | Server-side/Controllers/CollaborativeEditingController.cs:125 | the `ForEach(++clientVersion)` loop, with its counter wrapping as a 32-bit `int`, computes the renumbered list |
| Actions.KeepNewer | Server-side/Controllers/CollaborativeEditingController.cs:127-128 | the `Where(...).ToList()` loop, scanning forward, computes the filtered list |
| Actions.TransformUntransformed | Server-side/Services/BackgroundService.cs:109-115 | the loop that passes each operation not yet transformed to the engine, stopping at the first failure, computes the transform pass |
| CollaborativeEditing.AddOperationsToCache | Server-side/Controllers/CollaborativeEditingController.cs:145-202 | ingest's parse, loops and branches compute the ingest specification: failure when the script's version is not an `int` or the engine throws, otherwise the adopted and stamped action, the wrapped record index, and the save work item |
| CollaborativeEditing.IngestStampsAction | Server-side/Controllers/CollaborativeEditingController.cs:159-178 | on every successful path the script's version is an `int`, the returned action carries it and `IsTransformed`, and the record update gets index `version - 1`, which wraps to `Int32Max` only for `Int32Min` |
| CollaborativeEditing.IngestKeepsSubmitted | Server-side/Controllers/CollaborativeEditingController.cs:159-176 | with at most one previous operation, ingest succeeds exactly when the script's version parses as an `int`, and then returns the submitted action with only version and flag stamped |
| CollaborativeEditing.IngestAdoptsLast | Server-side/Controllers/CollaborativeEditingController.cs:164-176 | with more than one previous operation, the returned action is the last one, renumbered to `clientVersion + n` on the 32-bit counter; if it was not yet transformed, it is what the engine returned for it given the list whose earlier entries it had already rewritten; it is stamped with the script's version either way |
| CollaborativeEditing.IngestFailsOnlyInTransform | Server-side/Controllers/CollaborativeEditingController.cs:159-173 | ingest fails exactly when the script's version is out of `int` range, or there are several previous operations and an engine call throws; with a valid version an engine that never throws makes ingest succeed |
| CollaborativeEditing.IngestSaveItem | Server-side/Controllers/CollaborativeEditingController.cs:181-198 | a work item exists exactly when the script returned a cleared batch; it is a partial save of that batch, in its order, for the returned action's room |
| CollaborativeEditing.IngestSaveItemRoom | Server-side/Controllers/CollaborativeEditingController.cs:191-196 | when the logged operations belong to the submitter's room and the engine keeps rooms, the work item names the submitter's room |
| CollaborativeEditing.ConcurrentSubmissions | Server-side/Controllers/CollaborativeEditingController.cs:159-176 | two submissions against version 5: the second comes back as version 7, rewritten against the renumbered list of both, with record index 6 and no work item |
| CollaborativeEditing.GetActionsFromServer | Server-side/Controllers/CollaborativeEditingController.cs:108-141 | the catch-up body (renumber on the 32-bit counter, filter, transform, `{}` on failure) computes the catch-up specification |
| CollaborativeEditing.CatchUpNumbering | Server-side/Controllers/CollaborativeEditingController.cs:115-132 | a successful catch-up returns one action for each fetched operation numbered before the 32-bit counter wraps, in order, and for all of them when it does not wrap. Transformed ones come back as fetched, numbered `clientVersion + i + 1`; the others as the engine rewrote them in their list context. With a version-keeping engine the versions are gapless and increasing |
| CollaborativeEditing.CatchUpFailure | Server-side/Controllers/CollaborativeEditingController.cs:115-141 | the reply is `{}` exactly when the fetch fails or an engine call on the operations numbered before the wrap throws; with a fetched list and an engine that never throws, it is a list |
| CollaborativeEditing.CatchUpOneMissed | Server-side/Controllers/CollaborativeEditingController.cs:113-135 | a client at version 0 with one stored, transformed operation receives exactly that operation, as version 1 |
| CollaborativeEditing.CatchUpAtInt32Limit | Server-side/Controllers/CollaborativeEditingController.cs:115-135 | a client at `Int32Max - 1` with two stored, transformed operations receives only the first, as `Int32Max`; the second wraps to `Int32Min` and is filtered out |
| CollaborativeEditing.GetPendingOperations | Server-side/Controllers/CollaborativeEditingController.cs:253-271 | the result is the side-list batch followed by the active log, both in order; the length is the sum |
| CollaborativeEditing.GetFormatType | Server-side/Controllers/CollaborativeEditingController.cs:300-325 | every refusal carries the not-supported message |
| CollaborativeEditing.GetFormatTypeIsTable | Server-side/Controllers/CollaborativeEditingController.cs:302-324 | the format is the ten-entry extension table looked up by the lower-cased extension; an empty or unlisted extension is refused |
| CollaborativeEditing.GetFormatTypeIgnoresCase | Server-side/Controllers/CollaborativeEditingController.cs:304 | two extensions equal up to ASCII case get the same answer |
| CollaborativeEditing.ExtensionOf | Server-side/Controllers/CollaborativeEditingController.cs:289-290 | the extension starts with `.`, has at least one more character and no other `.`; it is `.docx` or a suffix of the name |
| CollaborativeEditing.ExtensionOfNamed | Server-side/Controllers/CollaborativeEditingController.cs:289-290 | a stem followed by a proper extension yields that extension, whatever the stem holds |
| CollaborativeEditing.ExtensionOfDefault | Server-side/Controllers/CollaborativeEditingController.cs:290 | a name without `.`, or ending in `.`, is read as `.docx` |
| CollaborativeEditing.GenerateDocumentBlobPath | Server-side/Controllers/CollaborativeEditingController.cs:332 | the blob path is `Files/` followed by the document name |
| CollaborativeEditing.BlobPathInjective | Server-side/Controllers/CollaborativeEditingController.cs:332 | distinct documents get distinct blob paths |
| CollaborativeEditing.UnsupportedDocumentNotLoaded | Server-side/Controllers/CollaborativeEditingController.cs:289-293 | a document whose extension is not in the table is never loaded |
| CollaborativeEditing.ImportFile | Server-side/Controllers/CollaborativeEditingController.cs:60-89 | the reply exists exactly when loading and the pending fetch succeed and, if there are pending operations, applying them does not throw; it has version 0; pending operations are applied only when there are any |
| CollaborativeEditing.ImportLoaded | Server-side/Controllers/CollaborativeEditingController.cs:68-89 | once the document is loaded: null exactly when it failed to load, the pending fetch threw, or applying the pending operations threw; otherwise version 0 and the document with the pending operations applied only when there are any |
| BackgroundQueue.BackgroundTaskQueue.constructor | Server-side/Services/BackgroundServiceQueue.cs:18-30 | a new channel is empty and has the given capacity |
| BackgroundQueue.BackgroundTaskQueue.QueueBackgroundWorkItem | Server-side/Services/BackgroundServiceQueue.cs:33-41 | a null item is refused with `workItem` named and the queue unchanged; with room the item is appended at the tail; a full queue waits, with nothing dropped or overwritten; the capacity is never exceeded |
| BackgroundQueue.BackgroundTaskQueue.Dequeue | Server-side/Services/BackgroundServiceQueue.cs:44-49 | the head is removed and returned and the rest kept in order; an empty queue waits |
| BackgroundQueue.FirstInFirstOut | Server-side/Services/BackgroundServiceQueue.cs:40-46 | two items come out in the order they went in, then the queue is empty |
| BackgroundQueue.FullQueueWaits | Server-side/Services/BackgroundServiceQueue.cs:25-40 | on a queue of capacity one, a null item is refused; a second item waits; only the first comes out |
| BackgroundService.RedisStore.KeyDelete | Server-side/Services/BackgroundService.cs:56 | the key is gone; nothing else changes |
| BackgroundService.ClearRecordsFromRedisCache | Server-side/Services/BackgroundService.cs:50-62 | the store loses exactly the keys the work item evicts: the side-list for a partial save, all four room keys for a full one |
| BackgroundService.EvictionStaysInRoom | Server-side/Services/BackgroundService.cs:56-61 | a key not derived from the room name is never evicted |
| BackgroundService.PartialSaveKeepsRoomState | Server-side/Services/BackgroundService.cs:54-61 | a partial save removes only the side-list key; every other key keeps its value, the room's log, revision and version keys among them |
| BackgroundService.FullSaveEvictsRoom | Server-side/Services/BackgroundService.cs:54-61 | a full save removes the room key and its revision, version and side-list keys, and keeps every key not derived from the room |
| BackgroundService.EvictAllSpec | Server-side/Services/BackgroundService.cs:33-40 | after a run of work items a key survives, with its value, exactly when no item evicted it; a key derived from none of the rooms survives |
| BackgroundService.BackgroundProcessing | Server-side/Services/BackgroundService.cs:31-47 | items are processed one at a time in dequeue order; the processed items are the queue's prefix. The store is the eviction of them in order. A failing item ends the loop with the wrapped message and is not retried. The loop ends on cancellation or on an empty queue |
| BackgroundService.ApplyAllAppend | Server-side/Services/BackgroundService.cs:117-121 | applying a list in two parts is applying the second part to the result of the first, unless the first already failed |
| BackgroundService.ApplyAllPrefix | Server-side/Services/BackgroundService.cs:117-121 | once an `UpdateAction` throws the whole fold fails: a successful fold succeeded on every prefix |
| BackgroundService.ApplyOperations | Server-side/Services/BackgroundService.cs:106-128 | the two loops compute the fold specification: nothing saved for a null or empty list; otherwise transform, then apply in index order, stopping with a fault at the first throwing update, then save |
| BackgroundService.ApplyOperationsToSourceDocument | Server-side/Services/BackgroundService.cs:100-133 | the fold loads the fixed source document and then behaves as the fold specification on it |
| BackgroundService.ApplyOperationsSaves | Server-side/Services/BackgroundService.cs:107-128 | nothing is saved for a null or empty list. A list already transformed is applied as given. For a non-empty list the fold faults exactly when the engine or some update throws. A saved document is the loaded one with every transformed action applied in index order, every update succeeding, the last applied last |
| AzureStorage.FixBasePath | Server-side/Services/AzureDocumentStorageService.cs:64 | the base path ends in exactly one `/`; everything before it is a prefix of the input |
| AzureStorage.FixFilePath | Server-side/Services/AzureDocumentStorageService.cs:66 | the file path does not end in `/` and is a prefix of the input; an input not ending in `/` is unchanged |
| AzureStorage.OriginalPath | Server-side/Services/AzureDocumentStorageService.cs:123-124 | removing the container URL from the root-folder URL leaves `Files` |
| AzureStorage.DispatchMatchesActionName | Server-side/Services/AzureDocumentStorageService.cs:94-104 | a provider call is made exactly for `read`, `delete`, `details`, `search` and `copy`; it is the call that name stands for, on the given paths; any other action, null included, gives null |
| AzureStorage.ActionNameDispatches | Server-side/Services/AzureDocumentStorageService.cs:94-104 | every provider call is reached by its own action name |
| AzureStorage.NormalizedPath | Server-side/Services/AzureDocumentStorageService.cs:126-128 | the normalised path names the root folder; a path without it is the root folder followed by the collapsed path |
| AzureStorage.NormalizedTargetPath | Server-side/Services/AzureDocumentStorageService.cs:130 | the normalised target is always the root folder followed by the collapsed target; a null target reads as empty |
| AzureStorage.NormalizedPathWithRoot | Server-side/Services/AzureDocumentStorageService.cs:126-127 | a path that already holds the root folder only has `//` collapsed |
| AzureStorage.AzureDocumentStorageService.constructor | Server-side/Services/AzureDocumentStorageService.cs:57-66 | the registered paths are the container and root-folder URLs with `../` removed, then the base-path and file-path fixes applied |
| AzureStorage.AzureDocumentStorageService.NormalizeDocumentPaths | Server-side/Services/AzureDocumentStorageService.cs:118-131 | a null or empty path leaves path and target unchanged; otherwise both are rewritten to the normalised forms |
| AzureStorage.AzureDocumentStorageService.ManageDocument | Server-side/Services/AzureDocumentStorageService.cs:87-104 | the request is normalised first; the provider call is then the dispatch of the action on the normalised paths |
| AzureStorage.ContainerPathEnds | Server-side/Services/AzureDocumentStorageService.cs:63-66 | for every container name, the base path ends in exactly one `/` and the file path does not end in `/` |
| AzureStorage.NormalizedPathsNameRoot | Server-side/Services/AzureDocumentStorageService.cs:123-130 | every normalised non-empty path and every normalised target names the root folder |
| Text.TrimEnd | Server-side/Services/AzureDocumentStorageService.cs:64-66 | the result is a prefix of the input, only characters of the set were dropped, and it does not end in one |
| Text.Lower | Server-side/Controllers/CollaborativeEditingController.cs:304 | lower-casing keeps the length and maps each character on its own |
| Text.LastIndexOf | Server-side/Controllers/CollaborativeEditingController.cs:289 | the index is -1 or the position of the character, and no later position holds it |
| Text.SplitJoin | Client-side/src/app/document-editor/title-bar.ts:221 | splitting gives pieces free of the separator, and joining them back gives the input |
| Text.ReplaceLeading | Server-side/Services/AzureDocumentStorageService.cs:124 | removing a leading copy of `x` from `x + s` leaves `s` |
| Text.CollapseKeepsSlashFreePrefix | Server-side/Services/AzureDocumentStorageService.cs:128-130 | collapsing `//` after a prefix without `/` keeps the prefix |
| Text.CollapseKeepsContainedWord | Server-side/Services/AzureDocumentStorageService.cs:126-127 | collapsing `//` keeps a contained word that has no `/` |
| Roster.Avatar.constructor | Client-side/src/app/document-editor/title-bar.ts:188-193 | an avatar shows the given initials and carries the user name as its title |
| Roster.WordStarts | Client-side/src/app/document-editor/title-bar.ts:220-229 | the word-start scan is no longer than the name and has no spaces; it starts with the name's first character when that starts a word |
| Roster.InitialsAreWordStarts | Client-side/src/app/document-editor/title-bar.ts:220-229 | the split-based initials equal the scan that keeps every character starting a word |
| Roster.InitialsShape | Client-side/src/app/document-editor/title-bar.ts:220-229 | initials are no longer than the name and contain no spaces; they start with the first character when it is not a space; an empty name gives `""` |
| Roster.TwoWordInitials | Client-side/src/app/document-editor/title-bar.ts:218-228 | two space-free words joined by one space give their two first characters |
| Roster.JohnDoe | Client-side/src/app/document-editor/title-bar.ts:218 | `"John Doe"` gives `"JD"` |
| Roster.ConstructInitial | Client-side/src/app/document-editor/title-bar.ts:220-229 | the loop computes the initials |
| Roster.NewcomerIds | Client-side/src/app/document-editor/title-bar.ts:184-199 | an id is among the newcomers' ids exactly when some newcomer carries it |
| Roster.SkipIffNotNewcomer | Client-side/src/app/document-editor/title-bar.ts:184-186 | the last entry of a batch is skipped exactly when it is not a newcomer |
| Roster.AcceptedAreNewcomers | Client-side/src/app/document-editor/title-bar.ts:178-200 | the entries that get an avatar are exactly the newcomers, in batch order. A newcomer has an unknown id, is not the author, and no earlier entry of the batch has the same id and a non-author user |
| Roster.AcceptedIdsAreFresh | Client-side/src/app/document-editor/title-bar.ts:184-199 | the joining ids were not in the map before and are pairwise distinct; no joiner is the author; afterwards every non-author entry's id is in the map |
| Roster.RosterAdd | Client-side/src/app/document-editor/title-bar.ts:195-199 | adding a new id with a new avatar at the end keeps the map and list in step |
| Roster.RosterRemove | Client-side/src/app/document-editor/title-bar.ts:207-214 | cutting out one id and its avatar keeps the map and list in step and removes exactly that key |
| Roster.WithoutDistinct | Client-side/src/app/document-editor/title-bar.ts:210 | in a list without repeats, removing an avatar cuts it out at its position |
| Roster.DefaultTitle | Client-side/src/app/document-editor/title-bar.ts:146-149 | the title is never empty: a non-empty name is kept and an empty one becomes `Untitled` |
| Roster.AcceptedStep | Client-side/src/app/document-editor/title-bar.ts:184-199 | one more entry is accepted exactly when its id is neither known nor accepted so far and its user is not the author |
| Roster.SkipStep | Client-side/src/app/document-editor/title-bar.ts:184-186 | a skipped entry leaves the accepted list as it was |
| Roster.AddStep | Client-side/src/app/document-editor/title-bar.ts:188-199 | an added entry extends the accepted list by itself; with its avatar, the roster still extends the old one in order |
| Roster.EntryStep | Client-side/src/app/document-editor/title-bar.ts:178-200 | one pass of the loop, skip or add, extends what `addUser` has done by that entry |
| EditorTitleBar.TitleBar.constructor | Client-side/src/app/document-editor/title-bar.ts:60-67 | the back icon is shown exactly when the data service says the author opened the document; the roster starts empty |
| EditorTitleBar.TitleBar.UpdateDocumentTitle | Client-side/src/app/document-editor/title-bar.ts:146-153 | an empty document name becomes `Untitled` and a non-empty one is kept; the label shows `Collaborative Editing` |
| EditorTitleBar.TitleBar.AddUser | Client-side/src/app/document-editor/title-bar.ts:173-201 | a single entry counts as a one-entry list. The accepted entries' ids are appended to the keys in batch order, each with one avatar at the end of the list showing that user's name and initials. Old keys and avatars are kept |
| EditorTitleBar.TitleBar.AddEntry | Client-side/src/app/document-editor/title-bar.ts:179-199 | an entry with a known id or the author's name changes nothing; any other adds one avatar with the user's name and initials at the end of the list, bound to its id |
| EditorTitleBar.TitleBar.RemoveUser | Client-side/src/app/document-editor/title-bar.ts:207-214 | a present id loses its key and its avatar leaves the list; an absent id changes nothing |
| CollabTitleBar.TitleBar.constructor | Client-side/collaborative-editing/src/app/document-editor/title-bar.ts:21-27 | the title bar keeps its data service and starts with an empty roster |
| CollabTitleBar.TitleBar.UpdateDocumentTitle | Client-side/collaborative-editing/src/app/document-editor/title-bar.ts:61-68 | an empty document name becomes `Untitled` and a non-empty one is kept; the label shows `Collaborative Editing` |
| CollabTitleBar.TitleBar.AddUser | Client-side/collaborative-editing/src/app/document-editor/title-bar.ts:78-100 | as in the editor copy: the accepted entries join in batch order, each with one avatar and one key, and old ones are kept |
| CollabTitleBar.TitleBar.AddEntry | Client-side/collaborative-editing/src/app/document-editor/title-bar.ts:84-98 | a known id or the author's name changes nothing; otherwise one avatar is appended and bound to the id |
| CollabTitleBar.TitleBar.RemoveUser | Client-side/collaborative-editing/src/app/document-editor/title-bar.ts:102-109 | a present id loses its key and its avatar; an absent id changes nothing |
| ClientData.DataService.constructor | Client-side/src/app/data.service.ts:8-9 | the author name starts empty and the flag false |
| ClientData.DataService.SetAuthorName | Client-side/src/app/data.service.ts:12-14 | only the name changes |
| ClientData.DataService.GetAuthorName | Client-side/src/app/data.service.ts:17-19 | returns the current name |
| ClientData.DataService.SetIsAuthorOpened | Client-side/src/app/data.service.ts:22-24 | only the flag changes |
| ClientData.DataService.GetIsAuthorOpened | Client-side/src/app/data.service.ts:27-29 | returns the current flag |
| ClientData.InitialValues | Client-side/src/app/data.service.ts:8-9 | a new service reads back `""` and `false` |
| ClientData.LatestAuthorNameWins | Client-side/src/app/data.service.ts:12-19 | of two name settings the later is read back, and the flag is untouched |
| ClientData.LatestFlagWins | Client-side/src/app/data.service.ts:22-29 | of two flag settings the later is read back, and the name is untouched |

## Left out

- CollaborativeEditingHelper.cs is not part of this model. It holds the Redis Lua scripts and the key suffixes.
  - Their results are inputs: the insert result, the fetched catch-up list, and the two pending lists.
  - The suffixes are a parameter record, `KeySuffixes`.
  - Nothing is claimed about the scripts' atomicity or about version uniqueness.
- The vendor's transform engine, `UpdateActions`, `UpdateAction`, and document load and save are parameters. The engine, the updates and loading return an `Option`, with `None` standing for an exception; saving is taken to succeed.
  - The model assumes the engine rewrites only the operation it is given, not other entries of the list.
- `UpdateAction`'s SignalR broadcast of the ingested action is network transport and is not modelled. Join, leave and reconnect handling is left out for the same reason.
- `UpdateRecordToCache` and `GetEffectivePendingVersion` only send keys and values to scripts. The model keeps just the index `version - 1` sent to the record update.
- Azure blob download, blob client creation, `SaveDocument` file I/O and the file provider's own work are I/O and foreign libraries.
  - The provider call is returned as a value.
  - Downloading and loading are parameters that may fail.
- JSON serialisation is a library concern. Operations are records and the edit payload is an opaque string.
- Concurrency is out: each run is sequential.
  - The enqueue task is discarded in the source; the model treats the enqueue as one step.
  - Cancellation is a count of iterations (`stopAfter`).
  - A blocking write on a full channel or a blocking read on an empty one is an outcome that leaves the queue as it was.
- BackgroundService.BackgroundProcessing: `ClearRecordsFromRedisCache` is `async void` in the source. In .NET its exceptions therefore never reach the loop's `catch`. The model keeps the `catch` as written: a `fails` predicate says which items throw. It decides this before any key is deleted, so a throw after some of the four deletions is not expressed; with `async void` the `catch` is never reached anyway.
- BackgroundQueue.BackgroundTaskQueue.constructor: requires a capacity of at least one, since the channel options refuse anything smaller.
- The worker loop does not call `ApplyOperationsToSourceDocument`, because that call is commented out in the source. The fold is modelled alone.
- C# `int` arithmetic is modelled on unbounded integers, wrapped explicitly by `Actions.Wrap32` where the source can overflow: the `++clientVersion` counters and the record index `version - 1`. `int.Parse` of the script's version fails outside the `int` range. Catch-up lemmas assume what the C# types guarantee: the client's version is an `int` and a list holds at most `Int32Max` entries.
- BackgroundService.ApplyOperationsToSourceDocument: the DocIO conversion, `doc.Save` and the `SaveDocument` file write (BackgroundService.cs:122-128) are assumed to succeed; only a throwing engine or `UpdateAction` makes the fold fault after loading.
- Roster.ConstructInitial (and `Roster.Initials` and `Roster.FirstChar`, which it computes): a Dafny `char` is a whole Unicode scalar value, while JavaScript's `[0]` takes one UTF-16 code unit, so for a name starting outside the Basic Multilingual Plane (such as `𝒜da`) the model gives the whole character where the source gives half a surrogate pair. An undefined `currentUser`, on which `split` throws, is not modelled: user names are strings.
- Text.Lower: `ToLower` is modelled on ASCII letters only; culture-specific case mapping is not.
- The title bars' `userMap` is a JavaScript object. Keys inherited from its prototype, and an undefined `connectionId`, are not modelled; connection ids are strings.
- The DOM, the share dialog, the clipboard and `DataService.selectText` are UI.
  - An avatar is its initials and title.
  - The title label is a string field.
  - The `if (this.userList)` and `if (this.documentTitle)` guards always hold after construction.
- In the second client copy the data service is optional (`dataService?.`). The model always has one.
- A null container name interpolates to the empty string in .NET. The container name is a plain string here.
- The editor's `documentName` is a field of the title bar instead of the shared editor object, so its aliasing with the editor is not modelled.
- EditorTitleBar.TitleBar.AddUser: does not state that each new avatar is a freshly created object, only what it shows and where it sits; stating freshness through the loop was too costly to verify.
- CollabTitleBar.TitleBar.AddUser: the same as the editor copy: freshness of the new avatars is not stated.
- In both title bars the body of the `addUser` loop is the method `AddEntry`, and its `continue` is a `return` from that method.
