# spectre.db: a verified model of the storage core

spectre.db keeps JSON documents under dotted keys such as `user.42.name`. A Rust core stores
them in a flat ordered map with a hash twin that pretends to be one nested tree, logs every
operation, writes snapshots and segments, and keeps secondary indexes. A JavaScript fallback keeps
a real nested tree and a prefix-aware LRU cache. This project models that logic in Dafny and proves
what it is for. `dafny verify dfyconfig.toml` checks everything.

## How it is built

Everything hangs on one abstraction, the *leaf view* (`StoreSpec.View`): which scalar or array the
store shows at each path of segments. Objects are structure only, so empty objects have no leaf.

- `Bytes`, `Paths`, `Json`: byte strings and their order, dotted keys and paths, documents and edits.
- `StoreSpec`, `FlatStore`, `StoreView`: the flat store as a class over a map and its hash twin, the
  functions its methods compute, and the proof that `set`, `delete`, `clear` and `get` act on the leaf
  view path by path, keeping map and hash equal and keys free of dotted ancestors. There every object is a
  branch. `Stored` is what the store does when an object's text looks like an encrypted envelope or is too
  deep for the parser: exactly when that differs, operation by operation. `Plain` shows that within stated
  limits on names and levels it never does, over whole runs.
- `Effects`, `Shadows`: because whether an operation kills a leaf depends only on the operation and the
  path, a log either decides a leaf or keeps it, and replaying a log over its own result changes nothing.
  `Shadows` does the same for stores in which keys lie below others, as they arise while segments load.
- `Recovery`, `RecoveryWitnesses`, `DiskSteps`, `EngineRuns`, `Runs`: the durable steps, what each leaves
  on disk, and recovery after a crash between any two of them, with and without segments.
- `Codec`, `Wal`, `Snapshot`, `JsonSnapshot`, `JsonFiles`: the byte formats and their round trips.
- `JsonText`, `FieldSplitter`: the string escaper and the hand-written field scanner.
- `Enumerate`, `Listing`, `ListingView`, `Paging`: listing, counting, scanning, paging.
- `OrderKeys`, `SecondaryIndices`, `IndexedStores`: order keys, the index, and its agreement with the store.
- `LruCaches`, `NullProto`, `NestedTree`, `Transactions`: the fallback's cache, stored copies and tree, and
  function transactions.

Where the source loops or updates in place, the model has a method or class proved equal to a
function on values, and the theorems are about that function.

## Where code and documentation disagree

The model follows the code; each point is stated as a hypothesis or proved as a theorem.

- Segments are loaded before the base, by raw insertion (`crates/core/src/engine.rs:244-307`), although
  `docs/FORMATS.md:167` gives the opposite order. A segment key may then lie below a key of the base, and a
  replayed delete at or above it removes that key instead of the branch inside the base's document
  (`crates/core/src/store.rs:286-295`). `Recovery.RecoveryDecided` says exactly when recovery is
  right if the log decides what is shadowed; `Recovery.RecoveryExact` assumes only that a key set below an
  uncovered entry is decided again; `Recovery.RecoveryCorrect` gives a guard on log and keys alone, and
  `RecoveryWitnesses.RebuiltBranchLingers` is a disk on which a deleted leaf comes back.
- A full copy made after a read folded a branch is loaded beside the keys it was folded from
  (`crates/core/src/engine.rs:1071-1080`): `RecoveryWitnesses.FoldedCopyLingers` is a disk that this breaks,
  `RecoveryWitnesses.PrunedCopyRecovers` one that it does not.
- A full merge resets the log before it rewrites the manifest (`crates/core/src/engine.rs:919-926`).
  `Recovery.MergeWindowExact` says exactly when a crash there is harmless, and
  `RecoveryWitnesses.MergeWindowResurrects` gives a disk on which a deleted key comes back.
- Reopening does not cut a torn tail off the log before appending to it
  (`crates/core/src/engine.rs:457-482`); `Wal.TornTailHidesLaterFrames` shows the consequence for a tear at
  any byte, so the runs of `Runs` tear the log only at frame boundaries.
- The reopened sequence number adds two absolute numbers (`crates/core/src/engine.rs:328`);
  `Wal.ReopenedLsnExact` says when the sum is right.
- `set` does not tell the indexes about entries it overwrites, nor does a read that folds a branch
  (`crates/core/src/engine.rs:493-575`); `IndexedStores.SetKeepsIndex` and `IndexedStores.GetKeepsIndex` are
  exact about when that matters.
- The ancestor lookup of a listing does not skip raw keys (`crates/core/src/store.rs:369-383`); see
  `Enumerate.AllUnderRawPrefix`. `count` looks at byte prefixes that are not dotted ancestors
  (`crates/core/src/store.rs:344-351`); see `Enumerate.Count`.
- A store that holds the integer 1 under the key `__enc` makes the whole JSON snapshot look like one
  encrypted value, and loading it gives an empty store (`crates/core/src/json_compat.rs:14-44`). Under
  `a.__enc` it makes the branch `a` one entry that the store will not read into
  (`crates/core/src/store.rs:230-234`), and a stored envelope that is not written with the integer 1 is taken
  apart. A key with too many segments makes a document the parser refuses
  (`crates/core/src/json_compat.rs:58-59`), although the length limit for keys allows it.
  `JsonFiles.JsonRoundTrip` has all three conditions.
- A read that folds a branch can make an envelope of it, which hides its leaves, or fold an envelope into it,
  which opens that one (`crates/core/src/store.rs:230-254`); `Stored.GetShows` is exact.
- The fallback drops the fields named `__proto__`, `constructor` and `prototype` from values
  (`fallback/src/utils/json-safe.js:81-88`), which the native engine keeps; and a set below an
  object that looks like an envelope replaces it in the native store (`crates/core/src/store.rs:168-177`) and
  edits it in the fallback. `NestedTree.OneSetAgrees` is exact about both.
- A range query whose lower bound exceeds its upper bound, and a page whose cursor lies past the end of
  its prefix, panic in the ordered map (`crates/core/src/index.rs:166-186`, `crates/core/src/store.rs:408-458`);
  the model states the condition as a precondition.

## Model

| member | source | states |
|---|---|---|
| `Paths.UnderIsProperPrefix` | crates/core/src/store.rs:120-127 | the byte test for a dotted ancestor is the proper-prefix order on split paths, both ways |
| `Paths.RelatedIffComparable` | crates/core/src/store.rs:130-148 | a key equals, lies below or lies above another exactly when their paths are comparable |
| `Paths.SplitJoin` | crates/core/src/store.rs:183-190 | joining dot-free segments and splitting again gives the segments back |
| `Paths.JoinSplit` | crates/core/src/json_compat.rs:88-90 | splitting a key and joining the segments gives the key back |
| `Json.InsertAtLeaf` | crates/core/src/store.rs:183-218 | an edit inside an object document writes the leaves of the value at its path, kills the leaf above it and leaves every other leaf alone |
| `Json.RemoveAtLeaf` | crates/core/src/store.rs:300-329 | a removal inside an object document kills exactly the leaves at or below its path, and a failed removal would have killed none |
| `Json.InsertAtWellFormed` | crates/core/src/store.rs:193-210 | editing a document never repeats a field name |
| `FlatStore.InsertInto` | crates/core/src/store.rs:189-212 | the cursor walk, which replaces every non-object on the way, builds the recursive edit |
| `FlatStore.RemoveFrom` | crates/core/src/store.rs:306-324 | the cursor walk removes the node, and fails exactly when it leaves the objects or finds nothing |
| `FlatStore.Store.AncestorLeaf` | crates/core/src/store.rs:120-127 | the first, shortest stored dotted prefix is found, and none is reported only when there is none |
| `FlatStore.Store.RawInsertAll` | crates/core/src/engine.rs:291-298 | raw insertion of a loaded snapshot overlays its entries and keeps map and hash equal |
| `FlatStore.Store.RemoveWithDescendants` | crates/core/src/store.rs:130-148 | the key and everything below it goes from map and hash, nothing else; both flags say what was there |
| `FlatStore.Store.MutateObjectLeaf` | crates/core/src/store.rs:183-218 | the document at the ancestor is replaced by its edited form and the keys below it go |
| `FlatStore.Store.Set` | crates/core/src/store.rs:168-181 | map and hash stay equal; every leaf at or under the key comes from the value, leaves above the key die, all others stay |
| `FlatStore.Store.Get` | crates/core/src/store.rs:224-254 | the value or collapsed branch is returned, and no leaf of the view changes |
| `FlatStore.Store.Delete` | crates/core/src/store.rs:286-329 | every leaf at or under the key dies and no other; the two flags are exact |
| `FlatStore.Store.Clear` | crates/core/src/store.rs:331-334 | no leaf remains |
| `StoreView.SetConsistent` | crates/core/src/store.rs:168-218 | no key becomes a dotted ancestor of another |
| `StoreView.SetView` | crates/core/src/store.rs:168-218 | for every store and path, set acts on the leaf there by the kill-and-write rule |
| `StoreView.DeleteConsistent` | crates/core/src/store.rs:290-329 | delete keeps the store prefix-free |
| `StoreView.DeleteView` | crates/core/src/store.rs:290-329 | for every store and path, delete acts by the kill rule, and a reported failure changed nothing |
| `StoreView.GetConsistent` | crates/core/src/store.rs:224-254 | a collapsing read keeps the store prefix-free |
| `StoreView.GetView` | crates/core/src/store.rs:224-254 | a read that folds a branch into one entry changes no leaf |
| `StoreView.GetReturnsSubtree` | crates/core/src/store.rs:224-254 | what get returns has exactly the leaves of the view below the key, and nothing is returned only when there are none |
| `StoreView.GetBelowLeaf` | crates/core/src/store.rs:230-245 | below a stored scalar or array, get indexes into that leaf |
| `StoreView.DeleteReportsPresence` | crates/core/src/store.rs:290-329 | delete reports success exactly when get would have found something, unless a scalar or array lies above the key |
| `StoreView.ResolveSucceeds` | crates/core/src/store.rs:256-284 | rebuilding a branch succeeds exactly when something is stored at or below it |
| `StoreView.ResolveLeaves` | crates/core/src/store.rs:256-284 | the rebuilt branch has exactly the leaves the store shows below the path, at every depth |
| `StoreView.RangeIsBelow` | crates/core/src/store.rs:20-27 | the byte range scanned for descendants contains exactly the keys below the path |
| `Plain.TameIsPlain` | crates/core/src/store.rs:33-40 | in a store within the limits the text of an entry is taken for an object exactly when the entry is one, and never for an envelope |
| `Plain.RunIsPlain` | crates/core/src/store.rs:33-40 | after any run of operations that keep to the limits every stored object is plain, so that the model of edits below objects applies |
| `Plain.ReplayTame` | crates/core/src/store.rs:168-329 | sets and deletes within the limits keep a store within them, at every depth |
| `Plain.GetTame` | crates/core/src/store.rs:224-284 | a read that folds a branch keeps a store within the limits |
| `Plain.EnvelopeIsOpaque` | crates/core/src/store.rs:33-40 | outside the limits: an object that starts with the envelope field is not plain, whatever else it holds |
| `Stored.SealedIsNotPlain` | crates/core/src/store.rs:33-40 | an object is sealed exactly when its text fails the store's test for a plain object |
| `Stored.StoredSetExact` | crates/core/src/store.rs:168-181 | for every store: a set edits the map as if all objects were plain if and only if the object above its key is not sealed |
| `Stored.StoredDeleteExact` | crates/core/src/store.rs:290-329 | for every store: a delete does so if and only if no sealed object above its key holds a node it could remove |
| `Stored.StoredGetExact` | crates/core/src/store.rs:224-284 | for every store: a read does so unless a text it needs is an envelope or too deep, and it would have found something |
| `Stored.BlockedSetView` | crates/core/src/store.rs:168-181 | a set below a sealed object drops every leaf of that object and leaves the value's |
| `Stored.GetShows` | crates/core/src/store.rs:224-254 | a read leaves everything as a reader finds it if and only if it folds nothing, or neither the folded object nor an entry it was folded from is sealed |
| `Stored.StoredIsApplied` | crates/core/src/store.rs:168-334 | over any run of operations within the limits, the store with its test for plain objects and the one that edits every object have the same map |
| `Effects.ApplyAllView` | crates/core/src/formats.rs:352-372 | replaying any operation list acts on each path by folding the rules, and keeps the store prefix-free |
| `Effects.LogDecidesOrKeeps` | crates/core/src/formats.rs:352-372 | a log either decides the leaf at a path whatever was there, or keeps it |
| `Effects.ReplayIdempotent` | crates/core/src/engine.rs:976-1014 | replaying a log over its own result changes no leaf |
| `Effects.ReplayOverSnapshot` | crates/core/src/engine.rs:976-1014 | a store that already contains a log shows the same leaves after the log is replayed over it |
| `Shadows.ReplayExact` | crates/core/src/formats.rs:352-372 | replaying a log over any store in which keys lie below others ends prefix-free with what a clean replay shows if and only if no key is left below another and each slip (a missed delete, an uncovered entry) is decided later; assumed is only that a key set below an uncovered entry is decided again |
| `Shadows.ReplayDecided` | crates/core/src/formats.rs:352-372 | if the log decides what is shadowed, the replay ends prefix-free, and is right exactly when each missed delete is decided later |
| `Shadows.SlipStays` | crates/core/src/store.rs:168-181 | a leaf left by a slip, a delete that removes shadowed entries only or a set that uncovers one, is shown in the end unless decided later, and a clean replay does not show it |
| `Shadows.MadeGoodReaches` | crates/core/src/formats.rs:352-372 | a condition on the log and the shadowed keys alone under which no missed delete shows |
| `Recovery.ReloadIdentity` | crates/core/src/formats.rs:148-217 | reading back a prefix-free snapshot through the merging set gives the same flat map |
| `Recovery.LoadView` | crates/core/src/engine.rs:244-307 | where the log is silent, the topmost of the entries loaded from segments and base show exactly the leaves of the base |
| `Recovery.RecoveryExact` | crates/core/src/engine.rs:241-337 | opening a disk that holds a store gives a prefix-free store with exactly that store's leaves if and only if the replay leaves no key below another and decides later whatever slips; assumed is only that a key set below an uncovered entry is decided again |
| `Recovery.RecoveryDecided` | crates/core/src/engine.rs:241-337 | if the log decides what is shadowed, the opened store is prefix-free, and has the right leaves exactly when every missed delete is decided later |
| `Recovery.RecoveryCorrect` | crates/core/src/engine.rs:241-337 | in particular when, for every shadowed key, the first logged operation that decides it is no delete, or all that delete should remove is decided later |
| `Recovery.Unsegmented` | crates/core/src/engine.rs:275-307 | without segments loading gives the base and no delete is missed |
| `Recovery.DeltasNested` | crates/core/src/engine.rs:932-973 | segments of keys the log has touched shadow nothing that the log does not decide |
| `Recovery.FlushHolds` | crates/core/src/engine.rs:871-895 | appending frames moves the disk to holding the later store |
| `Recovery.SnapshotHolds` | crates/core/src/engine.rs:976-998 | after the snapshot rename and before the log reset the disk still holds the same store |
| `Recovery.ResetHolds` | crates/core/src/engine.rs:1016-1039 | the log can be reset once the snapshot is in place and no segment is listed |
| `Recovery.TouchedBringsNothing` | crates/core/src/engine.rs:925-960 | listing a segment of keys the log has touched, whatever its values, keeps the disk holding its store: where the log is silent the loaded entries show the base's leaves and no others |
| `Recovery.LiveHarmless` | crates/core/src/engine.rs:1071-1080 | a copy of the whole live store is harmless as a segment while the log is kept |
| `Recovery.MergeWindowExact` | crates/core/src/engine.rs:919-926 | in the window of a full merge, for any disk, recovery is right and prefix-free exactly when every key the old segments still contribute is in the new snapshot, or is related to no loaded key and has no leaf |
| `RecoveryWitnesses.MergeWindowResurrects` | crates/core/src/engine.rs:919-926 | a key is set, written to a segment and deleted; a crash in that window brings it back |
| `RecoveryWitnesses.RebuiltBranchLingers` | crates/core/src/engine.rs:932-973 | delete a branch inside a stored document, set one key of it, compact, reopen: a leaf of the deleted branch is back |
| `RecoveryWitnesses.FoldedCopyLingers` | crates/core/src/engine.rs:1071-1080 | a full copy taken after a read folded a branch: both keys are loaded, and a delete through one leaves the other |
| `RecoveryWitnesses.PrunedCopyRecovers` | crates/core/src/engine.rs:1071-1080 | the same copy with a set beside the shadowed key in the log: the log does not decide that key, and recovery is right |
| `Runs.RunRecovers` | crates/core/src/engine.rs:976-1039 | after any run of writes, reads, flushes, compaction steps and crashes, recovery shows what replaying all flushed operations over an empty database shows |
| `Runs.StepKeeps` | crates/core/src/engine.rs:871-1039 | every single step, a crash included, keeps base plus log equal to the flushed history |
| `Runs.TornLogRecovers` | crates/core/src/engine.rs:310-336 | opening a log torn at any byte applies exactly the frames wholly before the tear |
| `EngineRuns.Engine.constructor` | crates/core/src/engine.rs:165-337 | any readable disk is opened as segments, base and log say; if it held a store and nothing undecided is shadowed, the engine shows that store exactly when the deletes reach |
| `EngineRuns.Engine.LoadState` | crates/core/src/engine.rs:241-337 | segments in manifest order, then the base by raw insertion, then the log |
| `EngineRuns.Engine.MergeInto` | crates/core/src/engine.rs:259-266 | one segment is merged key by key, a tombstone deleting its key |
| `EngineRuns.Engine.ApplyRecord` | crates/core/src/formats.rs:352-372 | one frame is applied operation by operation |
| `EngineRuns.Engine.Get` | crates/core/src/engine.rs:489-522 | a read logs nothing and changes no leaf; the disk still holds the durable store |
| `EngineRuns.Engine.Set` | crates/core/src/engine.rs:555-575 | set acts by the rule and keeps the engine invariant; unbuffered, the disk holds the new store on return |
| `EngineRuns.Engine.Delete` | crates/core/src/engine.rs:578-597 | delete acts by the rule; a delete that removes nothing is not logged and needs no logging |
| `EngineRuns.Engine.Clear` | crates/core/src/engine.rs:608-618 | no leaf remains and the clear is logged |
| `EngineRuns.Engine.Batch` | crates/core/src/engine.rs:621-687 | a batch is one frame; the leaves are those of applying its operations in order; each flag is a set, or a delete of an exact key |
| `EngineRuns.Engine.Flush` | crates/core/src/engine.rs:871-895 | afterwards the disk holds the live store |
| `EngineRuns.Engine.Compact` | crates/core/src/engine.rs:897-973 | no leaf changes; the durable steps are exactly those of a legacy compaction, a full merge or a delta compaction, and the disk before, between and after them holds the store, except from the log reset to the new manifest of a full merge |
| `EngineRuns.Engine.SnapshotAndReset` | crates/core/src/engine.rs:976-1039 | the two steps are the rename of the new base and the reset of the log, and the disk between them holds the store |
| `EngineRuns.Engine.FullMerge` | crates/core/src/engine.rs:911-930 | the steps are rename, reset, one removal for each listed segment, an empty manifest and a reset; every disk on the way holds the store or is in the merge window, at exactly those positions |
| `EngineRuns.Engine.DeltaCompact` | crates/core/src/engine.rs:932-973 | the segment records what the store shows at each dirty key; the steps are its file and the manifest that lists it, and every disk on the way holds the store and lists delta segments only, if it did before |
| `DiskSteps.DeltaStepsOnly` | crates/core/src/engine.rs:932-973 | while a delta segment is written and listed, every disk lists delta segments only |
| `DiskSteps.CommitStepsOnly` | crates/core/src/engine.rs:1099-1132 | the same while a prepared delta segment is committed, in any generation |
| `EngineRuns.Engine.PrepareCompact` | crates/core/src/engine.rs:1052-1096 | the job is the whole store, or each dirty key with its entry or a tombstone; it joins the jobs whose entries are harmless to the durable log and, for a delta, touched by it; the disk holds the store |
| `EngineRuns.Engine.FinishCompact` | crates/core/src/engine.rs:1099-1132 | a job is stale exactly when another commit overtook it; otherwise the steps are its file, the removals if it is a full copy, and the manifest; every disk on the way holds the durable store, and lists delta segments only if it did before and the job is no full copy |
| `EngineRuns.Engine.CrashRecovers` | crates/core/src/engine.rs:241-337 | any disk that holds the durable store, opened: without listed segments the durable leaves; with delta segments only, or nothing undecided shadowed, a prefix-free store with the durable leaves exactly when the deletes reach; and the equivalence of RecoveryExact for all other disks it covers |
| `Wal.PayloadDecodes` | crates/core/src/formats.rs:302-350 | every payload, batches included, decodes to the frame it was made from |
| `Wal.FrameDecodes` | crates/core/src/formats.rs:394-436 | a frame is recovered with its sequence number whatever follows it |
| `Wal.TornFrame` | crates/core/src/formats.rs:461-476 | no proper prefix of a frame is read |
| `Wal.FramesCut` | crates/core/src/formats.rs:438-513 | cutting a run of frames at any byte keeps exactly the whole ones, so a batch is all or nothing |
| `Wal.LogCut` | crates/core/src/formats.rs:381-513 | the same for a file with its header; an uncut file gives every frame, the header and no warning |
| `Wal.TornHeader` | crates/core/src/formats.rs:438-512 | a file cut inside its header yields no frame |
| `Wal.TornTailHidesLaterFrames` | crates/core/src/engine.rs:457-482 | after whole frames, the first n bytes of a frame and later frames, replay reads the whole frames and then what the rest reads as on its own; unless torn and later bytes happen to make a frame, all later frames are read exactly when n is 0, and otherwise none |
| `Wal.TornLengthHides` | crates/core/src/formats.rs:461-476 | if the tear kept the length field, nothing is read there before the missing bytes have been appended, and then only if the checksum of the mixture agrees |
| `Wal.StrayByteHidesDelete` | crates/core/src/engine.rs:457-482 | for instance one byte of a set before the tear hides a delete appended later, whatever the checksum |
| `Wal.ReopenedLsnExact` | crates/core/src/engine.rs:328-330 | the reopened sequence number never falls behind, and is exact if and only if the base is zero or the log empty |
| `Wal.LogBuffer.Append` | crates/core/src/engine.rs:776-825 | pushing a frame piece by piece appends its encoding under the next sequence number |
| `Wal.LogBuffer.AppendBatch` | crates/core/src/engine.rs:827-858 | writing the length last still yields the encoding of the batch frame |
| `Wal.ReadBatch` | crates/core/src/formats.rs:515-568 | on any bytes the batch decoder stays in bounds and returns the batch or nothing |
| `Wal.ReadFrame` | crates/core/src/formats.rs:461-503 | on any bytes one frame is read in bounds, or rejected |
| `Wal.ReplayFile` | crates/core/src/formats.rs:438-513 | on any bytes with a header replay terminates in bounds with the frames before the first bad one |
| `Codec.ScanCut` | crates/core/src/formats.rs:438-513 | any self-delimiting encoding that rejects torn items survives cutting at item granularity |
| `Codec.ScanThen` | crates/core/src/formats.rs:438-513 | what follows a run of items is read as it would be on its own |
| `Codec.WithinMeaning` | crates/core/src/formats.rs:438-513 | the items counted as whole fit before the cut, and the next one does not |
| `Snapshot.SnapshotDecodes` | crates/core/src/formats.rs:105-217 | reading a written snapshot file gives back its entries |
| `Snapshot.SnapshotRoundTrip` | crates/core/src/formats.rs:105-217 | writing a prefix-free store and loading it through set gives the same flat map |
| `Snapshot.ReadBody` | crates/core/src/formats.rs:193-216 | the counted read loop stays in bounds and reports truncation exactly when an entry is missing |
| `Snapshot.SetEntries` | crates/core/src/formats.rs:193-216 | setting the entries one by one is the load fold |
| `JsonFiles.JsonRoundTrip` | crates/core/src/json_compat.rs:7-86 | the written file, parsed and loaded: a reader finds the same leaves, empty objects and sealed objects if and only if the store does not hold the integer 1 under `__enc`, the envelopes a walk of the document stops at are the sealed entries of the store, and no key's segments and the levels of its value together exceed the parser's nesting limit |
| `JsonFiles.EncFreeRoundTrip` | crates/core/src/json_compat.rs:7-86 | without the name `__enc` in any key or value, the file survives exactly when the levels fit the parser |
| `JsonFiles.SealedDecides` | crates/core/src/store.rs:224-254 | two stores of the same content are found the same exactly when their sealed objects are stored at the same paths |
| `JsonFiles.LoadedSealed` | crates/core/src/json_compat.rs:14-44 | the sealed entries of a loaded store are exactly the sealed envelopes at which the walk stops |
| `JsonSnapshot.DocumentRoundTrip` | crates/core/src/json_compat.rs:7-44 | the written document, loaded without going through bytes, has the same content, objects that look like envelopes included, if and only if the store does not hold the integer 1 under `__enc` |
| `JsonSnapshot.DocumentNesting` | crates/core/src/json_compat.rs:67-102 | the levels of the written document are bounded exactly by segments plus levels of each entry |
| `JsonFiles.JsonFileWitnesses` | crates/core/src/json_compat.rs:47-86 | a store that survives, and three that do not: the integer 1 under `__enc`, the same under `a.__enc`, and a key of 130 one-letter segments |
| `JsonSnapshot.DocumentShows` | crates/core/src/json_compat.rs:67-102 | the document shows at every path what the store shows: no insertion overwrites an earlier one |
| `JsonSnapshot.LoadedShows` | crates/core/src/json_compat.rs:7-65 | walking a document and setting its rows shows what the document shows |
| `JsonSnapshot.WalkSound` | crates/core/src/json_compat.rs:25-44 | every row of a walk is the node of the document at the row's path |
| `JsonSnapshot.WalkAntichain` | crates/core/src/json_compat.rs:25-44 | no row of a walk lies at or below another |
| `JsonSnapshot.WalkComplete` | crates/core/src/json_compat.rs:25-44 | every leaf and every empty object lies at or below some row |
| `JsonSnapshot.WriteJsonSnapshot` | crates/core/src/json_compat.rs:67-86 | the loop builds the document, and fails exactly on a value that is not JSON |
| `JsonSnapshot.Walker.Visit` | crates/core/src/json_compat.rs:25-44 | the walk restores the shared path and appends exactly its rows |
| `JsonSnapshot.LoadJsonSnapshot` | crates/core/src/json_compat.rs:47-65 | a file that does not parse is an error; otherwise the rows of the walk are set in order |
| `JsonText.PushJsonString` | crates/core/src/engine.rs:1633-1660 | the chunk-copying loop produces the quoted form of any bytes after invalid UTF-8 was replaced |
| `JsonText.QuotedScans` | crates/core/src/store.rs:684-728 | scanning the quoted form of any UTF-8 string, before any bytes, gives the string and stops past its quote |
| `JsonText.ScanJsonString` | crates/core/src/store.rs:684-728 | the scanning loop stays in bounds on any bytes and computes the string or rejects it |
| `JsonText.ReadEscape` | crates/core/src/store.rs:698-718 | every escape is decoded as specified, the four-digit ones included, in bounds |
| `FieldSplitter.ValueSkipped` | crates/core/src/store.rs:730-755 | a printed value is skipped as a whole at any depth: brackets balance and those inside strings do not count |
| `FieldSplitter.ValueScanned` | crates/core/src/store.rs:730-790 | scanning a printed value before a comma or closing bracket stops exactly at its end |
| `FieldSplitter.ObjectSplit` | crates/core/src/store.rs:638-676 | splitting any printed object gives, in order, each field name and the exact text of its value, unless the text looks like an envelope |
| `FieldSplitter.SplitObject` | crates/core/src/store.rs:638-676 | on any bytes, every slice is strictly shorter than the text it was cut from |
| `FieldSplitter.SkipBrackets` | crates/core/src/store.rs:733-755 | the depth counter finds the matching bracket, or runs off the end, in bounds |
| `FieldSplitter.ScanJsonValue` | crates/core/src/store.rs:730-790 | each kind of value is stepped over in bounds |
| `FieldSplitter.SplitObjectFields` | crates/core/src/store.rs:638-676 | the splitting loop computes the split of any bytes |
| `Enumerate.PrefixRange` | crates/core/src/store.rs:46-68 | a key starts with a prefix exactly when it lies between the prefix and its computed end, trailing 0xFF bytes included |
| `Enumerate.ComputePrefixEnd` | crates/core/src/store.rs:46-56 | dropping bytes that cannot be raised computes that end |
| `Enumerate.BoundsArePrefix` | crates/core/src/store.rs:58-68 | a key is in the bounds exactly when it starts with the prefix and lies past the cursor |
| `Enumerate.AllIsFilter` | crates/core/src/store.rs:369-383 | listing under a prefix is the whole listing filtered by the prefix, in the same order, for every store and every prefix that is not raw |
| `Enumerate.AllUnderRawPrefix` | crates/core/src/store.rs:369-383 | under a raw prefix the two agree exactly when no stored ancestor of the prefix has a row there |
| `Enumerate.LeafRowsFiltered` | crates/core/src/store.rs:810-837 | filtering while splitting is filtering afterwards, on any bytes |
| `Enumerate.Count` | crates/core/src/store.rs:337-354 | the count equals the length of the listing exactly when some looked-at value is an object or no looked-at key is a proper byte prefix of the argument; under a raw prefix it is 0, which is right exactly when no stored ancestor has a row there |
| `Listing.ListAll` | crates/core/src/store.rs:794-808 | the loops compute the listing, hence the filtered whole listing |
| `Listing.SplitLeaf` | crates/core/src/store.rs:810-837 | recursive splitting terminates and appends the rows of the value |
| `Listing.Scan` | crates/core/src/store.rs:840-889 | the callback sees exactly the rows of the listing, in order, until it fails |
| `ListingView.AllShowsView` | crates/core/src/store.rs:794-837 | a whole listing has exactly one row for each leaf of the view: row by row a leaf at a path of its own, under its dotted path and printed, and no leaf is left over |
| `Paging.Page` | crates/core/src/store.rs:408-458 | a page is the first entries past the cursor, and its cursor is the last key exactly when more follow |
| `Paging.Walk` | crates/core/src/store.rs:408-458 | following cursors on an unchanging store ends and returns each entry under the prefix once, in order |
| `Paging.FollowAscends` | crates/core/src/store.rs:408-458 | whatever happens between pages, returned keys ascend strictly and each row was an entry of its store |
| `Paging.FollowComplete` | crates/core/src/store.rs:408-458 | when the pages have ended, a key present in every store seen was returned |
| `Paging.ScanCursor.constructor` | index.js:453-461 | a new iterator will yield the first `limit` rows past its cursor |
| `Paging.ScanCursor.Next` | index.js:463-478 | each call yields the first remaining row, and nothing only when none remains |
| `OrderKeys.BEOrder` | crates/core/src/index.rs:14-20 | big-endian bytes of one length are ordered as the numbers are |
| `OrderKeys.TotalOrderOnValues` | crates/core/src/index.rs:14-20 | on finite patterns the total order is the numeric order, except that -0 comes before +0 |
| `OrderKeys.OrderKeysCompare` | crates/core/src/index.rs:6-31 | comparing order keys compares values by type and then by value: numbers by IEEE 754-2008 totalOrder, strings by bytes; equal keys mean equal values |
| `SecondaryIndices.ExtractPath` | crates/core/src/index.rs:37-52 | the loop follows names through objects and decimal positions through arrays |
| `SecondaryIndices.SecondaryIndex.InsertParsedKey` | crates/core/src/index.rs:91-115 | buckets and positions stay inverse; exactly this document's order key is replaced or forgotten |
| `SecondaryIndices.SecondaryIndex.RemoveKey` | crates/core/src/index.rs:117-145 | buckets and positions stay inverse, no bucket is empty, exactly this document is forgotten |
| `SecondaryIndices.TakeOut` | crates/core/src/index.rs:117-145 | swap-remove repairs the moved position, and the recorded position is always right, so the linear search is dead code |
| `SecondaryIndices.RemovalLinked` | crates/core/src/index.rs:117-145 | taking a document out of linked buckets and positions leaves them linked |
| `SecondaryIndices.NoDuplicates` | crates/core/src/index.rs:55-60 | no document occurs twice, in one bucket or in two |
| `SecondaryIndices.SecondaryIndex.Lookup` | crates/core/src/index.rs:152-164 | exactly the documents whose latest value has that order key, each once |
| `SecondaryIndices.SecondaryIndex.Range` | crates/core/src/index.rs:166-186 | the first `limit` keys of the buckets in the half-open interval |
| `SecondaryIndices.FlatLists` | crates/core/src/index.rs:166-186 | those buckets hold exactly the documents indexed in the interval, each once, by rising order key |
| `IndexedStores.SetKeepsIndex` | crates/core/src/engine.rs:555-575 | after a set the index equals a rebuilt one exactly when nothing indexed was overwritten |
| `IndexedStores.DeleteKeepsIndex` | crates/core/src/engine.rs:578-597 | after a delete the index equals a rebuilt one, always |
| `IndexedStores.GetKeepsIndex` | crates/core/src/engine.rs:493-522 | a read keeps the index right exactly when it folds no branch, or one without indexed entries into one that is not indexed |
| `IndexedStores.StaleIndex` | crates/core/src/engine.rs:493-575 | one document below a key: neither writing nor reading that key leaves the index right |
| `IndexedStores.IndexedStore.constructor` | crates/core/src/engine.rs:1381-1399 | a created index holds every entry of the store |
| `IndexedStores.IndexedStore.Set` | crates/core/src/engine.rs:555-575 | store and index together: right afterwards exactly when nothing indexed was overwritten |
| `IndexedStores.IndexedStore.Delete` | crates/core/src/engine.rs:578-597 | store and index together stay right |
| `IndexedStores.IndexedStore.Batch` | crates/core/src/engine.rs:621-710 | a batch that resolves its touched keys only at the end leaves the index right if and only if every key listed by it or before, and gone from the store, was deleted in the batch or touched and left without an entry |
| `IndexedStores.Settles` | crates/core/src/engine.rs:690-708 | forgetting removed and missing keys and reading touched entries again makes an index with pending entries right exactly when no other listed key has gone |
| `IndexedStores.IndexedStore.IndexLookup` | crates/core/src/engine.rs:1415-1424 | the answer a scan of all documents would give |
| `IndexedStores.IndexedStore.IndexRange` | crates/core/src/engine.rs:1426-1445 | the first `limit` of all entries in the interval, sorted by order key |
| `LruCaches.PrefixesCover` | fallback/src/cache/cache-index.js:17-21 | the prefixes of whole segments are exactly the key and its dotted ancestors |
| `LruCaches.CacheIndex.Add` | fallback/src/cache/cache-index.js:17-33 | each prefix's set stays exactly the cached keys at or below it, and its count the size of the set |
| `LruCaches.CacheIndex.Remove` | fallback/src/cache/cache-index.js:39-57 | the same after removal, with empty sets dropped |
| `LruCaches.Attach` | fallback/src/cache/lru-cache.js:45-50 | the rewritten pointers make the node the first of a well-linked list |
| `LruCaches.Detach` | fallback/src/cache/lru-cache.js:56-61 | the rewritten pointers close the list around the node |
| `LruCaches.LRUCache.constructor` | fallback/src/cache/lru-cache.js:26-40 | an empty cache is well linked |
| `LruCaches.LRUCache.Evict` | fallback/src/cache/lru-cache.js:67-71 | one key leaves list, map and index; the order of the others stays |
| `LruCaches.LRUCache.Get` | fallback/src/cache/lru-cache.js:78-106 | a miss, an expired entry and a hit each have their exact effect on recency order and contents |
| `LruCaches.LRUCache.Set` | fallback/src/cache/lru-cache.js:114-172 | the key moves to the front, the size never exceeds the maximum, and only the least recently used key can go |
| `LruCaches.LRUCache.Invalidate` | fallback/src/cache/lru-cache.js:179-206 | exactly the keys neither equal to, above nor below the key remain, in their order |
| `LruCaches.LRUCache.Clear` | fallback/src/cache/lru-cache.js:211-216 | the list is empty and well linked again |
| `LruCaches.InvalidatedKeys` | fallback/src/cache/lru-cache.js:179-206 | the key, its prefix group and its parents are exactly the related keys |
| `NullProto.ToNullProto` | fallback/src/utils/json-safe.js:72-91 | the copying loop drops the forbidden fields at every depth and inside arrays, and nothing else |
| `NullProto.CleanExact` | fallback/src/utils/json-safe.js:72-91 | a value is stored unchanged exactly when no forbidden name occurs in it |
| `NullProto.UntouchedExact` | fallback/src/utils/json-safe.js:72-91 | a value keeps its leaves exactly when forbidden fields hold none and no array contains a forbidden name |
| `NestedTree.SameLeaves` | fallback/src/core/engine.js:297-331 | after any run of operations whose values keep their leaves when stored, the nested tree shows the leaves of a flat store that edits every object; within the limits on names and levels, those of the store itself |
| `NestedTree.SameLeavesCleaned` | fallback/src/core/engine.js:297-331 | after any run at all, the same for a flat store given the values without forbidden fields |
| `NestedTree.OneSetAgrees` | fallback/src/core/engine.js:297-311 | two engines that agree still agree after one more set if and only if its value keeps its leaves in the fallback, and a sealed object above the key, if there is one, holds no leaf that the set would keep |
| `NestedTree.ForbiddenFieldDiffers` | fallback/src/core/engine.js:311 | an object with a field named `constructor`: the flat store shows its leaf, the nested tree has lost it |
| `NestedTree.SealedSetDiffers` | crates/core/src/store.rs:168-181 | `a` set to an envelope and then `a.b`: the flat store has dropped the envelope, the nested tree has added to it |
| `NestedTree.ReadsAgree` | fallback/src/core/engine.js:338-346 | reads find the same leaves in both, unless a stored value lost leaves or a scalar or array lies above the key; within the limits on names and levels this is the read the native store makes |
| `NestedTree.EmptiedBranchDiffers` | fallback/src/core/engine.js:319-331 | only leaves agree: the nested tree keeps an emptied branch |
| `NestedTree.NestedStore.ApplySet` | fallback/src/core/engine.js:297-311 | one set acts on every path by the rule for the stored copy; by the rule for the value itself exactly when that copy keeps its leaves |
| `NestedTree.NestedStore.ApplyDelete` | fallback/src/core/engine.js:319-331 | one delete acts by the store's rule on every path |
| `NestedTree.NestedStore.ReadRaw` | fallback/src/core/engine.js:338-346 | the property walk computes the read |
| `NestedTree.ListNested` | fallback/src/core/engine.js:613-643 | the recursive traversal with its counters returns the window of entries asked for |
| `NestedTree.EntriesShow` | fallback/src/core/engine.js:617-638 | the entries are exactly the leaves of the tree, when no field name is empty |
| `Transactions.CommitExact` | index.js:709-787 | with pairwise incomparable keys, committing equals running the writes at once exactly when every stored leaf above a key ever set is also above a key still set at the end |
| `Transactions.CommitFaithful` | index.js:709-787 | in particular when no stored scalar or array lies above a staged key |
| `Transactions.CommitAtPath` | index.js:767-783 | the same, at one path |
| `Transactions.ReadsOwnWrites` | index.js:711-717 | a transaction reads its own writes as if they had been applied |
| `Transactions.CommittedLast` | index.js:767-772 | committing keeps each key's last operation |
| `Transactions.Transaction.Set` | index.js:723-727 | staging records one more write |
| `Transactions.Transaction.Get` | index.js:711-722 | the staged value of a key, its absence if deleted, or what the store holds |
| `Transactions.Transaction.Delete` | index.js:728-732 | staging a delete reports whether the key was there: staged as a value, or not staged and stored |
| `Transactions.Transaction.Commit` | index.js:767-772 | the batch has each key once, in first-staged order, with its last write |

## Left out

- Raw keys (`set_raw`, `delete_raw`): only shown to be skipped by listing, counting and paging; replaying
  them through `set` and `delete` is not modelled.
- Encryption, key derivation, compression and checksum internals: a checksum is any function of the bytes,
  and no theorem needs it to be collision-free.
- File system calls, fsync, temporary names, backups and their rotation (the crash theorems are for a backup
  count of 0), the lock file, bindings, events, statistics.
- Auto compaction mode: whether segments are used is fixed per engine.
- Headerless and JSON-lines logs: replay of the headerless frames is a function here, their payload decoder a
  parameter; nested batches inside a batch, which the encoder never writes.
- The manifest file format and the names of files: a manifest is a generation and a list of segments.
- The JSON parser and number formatting: stored bytes and documents are related by parameters, and a number
  carries its text and its binary64 pattern without a relation between the two; of the parser only the
  nesting limit is modelled, that of `serde_json`.
- The leaf count that decides between delta and full compaction, and the buffer size that triggers a flush:
  the first is a parameter, the second any choice.
- EngineRuns.Engine.Compact: a full merge that has reset the log but not yet rewritten the manifest is only
  promised to be in the merge window, because the property is false there; `Recovery.MergeWindowExact` has the
  exact condition.
- EngineRuns.Engine.CrashRecovers: a full copy listed beside its base can shadow keys that the log does not
  decide; of these disks the ones on which a set below a scalar uncovers an entry above its own key, and
  nothing decides that key again, are not covered, since what their store shows depends on the key asked for.
- Recovery.RecoveryExact: the same.
- StoreView.SetView: here an object whose text starts with the envelope marker, or is nested past the parser's
  limit, is a branch, which it is not to the source; `Stored.StoredSetExact` and `Stored.BlockedSetView` say
  what the source does instead, and `Stored.StoredIsApplied` that nothing differs within the limits, which
  carries over to every theorem about logs, recovery and runs.
- StoreView.DeleteView: the same, with `Stored.StoredDeleteExact`.
- StoreView.GetView: the same, with `Stored.StoredGetExact` and `Stored.GetShows`.
- FlatStore.Store.Set: the same.
- FlatStore.Store.Get: the same.
- FlatStore.Store.Delete: the same.
- JsonSnapshot.DocumentRoundTrip: is about content; what a reader finds is `JsonFiles.JsonRoundTrip`.
- NestedTree.SameLeaves: over a whole run objects that look like envelopes or are too deep are covered only by
  the limits; `NestedTree.OneSetAgrees` has the exact condition for one set.
- NestedTree.SameLeavesCleaned: the same.
- IndexedStores.IndexedStore.Batch: one index stands for all, since each is updated independently.
- Snapshot.SetEntries: entries are decoded first and set afterwards, where the source interleaves the two; a
  truncated file is rejected either way.
- Snapshot.SnapshotRoundTrip: parsing a printed value is required to give the value back.
- JsonText.PushJsonString: the replacement of invalid UTF-8 is a parameter, required to give UTF-8.
- Wal.ReadBatch: the source reserves room for the announced number of operations before reading them
  (`crates/core/src/formats.rs:520`), so an absurd count can abort it; memory is not modelled.
- NestedTree.NestedStore.ApplySet: walks the tree as a value carried along a spine of objects, not as heap
  objects edited in place, and field order after a delete is that of the native map.
- NestedTree.NestedStore.ReadRaw: whatever is read from an array object, its length for instance, is one value.
- NestedTree.ListNested: windows are taken in field order; a JavaScript object lists integer-like names first,
  so for ids such as `user.42` the window can hold other entries.
- NestedTree.ReadsAgree: properties of JavaScript arrays below an array are not modelled; the native read is
  covered within the limits only, and by `Stored.StoredGetExact`.
- LruCaches.LRUCache.Get: decompression of cached values is left out.
- LruCaches.LRUCache.Set: compression of cached values and detection of circular values are left out; the size
  of the serialized value is an argument.
- Transactions.Transaction.Commit: the derived operations `add`, `sub`, `push` and `pull` are compositions of
  get and set and have no member of their own; the array form of a transaction is a plain batch.
- Asynchronous iteration, the array-form transaction, the fallback's write queue, log and transactions.
