# Syncode: replicated documents, project trees and their limits

Syncode is a collaborative editor. Every open file is a sequence CRDT that each browser keeps for
itself; the project's files and folders form a second, last-writer-wins CRDT that browsers and the
server keep side by side. This project models both, with the editor code that turns text edits into
operations, the cursors, the load-test replay, the server's append script, and two small cores beside
them: the sliding-window limits and the framing of language-server messages.

## The text document

A document is a list of characters, each with a Lamport id and the id of the character it was typed
behind. `Rga` and `CanonicalOrder` give the meaning of a set of inserts: the pre-order of the tree of
origins, siblings by descending id, which is compared through root paths. A document is *well-formed*
if ids are distinct, origins stand ahead, and nothing foreign stands between a character and its
origin; the scan loop keeps that, and a well-formed document is the canonical sequence of what it
holds. `DocumentContents` reduces deletes and snapshot merges to sets.

`CrdtDocuments` and `PendingBuffers` hold the two objects, with their loops, their mutated maps and the
recursive drain. Every buffer operation is proved against one contract, `Replicas.Absorbs`: afterwards
the replica is settled, has learnt exactly these inserts and deletes, and its clock is the least that
covers them. `Rooms` is the step system built on it - type, erase, deliver any sent operation again
and again in any order, save, load any saved snapshot - and holds the theorems about whole runs.

`TextEdits`, `ChangeBatches`, `CursorAnchors` and `RoomCursors` are about the editor; `CrdtReplicas` is
the batch replay that the load tests compare with.

## The project tree

`ProjectOps` says what a set of operations means: per entry and register, the operation with the
greatest id decides. `ProjectRegisters`, `ProjectEntries` and `ProjectTreeObject`
follow the client; `ParentChains` and `ParentForests` hold the reasoning on chains of parents and
broken cycles. `RedisProjectTrees` is the server's append script over the same registers. Its ghost
field `accepted` records the run; the stored keys are related to it by `StoreOk`.

## Limits and framing

`RateLimits` and `TerminalSessions` are the two sliding windows, bounded over every window of every run
and, through `Windows`, described without counting. `Framing` and `FramingLaws` write and read
Content-Length frames (Language Server Protocol 3.17, "Base Protocol", "Header Part").

## Assumptions

- Each live replica of a file has its own site id, so one id means one value and one origin.
- Snapshots come from saved documents of the room, with a clock at least every counter in them.
- A delivered insert does not carry a tombstone, and its value is not empty; the server admits no other
  (server/Hubs/CollabHub.cs:480-496). Non-empty values are used by `ApplyLocalChange`,
  `ReplacesRangeIffAligned`, `ApplyChanges` and `CreateThenResolve`; the other results hold without.
- The changes of one editor event, to which `ApplyChanges` applies, do not overlap, start and end between
  characters, and are listed backwards where they share an offset; `TextOrderIff` and `ListedForwards` are
  about the last.
- Documents and buffers are changed only through the operations modelled here. What these ask of their
  object - a well-formed document, a clock above its counters, a settled buffer - each of them leaves behind.
- JavaScript, C# and Lua order site ids alike; the model uses the ordinal order of UTF-16 code units.
- The clocks of the limiters do not go back, operation ids passed to the rate limiter are fresh, and a
  key is always passed with the same limit and window, a repeated key with no shorter window than its
  first occurrence in the call.
- The server's hash of legacy files (the script's seventh key) is empty.

## Where the code does not do what it names

- Sign-in passes one key for two rates (server/Services/RedisRoomRateLimitStore.cs:36-41). The set is
  trimmed to the shorter window before the second check counts it, so the longer rate never refuses.
  `SignInRoom` says exactly when the call is accepted, `SignInMinuteHoldsThirty` gives a run
  of thirty calls in one minute, and `SignInMinuteBound` shows that there are never more. In general
  `TryConsume` is exact: each check counts the window with which its key first comes.
- An editor change that starts or ends inside a character of two code units deletes all of it
  (client/src/bindings/MonacoCrdtBinding.ts:134-143), so the document no longer equals the editor's text.
  `ReplacesRangeIffAligned` is the exact condition, `HalfACharacter` an edit that fails it, and
  `EraseHalfACharacter` makes that edit on a new document. Such an edit is an ordinary one: the server admits
  any value of up to two code units (server/Hubs/CollabHub.cs:487), so "ab" can be one character, and offset 1
  one that the editor has no reason to avoid.
- The append script answers 0 not only to repetitions: an operation that first arrives after a later one of
  its site gets the same answer and is not kept (server/Services/RedisProjectTreeStore.cs:70).
  `RecognitionIsSound` is the exact condition, `OvertakenIsLost` the whole family, `AppendOutOfOrder` a run.

## Model

| member | source | states |
|---|---|---|
| CrdtIds.IdTrichotomy | client/src/crdt/CrdtId.ts:11-29 | The comparison is a strict total order whose ties are exactly the equal ids |
| CrdtIds.IdTransitive | client/src/crdt/CrdtId.ts:11-19 | The comparison is transitive |
| Text.StringLessIff | client/src/crdt/CrdtId.ts:16-17 | The order of site ids without recursion: a proper prefix first, else the smaller code unit at the first difference |
| Text.SmallerUnitIsLess | client/src/crdt/CrdtId.ts:16-17 | For all strings that agree up to a smaller unit on the left and a greater one on the right, the left is less |
| Text.PrefixIsLess | client/src/crdt/CrdtId.ts:16-17 | A proper prefix is less, and not the other way round |
| CrdtIds.ComparisonMeans | client/src/crdt/CrdtId.ts:11-19 | The smaller counter is less; on equal counters the comparison is negative exactly for the lesser site id |
| CrdtIds.KeyMeans | client/src/crdt/CrdtId.ts:34-37 | The key spelled out: ROOT, or site id, colon and the counter in decimal |
| Text.DecimalMeans | client/src/crdt/CrdtId.ts:36 | The decimal digits of a counter mean the counter, without leading zeros |
| CrdtIds.CrdtIdToStringInjective | client/src/crdt/CrdtId.ts:34-37 | Distinct ids, and the root, have distinct keys, whatever characters a site id holds; so the string-keyed maps may be modelled as keyed by ids |
| Rooms.StrongConvergence | client/src/crdt/CrdtDocument.ts:23-34 | In every reachable room, two replicas that have seen the same inserts and deletes hold the same characters in the same order with the same tombstones, and hold back the same rest |
| Rooms.QuiescentRoomAgrees | client/src/crdt/CrdtDocument.ts:23-34 | Replicas to which everything sent has come agree, show exactly the inserts sent, and hold nothing back |
| Rooms.ReplicaShowsWhatItSaw | client/src/crdt/PendingBuffer.ts:4-19 | In every run a document is the canonical sequence of the inserts its replica has seen, with tombstones exactly where deletes were seen; the buffer holds exactly the inserts whose chain of origins is broken and the deletes without a target |
| Rooms.NothingHeldBack | client/src/crdt/PendingBuffer.ts:4-19 | A replica that has seen an origin-closed set of inserts and deletes of those only has an empty buffer |
| Rooms.CallsAreLegal | client/src/providers/SignalRCrdtProvider.ts:1304-1326 | In every reachable room, delivering a sent operation and loading a saved snapshot meet what the buffer asks of its callers |
| Rooms.StepOk | client/src/providers/SignalRCrdtProvider.ts:1304-1326 | Typing, erasing, delivering, saving and loading each keep the room invariant |
| Rooms.TypingAbsorbs | client/src/crdt/CrdtDocument.ts:115-126 | A locally typed character is learnt like a received one: no operation anywhere can be waiting for its id |
| Rooms.ErasingAbsorbs | client/src/crdt/CrdtDocument.ts:128-138 | A local delete is learnt like a received one |
| Rooms.TypeInto | client/src/crdt/CrdtDocument.ts:115-126 | Typing into the document is the typing step of its replica |
| Rooms.EraseFrom | client/src/crdt/CrdtDocument.ts:128-138 | Deleting in the document is the erasing step of its replica |
| Rooms.LogAttached | client/src/crdt/CrdtDocument.ts:115-126 | The inserts sent in a run form an origin-closed set |
| Rga.InsertedWellFormed | client/src/crdt/CrdtDocument.ts:85-113 | The scan keeps a document well-formed: ids distinct, origins first, and between a character and its origin only characters that hang below the origin with greater siblings |
| Rga.SiblingsDescend | client/src/crdt/CrdtDocument.ts:94-99 | Of two characters with one origin, the one with the greater id stands first |
| Rga.TwoAtTheStart | client/src/crdt/CrdtDocument.ts:94-99 | Two characters typed at the start end with the greater id in front, whichever comes first |
| CanonicalOrder.InsertCharCanonical | client/src/crdt/CrdtDocument.ts:85-113 | On the canonical sequence of an origin-closed set, inserting a new character whose origin is present yields the canonical sequence of the enlarged set |
| CanonicalOrder.CanonicalUnique | client/src/crdt/CrdtDocument.ts:74-84 | A set of inserts has one canonical sequence: path order on the tree of origins, ancestors first, siblings by descending id |
| CanonicalOrder.WellFormedIsCanonical | client/src/crdt/CrdtDocument.ts:85-113 | A well-formed document in which no known insert could still be integrated is the canonical sequence of everything known |
| CanonicalOrder.CanonicalIsWellFormed | client/src/crdt/CrdtDocument.ts:85-113 | Conversely a canonical sequence is well-formed, and inserting it into an empty document in its own order reproduces it |
| CanonicalOrder.RebuildWellFormed | client/src/crdt/CrdtDocument.ts:85-113 | Inserting in any causal order yields a well-formed document with exactly the inserted characters |
| DocumentContents.DocumentDetermined | client/src/crdt/CrdtDocument.ts:23-34 | Two well-formed documents with the same inserts and the same tombstones are equal, however each came about |
| DocumentContents.InsertedContents | client/src/crdt/CrdtDocument.ts:85-113 | An insertion adds exactly its character |
| DocumentContents.TombstonedContents | client/src/crdt/CrdtDocument.ts:128-138 | A deletion changes no id, value, origin or place; it adds its id to the tombstones exactly if the character is present |
| DocumentContents.TombstonedTwice | client/src/crdt/CrdtDocument.ts:151-156 | Deleting twice is deleting once |
| Replicas.HoldsWhatIsAttached | client/src/crdt/PendingBuffer.ts:4-19 | A replica's document holds exactly the received inserts that hang on the start through received origins, deleted exactly where a delete was received; its buffer holds exactly the rest |
| Replicas.ReplicaDetermined | client/src/crdt/CrdtDocument.ts:23-34 | What has reached a replica decides its document and its buffer |
| Replicas.NothingWaits | client/src/crdt/PendingBuffer.ts:4-19 | Nothing waits once the received inserts are origin-closed and the received deletes have targets among them |
| CrdtDocuments.CrdtDocument.constructor | client/src/crdt/CrdtDocument.ts:40-44 | A new document is empty with clock 0 |
| CrdtDocuments.CrdtDocument.FromText | client/src/crdt/CrdtDocument.ts:46-55 | Builds one character per code point, each behind the one before; the visible text is the argument, the document is well-formed, and its clock covers every counter |
| Text.CodePoints | client/src/crdt/CrdtDocument.ts:49 | Iterating a string splits it between code points: no value but a surrogate pair has two units, and no pair is split |
| Text.CodePointsUnique | client/src/crdt/CrdtDocument.ts:49 | That determines the values |
| CrdtDocuments.TypedCounters | client/src/crdt/CrdtDocument.ts:49-52 | The n-th character has counter n + 1, the n-th value and the character before it as origin; the number of characters covers all counters |
| PendingBuffers.ImportedSnapshotIsGood | client/src/import/folderImport.ts:366 | The snapshot of an imported text is one that any replica can load |
| CrdtDocuments.FromTextIsTyping | client/src/crdt/CrdtDocument.ts:46-55 | The direct construction gives what inserting the characters one by one gives |
| CrdtDocuments.CrdtDocument.FindCharIndex | client/src/crdt/CrdtDocument.ts:57-64 | The first position of an id, or -1 exactly if it is absent |
| CrdtDocuments.CrdtDocument.HasChar | client/src/crdt/CrdtDocument.ts:70-72 | Whether an id is present, deleted or not |
| CrdtDocuments.CrdtDocument.InsertChar | client/src/crdt/CrdtDocument.ts:85-113 | The loop splices the character in at the scan position of the specification |
| CrdtDocuments.CrdtDocument.LocalInsert | client/src/crdt/CrdtDocument.ts:115-126 | Issues the next counter of the site and inserts the character it returns |
| CrdtDocuments.CrdtDocument.LocalDelete | client/src/crdt/CrdtDocument.ts:128-138 | Sets one tombstone and returns the delete |
| CrdtDocuments.CrdtDocument.IntegrateRemoteInsert | client/src/crdt/CrdtDocument.ts:140-149 | Raises the clock to the counter and inserts unless the id is present |
| CrdtDocuments.CrdtDocument.IntegrateRemoteDelete | client/src/crdt/CrdtDocument.ts:151-156 | Sets one tombstone if the id is present |
| CrdtDocuments.CrdtDocument.ToVisibleString | client/src/crdt/CrdtDocument.ts:158-163 | The concatenated values of the characters not deleted |
| CrdtDocuments.CrdtDocument.ToSnapshot | client/src/crdt/CrdtDocument.ts:165-171 | The clock and all characters, tombstones included |
| CrdtDocuments.CrdtDocument.FromSnapshot | client/src/crdt/CrdtDocument.ts:173-188 | The document becomes the merge of both; the clock is the least above both clocks and every counter that was new to a document that was not empty |
| DocumentContents.MergedContents | client/src/crdt/CrdtDocument.ts:173-188 | The merge of well-formed documents is well-formed and holds exactly the union of the inserts and of the tombstones |
| DocumentContents.FastPathIsLoop | client/src/crdt/CrdtDocument.ts:176-187 | For an empty document, taking the snapshot over equals integrating it character by character |
| DocumentContents.MergeIdempotent | client/src/crdt/CrdtDocument.ts:173-188 | Merging a document with its own snapshot changes nothing |
| DocumentContents.MergeCommutative | client/src/crdt/CrdtDocument.ts:173-188 | Merging is commutative, tombstones included |
| DocumentContents.MergeAssociative | client/src/crdt/CrdtDocument.ts:173-188 | Merging is associative, tombstones included |
| PendingBuffers.PendingBuffer.Drain | client/src/crdt/PendingBuffer.ts:131-150 | Terminates; releases whatever waited for the character and, in turn, for what that released; no operation is lost, and nothing waits for the character any more |
| PendingBuffers.PendingBuffer.DrainDeletes | client/src/crdt/PendingBuffer.ts:134-140 | The deletes that waited for the character are applied and leave the buffer, and nothing else changes |
| PendingBuffers.PendingBuffer.IsInsertReady | client/src/crdt/PendingBuffer.ts:49-52 | An insert is ready exactly if it has no origin or its origin is present |
| PendingBuffers.PendingBuffer.ProcessInsert | client/src/crdt/PendingBuffer.ts:54-66 | After any insert the replica is settled again and has learnt exactly this insert; the clock is the least that covers it |
| PendingBuffers.PendingBuffer.ProcessDelete | client/src/crdt/PendingBuffer.ts:68-79 | After any delete the replica is settled again and has learnt exactly this delete |
| PendingBuffers.PendingBuffer.Process | client/src/crdt/PendingBuffer.ts:34-40 | After any operation, in any order and however often it comes, the replica is settled and has learnt exactly the operation |
| PendingBuffers.PendingBuffer.ProcessReadyInsertsAt | client/src/crdt/PendingBuffer.ts:91-99 | One list of the stale copy: either its origin is present, all of it is integrated and the key leaves the map, or nothing changes; what a nested drain already released is not put back |
| PendingBuffers.PendingBuffer.ProcessReadyInserts | client/src/crdt/PendingBuffer.ts:89-102 | A pass over the stale copy loses nothing and leaves no ready insert; it reports progress exactly if a key left the map |
| PendingBuffers.PendingBuffer.ProcessReadyDeletesAt | client/src/crdt/PendingBuffer.ts:106-113 | One list of deletes: applied and gone exactly if the character is present |
| PendingBuffers.PendingBuffer.ProcessReadyDeletes | client/src/crdt/PendingBuffer.ts:104-116 | A pass leaves no ready delete, loses none, and reports progress exactly if a key left the map |
| PendingBuffers.PendingBuffer.ProcessPending | client/src/crdt/PendingBuffer.ts:81-87 | Terminates with nothing ready left, from any buffer and document; no operation is lost and none put back |
| PendingBuffers.PendingBuffer.LoadSnapshot | client/src/providers/SignalRCrdtProvider.ts:1304-1313 | Merging a snapshot and then processing what waits leaves the replica settled, having learnt exactly the snapshot's inserts and deletes |
| PendingBuffers.AdvancesTransitive | client/src/crdt/PendingBuffer.ts:131-150 | Releases compose: each inner drain leaves the maps as the outer one needs them |
| PendingBuffers.ReadyKeyDone | client/src/crdt/PendingBuffer.ts:89-102 | Dropping a key whose operations are all integrated loses nothing |
| PendingBuffers.NotReadyStays | client/src/crdt/PendingBuffer.ts:118-125 | Writing a remaining list back never undoes what a nested drain did |
| TextEdits.LandsBehindOrigin | client/src/crdt/CrdtDocument.ts:85-126 | A character whose counter is above the whole document lands right behind its origin, whatever tombstones follow it |
| TextEdits.EraseAll | client/src/providers/SignalRCrdtProvider.ts:1017-1022 | Deleting the given visible characters makes exactly those invisible: their ids become tombstones, and nothing else changes |
| TextEdits.TypeAll | client/src/providers/SignalRCrdtProvider.ts:1024-1032 | Typing a list of values behind an origin puts them there contiguously, in order, with the next counters of the site, each behind the one before; nothing else changes |
| TextEdits.IssuedMeans | client/src/providers/SignalRCrdtProvider.ts:1024-1032 | The ids, values and origins of the characters that are typed |
| TextEdits.CommonPrefixLength | client/src/providers/SignalRCrdtProvider.ts:80-89 | The length of the longest common front |
| TextEdits.CommonSuffixLength | client/src/providers/SignalRCrdtProvider.ts:91-105 | The length of the longest common back behind a given front |
| TextEdits.ReplaceFileContent | client/src/providers/SignalRCrdtProvider.ts:992-1007 | Afterwards the visible text is the argument; exactly the visible characters between the longest common front and back have become tombstones, and exactly the code points between them have been typed |
| TextEdits.ApplyLocalChange | client/src/bindings/MonacoCrdtBinding.ts:119-149 | For every offset: exactly the visible characters that end behind the start of the range and start before its end become tombstones, and the code points of the new text are typed in their place |
| TextEdits.ReplacesRangeIffAligned | client/src/bindings/MonacoCrdtBinding.ts:119-149 | The visible text changes as the editor's did if and only if neither end of the range falls inside a character; a range that cuts a character of two code units deletes all of it |
| TextEdits.HalfACharacter | client/src/bindings/MonacoCrdtBinding.ts:134-143 | An edit that fails the condition: erasing the second half of the only character, of two code units, leaves nothing, while the editor shows the first half |
| TextEdits.EraseHalfACharacter | client/src/bindings/MonacoCrdtBinding.ts:119-149 | That edit, made by applyLocalChange on a new document |
| TextEdits.SplicedText | client/src/bindings/MonacoCrdtBinding.ts:119-149 | Replacing visible characters replaces the code units they cover |
| ChangeBatches.SortDescendingSorts | client/src/bindings/MonacoCrdtBinding.ts:68-70 | The sort yields a descending permutation |
| ChangeBatches.LastFirst | client/src/bindings/MonacoCrdtBinding.ts:48-50 | For separate ranges, replacing the last one first and then the others equals replacing all at once |
| ChangeBatches.SortIsStable | client/src/bindings/MonacoCrdtBinding.ts:68-70 | The sort keeps the order of changes at one offset |
| ChangeBatches.DistinctOffsetsInTextOrder | client/src/bindings/MonacoCrdtBinding.ts:68-70 | Separate changes at distinct offsets are taken in text order, backwards, whatever order the event lists them in |
| ChangeBatches.TextOrderIff | client/src/bindings/MonacoCrdtBinding.ts:68-70 | Separate changes that may share offsets are taken in text order, backwards, if and only if the event lists those at each one offset backwards |
| ChangeBatches.ListedForwards | client/src/bindings/MonacoCrdtBinding.ts:68-83 | Otherwise they need not mean what they meant: an insertion listed before a replacement at its offset is overwritten by it |
| ChangeBatches.ApplyChanges | client/src/bindings/MonacoCrdtBinding.ts:68-83 | Applying a batch of aligned changes in descending order equals simultaneous replacement on the original visible text, whenever those changes, taken backwards, do not overlap; they may touch and share offsets; no character is lost and no tombstone taken back |
| CrdtReplicas.CrdtReplica.Insert | load-tests/CrdtReplica.cs:48-67 | Inserts at the scan position of the same specification as the client's |
| CrdtReplicas.CrdtReplica.TryApply | load-tests/CrdtReplica.cs:15-30 | One operation is applied exactly if its origin or target is present |
| CrdtReplicas.CrdtReplica.ScanBackwards | load-tests/CrdtReplica.cs:12-32 | A backward pass loses no operation; if it removes none, every remaining one is blocked |
| CrdtReplicas.CrdtReplica.GetVisibleText | load-tests/CrdtReplica.cs:7-35 | Terminates; throws if and only if the list is not dependency-closed, and otherwise returns the text of exactly the listed inserts and deletes |
| CrdtReplicas.CrdtReplica.ToSnapshot | load-tests/CrdtReplica.cs:37-44 | The snapshot holds the replayed characters under the greatest of their counters, or 0 |
| CrdtReplicas.ReplayIgnoresOrder | load-tests/CrdtReplica.cs:7-35 | Lists with the same operations replay to the same characters, in whatever order and however often they are listed |
| CrdtReplicas.ReplayAgreesWithBuffer | load-tests/CrdtReplica.cs:7-35 | The batch replay and the buffered document agree on the same operations |
| CrdtReplicas.ReadOperationsContents | load-tests/CrdtReplica.cs:80-94 | A snapshot's operations stand for exactly its inserts and tombstones |
| CrdtReplicas.ReadOperationsListed | load-tests/CrdtReplica.cs:90-92 | One insert for each character, then one delete for each tombstone, in document order |
| CrdtReplicas.SnapshotReplays | load-tests/CrdtReplica.cs:76-94 | A snapshot's operations are dependency-closed, and replaying them gives its characters and its text back |
| CursorAnchors.AnchorBetween | client/src/crdt/CursorAnchor.ts:32-43 | An anchor names the last visible character in front of it and the first behind it |
| CursorAnchors.PositionMeans | client/src/crdt/CursorAnchor.ts:123-133 | The line is one more than the line feeds in front; the column one more than the units since the last of them, or since the start |
| CursorAnchors.ResolvedBetween | client/src/crdt/CursorAnchor.ts:82-90 | An anchor resolves in front of its right neighbour if that is present, else behind its left neighbour if that is present, else at the start |
| CursorAnchors.CreateCursorAnchor | client/src/crdt/CursorAnchor.ts:28-44 | The anchor names the characters on both sides of the gap in which the offset falls |
| CursorAnchors.CreateCursorAnchorFromPosition | client/src/crdt/CursorAnchor.ts:46-72 | The anchor of the offset at which line and column stand, or of the end of the text |
| CursorAnchors.ResolveVisibleOffset | client/src/crdt/CursorAnchor.ts:116-140 | Line and column of the offset, clamped to the text |
| CursorAnchors.ResolveCursorAnchor | client/src/crdt/CursorAnchor.ts:74-91 | The offset before the right neighbour if that is present, else behind the left one, else the start |
| CursorAnchors.VisibleOffsetBefore | client/src/crdt/CursorAnchor.ts:104-110 | The number of visible code units in front of a position |
| CursorAnchors.CreateThenResolve | client/src/crdt/CursorAnchor.ts:28-91 | Create then resolve is the identity if and only if the offset falls between characters |
| CursorAnchors.PositionAgreesWithOffset | client/src/crdt/CursorAnchor.ts:46-72 | Line and column of an offset lead back to that offset |
| CursorAnchors.PositionsOrdered | client/src/crdt/CursorAnchor.ts:123-133 | Reading order on lines and columns is the order of offsets |
| CursorAnchors.OrderKept | client/src/crdt/CrdtDocument.ts:23-34 | Two characters that two states of a document both hold stand in one order, whatever else either holds |
| CursorAnchors.AnchorsOrdered | client/src/crdt/CursorAnchor.ts:5-15 | Anchors taken at o1 <= o2 resolve in that order in every related document that holds a neighbour of the second, be it only the left one; otherwise the second resolves at the start |
| CursorAnchors.AnchorsStayOrdered | client/src/crdt/CursorAnchor.ts:5-15 | Anchors taken at o1 <= o2 resolve in that order in every later state, even if their characters have been deleted |
| RoomCursors.DocumentsOnlyGrow | client/src/crdt/CrdtDocument.ts:33-34 | However a run goes on, a replica's document only gains characters and tombstones |
| RoomCursors.DocumentsRelated | client/src/crdt/CrdtDocument.ts:23-34 | Whatever two replicas show at any two points of a run agrees on every insert and its origin |
| RoomCursors.AnchorsOrderedInRooms | client/src/crdt/CursorAnchor.ts:5-15 | In every run, anchors of one site resolve in their order at every replica that holds a neighbour of the second, however much of the room it has seen |
| RoomCursors.AnchorsStayOrderedInRooms | client/src/crdt/CursorAnchor.ts:5-15 | In every run, anchors of one site resolve in their order at every replica that has seen the inserts that site had seen |
| ProjectOps.CompactionPreservesMeaning | client/src/crdt/ProjectTree.ts:593-610 | Replacing any set of operations by its compaction changes no register under any later merge |
| ProjectOps.RegistersBetween | client/src/crdt/ProjectTree.ts:593-610 | So does dropping any part of what compaction drops |
| ProjectOps.CompactionIdempotent | client/src/crdt/ProjectTree.ts:593-604 | Compacting twice is compacting once |
| ProjectOps.AtMostFourPerEntry | client/src/crdt/ProjectTree.ts:294-358 | At most four operations per entry survive |
| ProjectOps.GreatestSurvives | client/src/crdt/ProjectTree.ts:593-604 | An operation with the greatest counter survives |
| ProjectRegisters.BuildRegisters | client/src/crdt/ProjectTree.ts:232-292 | In whatever order the operations are met, each register is decided by the operation with the greatest id |
| ProjectRegisters.RegistersAfter | client/src/crdt/ProjectTree.ts:241-290 | One more operation changes exactly the registers it writes, and only if its id is greater |
| ProjectRegisters.EntriesFormForest | client/src/crdt/ProjectTree.ts:579-591 | What is shown is a forest of folders: every parent is none or a shown folder, no chain returns to its start, and a valid parent is dropped exactly at the lowest version of a cycle |
| ProjectRegisters.RegistersOfOk | client/src/crdt/ProjectTree.ts:232-292 | Every created entry has a name and a parent register, and no two parent registers share an id |
| ProjectRegisters.ShownMeans | client/src/crdt/ProjectTree.ts:438-461 | An entry is shown exactly if it is created and no ancestor of any degree, itself included, is deleted |
| ProjectRegisters.EntryMeans | client/src/crdt/ProjectTree.ts:360-378 | In terms of the operations: the greatest create says what an entry is, the greatest of creates and renames names it, the greatest of creates and moves places it and gives the place its version |
| ProjectRegisters.PlaceMeans | client/src/crdt/ProjectTree.ts:430-496 | An entry stands at its place unless that is not a shown folder, or its version is the least on a cycle; then it stands at the top |
| ParentForests.CycleHasLowest | client/src/crdt/ProjectTree.ts:476-489 | Every cycle has exactly one entry of lowest version |
| ParentForests.BrokenIsForest | client/src/crdt/ProjectTree.ts:463-496 | Dropping the edge of the lowest version of each cycle leaves no cycle and keeps every other edge |
| ParentForests.WalkIntoCycle | client/src/crdt/ProjectTree.ts:471-494 | A walk that met itself: whichever entry it started from, the edge to drop is that of the lowest version of the part from there on, and no other edge on the walk |
| ParentForests.WalkWithoutCycle | client/src/crdt/ProjectTree.ts:471-494 | A walk that ended at a root or among finished entries has no edge to drop |
| ProjectEntries.VisibleProjectEntries.CreateVisibleEntries | client/src/crdt/ProjectTree.ts:380-396 | Collects exactly the created entries not deleted, with name, parent and version from the registers |
| ProjectEntries.VisibleProjectEntries.IsBelowDeleted | client/src/crdt/ProjectTree.ts:443-455 | The walk upwards finds a deleted ancestor exactly if there is one, cycles included |
| ProjectEntries.VisibleProjectEntries.RemoveDeletedDescendants | client/src/crdt/ProjectTree.ts:438-461 | Removes exactly the entries with a deleted proper ancestor |
| ProjectEntries.HiddenIffBelowDeleted | client/src/crdt/ProjectTree.ts:438-461 | On the collected entries that is the same as: the raw chain of parents reaches a deleted id |
| ProjectEntries.VisibleProjectEntries.DetachInvalidParents | client/src/crdt/ProjectTree.ts:430-436 | Keeps exactly the parents that are remaining folders |
| ProjectEntries.VisibleProjectEntries.LowestVersion | client/src/crdt/ProjectTree.ts:478-486 | The reduce finds the entry of lowest version |
| ProjectEntries.VisibleProjectEntries.WalkFrom | client/src/crdt/ProjectTree.ts:465-495 | One outer pass breaks what the walk meets and finishes every entry on it |
| ProjectEntries.VisibleProjectEntries.BreakParentCycles | client/src/crdt/ProjectTree.ts:463-496 | From whatever entries the walks start, exactly the edge of the lowest version of each cycle is dropped |
| ProjectTreeObject.MaterializeEntries | client/src/crdt/ProjectTree.ts:579-591 | The four steps in place compute the entries that the registers mean |
| ProjectTreeObject.ProjectTree.ApplyOperation | client/src/crdt/ProjectTree.ts:561-573 | Adds the operation or recognises it; fails exactly if another operation has its id, and then changes nothing |
| ProjectTreeObject.ProjectTree.Issue | client/src/crdt/ProjectTree.ts:612-620 | A local operation carries an id that no operation of the tree has, above all of them |
| ProjectTreeObject.LocalOperationDecides | client/src/crdt/ProjectTree.ts:540-559 | A local operation decides every register it writes and no other: a rename names the entry, a move places it, a delete hides it |
| ProjectTreeObject.ProjectTree.CreateEntry | client/src/crdt/ProjectTree.ts:525-538 | Refused exactly if a shown sibling has the name up to case, and then changes nothing; otherwise issues and applies one create |
| ProjectTreeObject.ProjectTree.RenameEntry | client/src/crdt/ProjectTree.ts:540-544 | Issues and applies one rename |
| ProjectTreeObject.ProjectTree.MoveEntry | client/src/crdt/ProjectTree.ts:546-553 | Issues and applies one move |
| ProjectTreeObject.ProjectTree.DeleteEntry | client/src/crdt/ProjectTree.ts:555-559 | Issues and applies one delete |
| ProjectTreeObject.ProjectTree.GetEntries | client/src/crdt/ProjectTree.ts:579-591 | The entries, listed by ascending id as code units compare, depend only on the set of operations, and form a forest of folders |
| ProjectTreeObject.CompactEntryOperations | client/src/crdt/ProjectTree.ts:294-327 | The operations written for created entries |
| ProjectTreeObject.CompactedIsSurvivors | client/src/crdt/ProjectTree.ts:294-358 | What the compaction loops write back from the registers is exactly the operations that decide some register |
| ProjectTreeObject.ProjectTree.ToSnapshot | client/src/crdt/ProjectTree.ts:593-604 | A snapshot lists exactly the operations that decide some register, by ascending id |
| ProjectTreeObject.OneListing | client/src/crdt/ProjectTree.ts:579-604 | A set of operations gives one list of entries and one snapshot, order included |
| Sorting.SortSet | client/src/crdt/ProjectTree.ts:590 | Lists a set in ascending order |
| Sorting.AscendingUnique | client/src/crdt/ProjectTree.ts:590-601 | There is one such list |
| ProjectTreeObject.ProjectTree.ValidateOperationBatch | client/src/crdt/ProjectTree.ts:415-428 | A batch is valid exactly if it and the tree together have one operation per id |
| ProjectTreeObject.ProjectTree.FromSnapshot | client/src/crdt/ProjectTree.ts:606-610 | A snapshot is merged as a whole, or refused as a whole if it conflicts |
| ProjectTreeObject.CompactionKeepsClock | client/src/crdt/ProjectTree.ts:561-573 | A tree that holds what compaction kept has a clock above everything it dropped, so it never issues one of those ids |
| ProjectTreeObject.CompactionKeepsEntries | client/src/crdt/ProjectTree.ts:593-610 | A peer that loaded the compacted snapshot shows what a peer with every operation shows, whatever comes later |
| RedisProjectTrees.EveryRun | server/Services/RedisProjectTreeStore.cs:12-254 | In every state of every run of accepted appends: no entry whose chain is neither hidden nor cyclic stands deeper than 32, and the stored snapshot, alone or followed by the retained history, decides every register as all accepted operations do; the history is the newest 1000 in their order |
| RedisProjectTrees.RedisProjectTreeStore.Append | server/Services/RedisProjectTreeStore.cs:12-254 | Answers exactly as the recognition and admission rules say, and changes nothing unless it accepts; an accepted create leaves at most 500 entries shown, an accepted operation is the last of the history and indexed, and every invariant of the store is kept |
| RedisProjectTrees.RecognitionIsSound | server/Services/RedisProjectTreeStore.cs:38-70 | An accepted operation that comes again is always answered 0, and one that was never accepted exactly if its counter is below the last of its site (or 0, for a site not heard of) and neither snapshot nor index holds its id; -1 is answered exactly otherwise if a different operation was accepted under the id, and the operation is taken for new exactly if none was |
| RedisProjectTrees.OvertakenIsLost | server/Services/RedisProjectTreeStore.cs:70 | An operation that first arrives after a later one of its site is answered 0 and never kept |
| RedisProjectTrees.AppendOutOfOrder | server/Services/RedisProjectTreeStore.cs:12-254 | Two renames of one site that reach an empty store in the wrong order are answered 1 and 0 |
| RedisProjectTrees.UnrecognisedIsNew | server/Services/RedisProjectTreeStore.cs:38-70 | An operation that is not recognised has a counter above every accepted one of its site |
| RedisProjectTrees.RefusalMeans | server/Services/RedisProjectTreeStore.cs:72-208 | For an operation taken for new, in this order: -3 exactly if an accepted operation created its entry, -6 exactly if an entry at or below the created or moved one has 32 ancestors, -5 exactly if a create leaves more than 500 entries shown, -7 on a name clash, and acceptance otherwise |
| RedisProjectTrees.StoreKeepsNewest | server/Services/RedisProjectTreeStore.cs:237-244 | The history lists the newest accepted operations, at most 1000, in their order, and the index holds exactly them |
| RedisProjectTrees.LastOfMeans | server/Services/RedisProjectTreeStore.cs:240-244 | What is kept of a list is its end |
| RedisProjectTrees.DepthStep | server/Services/RedisProjectTreeStore.cs:128-155 | An accepted operation leaves no entry too deep, be it one that a later move brings out from under a deleted folder or frees from a cycle |
| RedisProjectTrees.RedisProjectTreeStore.MeasureEntry | server/Services/RedisProjectTreeStore.cs:133-154 | The walk finds whether an entry is hidden, and refuses exactly if it is measured, stands under the moved or created entry and lies deeper than 32 |
| RedisProjectTrees.RedisProjectTreeStore.CheckDepths | server/Services/RedisProjectTreeStore.cs:128-155 | Refuses exactly if some entry is too deep; otherwise the active count is the number of entries the client shows |
| RedisProjectTrees.SnapshotStep | server/Services/RedisProjectTreeStore.cs:44-102 | Compacting the old snapshot with one more operation gives the compaction of all accepted operations |
| RedisProjectTrees.RedisProjectTreeStore.CompactRegisters | server/Services/RedisProjectTreeStore.cs:209-235 | The script's compaction equals the client's |
| RedisProjectTrees.ServerEntryOpsAgree | server/Services/RedisProjectTreeStore.cs:210-222 | Keeping a name or parent that is greater than the create is the same as keeping one that differs from it |
| RedisProjectTrees.RedisProjectTreeStore.Write | server/Services/RedisProjectTreeStore.cs:237-247 | The writes leave history, index, snapshot, create index and site counters as an accepted operation demands |
| RedisProjectTrees.HistoryStep | server/Services/RedisProjectTreeStore.cs:237-244 | The history is the last 1000 accepted operations, and the index holds exactly those |
| RedisProjectTrees.LateJoinerRegisters | server/Services/RedisProjectTreeStore.cs:209-247 | Snapshot plus retained history decide every register as the full history does |
| RedisProjectTrees.RedisProjectTreeStore.LateJoin | server/Services/RedisProjectTreeStore.cs:209-247 | A client that loads the snapshot and then the retained operations shows what a peer that applied every accepted operation shows, under a clock that covers all of them |
| RateLimits.AdmittedBounded | server/Services/RedisRoomRateLimitStore.cs:17-32 | In every run by a clock that does not go back, each half-open window of a key's length holds at most the key's limit of accepted operations, wherever it ends |
| RateLimits.RateLimitStore.TryConsume | server/Services/RedisRoomRateLimitStore.cs:17-32 | Accepts exactly if every key has room in the window that ends now, and records the operation under all of its keys or under none |
| RateLimits.RateLimitStore.CheckAll | server/Services/RedisRoomRateLimitStore.cs:20-25 | The first loop stops at the first full key, and trims nothing that a later call would count |
| RateLimits.RateLimitStore.RecordAll | server/Services/RedisRoomRateLimitStore.cs:26-30 | The second loop records the operation under every key and touches no other |
| RateLimits.SizeIsCount | server/Services/RedisRoomRateLimitStore.cs:23-24 | After trimming, the size of a sorted set is the number of accepted operations in the window |
| RateLimits.StillBounded | server/Services/RedisRoomRateLimitStore.cs:17-32 | One more admitted operation keeps every window of a key within its limit, past and future ones included |
| RateLimits.RoomMeans | server/Services/RedisRoomRateLimitStore.cs:23-24 | A key has room exactly if fewer operations than its limit have been accepted at all, or the last but so many was accepted a window ago or longer |
| RateLimits.SignInRoom | server/Services/RedisRoomRateLimitStore.cs:36-41 | Passing one key for both rates: the call is accepted if and only if the shorter window has room |
| RateLimits.SignInMinuteHoldsThirty | server/Services/RedisRoomRateLimitStore.cs:36-41 | So the longer rate is not kept: a run of accepted calls with 30 in one minute, where the second rate names 20 |
| RateLimits.SignInMinuteBound | server/Services/RedisRoomRateLimitStore.cs:36-41 | What a minute does keep: in every run at most 30 accepted calls of a key |
| RateLimits.WindowsAddUp | server/Services/RedisRoomRateLimitStore.cs:17-32 | Over a whole number of its windows a key holds at most that many times its limit |
| TerminalSessions.AdmittedBounded | server/Services/TerminalSessionRegistry.cs:94-111 | In every run by a clock that does not go back, each closed span of ten seconds holds at most the limit of allowed calls of a session |
| TerminalSessions.Use | server/Services/TerminalSessionRegistry.cs:106-111 | Allows exactly if the ten seconds that end now hold fewer than the limit |
| TerminalSessions.QueueIsSpan | server/Services/TerminalSessionRegistry.cs:106-108 | After the dequeue loop the queue is exactly the calls allowed in the last ten seconds |
| TerminalSessions.RoomMeans | server/Services/TerminalSessionRegistry.cs:106-110 | There is room exactly if fewer calls than the limit have been allowed at all, or the last but so many was allowed more than ten seconds ago |
| TerminalSessions.StillBounded | server/Services/TerminalSessionRegistry.cs:106-111 | One more allowed call keeps every span within the limit |
| TerminalSessions.TerminalSessionRegistry.Consume | server/Services/TerminalSessionRegistry.cs:94-113 | Allows exactly the owner of a session, and exactly while the span has room |
| TerminalSessions.TerminalSessionRegistry.AllowCommand | server/Services/TerminalSessionRegistry.cs:88-89 | Allowed exactly for the owner, if the session has had fewer than 80 commands since it was added or the 80th last was more than ten seconds ago |
| TerminalSessions.TerminalSessionRegistry.AllowPoll | server/Services/TerminalSessionRegistry.cs:91-92 | Allowed exactly for the owner, if the session has had fewer than 120 polls since it was added or the 120th last was more than ten seconds ago |
| TerminalSessions.TerminalSessionRegistry.TryAdd | server/Services/TerminalSessionRegistry.cs:27-38 | Adds exactly if the id is free and the connection has fewer than three sessions; no connection ever has more |
| TerminalSessions.TerminalSessionRegistry.Owns | server/Services/TerminalSessionRegistry.cs:40-48 | Ownership is membership in the sessions of the connection and of the room |
| TerminalSessions.TerminalSessionRegistry.Remove | server/Services/TerminalSessionRegistry.cs:50-66 | Removes exactly the session, for its owner only |
| TerminalSessions.TerminalSessionRegistry.RemoveAll | server/Services/TerminalSessionRegistry.cs:68-86 | Removes and returns exactly the sessions of a connection |
| TerminalSessions.TerminalSessionRegistry.RemoveRoom | server/Services/TerminalSessionRegistry.cs:12-25 | Removes and returns exactly the sessions of a room |
| Framing.RelayRoundTrip | execution-service/Runner/LanguageServerSessions.cs:244-286 | Whatever a web socket delivers, reading back the stream that was written gives exactly the finished messages |
| Framing.FragmentationIsInvisible | execution-service/Runner/LanguageServerSessions.cs:244-286 | However each message within the size limit is cut into fragments, the reader gets the messages themselves |
| FramingLaws.RelayEnds | execution-service/Runner/LanguageServerSessions.cs:251-253 | A close ends the relay without failure, whatever follows; a binary event or one that takes a message over 4 MiB fails it; either way exactly the finished messages have been relayed |
| FramingLaws.FramesThen | execution-service/Runner/LanguageServerSessions.cs:270-285 | Frames that have been read do not bear on what follows them |
| FramingLaws.CutInHeader | execution-service/Runner/LanguageServerSessions.cs:275 | A stream that ends inside a header ends the reading in silence |
| FramingLaws.HeaderTooLongFails | execution-service/Runner/LanguageServerSessions.cs:277 | More than 1024 bytes without a line feed are an error |
| FramingLaws.HeaderFails | execution-service/Runner/LanguageServerSessions.cs:280-283 | A header without a readable length, a length over 4 MiB, and a body that is cut short are errors |
| FramingLaws.FrameMeans | execution-service/Runner/LanguageServerSessions.cs:255-258 | A frame spelled out: the field name, the decimal length, a blank line and the body |
| Framing.FramesAreRead | execution-service/Runner/LanguageServerSessions.cs:266-286 | Reading a concatenation of frames gives exactly their bodies |
| Framing.FrameIsRead | execution-service/Runner/LanguageServerSessions.cs:266-298 | A frame with further header fields before and after the length is read as its body, whatever follows |
| Framing.CopyWebSocketToProcess | execution-service/Runner/LanguageServerSessions.cs:244-264 | Writes one frame for each finished message; fails exactly on a message that is not text or too long |
| Framing.CopyProcessToWebSocket | execution-service/Runner/LanguageServerSessions.cs:266-286 | Sends exactly the bodies the stream carries and ends as the stream demands |
| Framing.ReadHeader | execution-service/Runner/LanguageServerSessions.cs:272-278 | The byte loop stops at the first blank line, at the end of the stream, or past 1024 bytes |
| Framing.HeaderEndsOnce | execution-service/Runner/LanguageServerSessions.cs:272-278 | No proper prefix of a header ends it |
| Framing.ParseContentLength | execution-service/Runner/LanguageServerSessions.cs:288-298 | The length of the first line that carries a readable one |
| FramingLaws.LengthOfMeans | execution-service/Runner/LanguageServerSessions.cs:292-295 | A line carries a length exactly if what precedes its first colon spells Content-Length in any case and the trimmed rest reads as a number |
| FramingLaws.NamesContentLength | execution-service/Runner/LanguageServerSessions.cs:293 | Letters compare without case, and nothing else is folded |
| FramingLaws.TrimMeans | execution-service/Runner/LanguageServerSessions.cs:294 | White space is taken from both ends only |
| FramingLaws.TryParseMeans | execution-service/Runner/LanguageServerSessions.cs:294 | Decimal digits, which NUL characters may follow, read as their value if it fits 32 bits; nothing else reads as a number |
| Framing.SplitHeader | execution-service/Runner/LanguageServerSessions.cs:290 | Splitting a header gives its lines back |
| Framing.LengthOfLine | execution-service/Runner/LanguageServerSessions.cs:255 | The line that is written for a length is read as that length |

## Left out

- Transport, reconnection, status events, local storage and user interface: asynchronous plumbing. Kept is the order in which operations, snapshots and the processing of waiting operations reach a document.
- JSON, gzip, base64 and size limits of snapshots: snapshots are structured values.
- Maps keyed by id strings are keyed by the ids, which `CrdtIdToStringInjective` justifies. Where the code iterates such a map in insertion order, the model takes the keys in any order, so what is proved holds for every order.
- The buffer's `size`, selection anchors, and cursor code that only forwards to the functions modelled.
- Objects shared between a document and an operation it emitted: operations are values.
- Reuse of a site id after a reload before the snapshot arrives: excluded by the assumption of distinct replicas.
- The project tree's `fromEntries` and `removeOperation`.
- ProjectTreeObject.ProjectTree.ApplyOperation: operations are taken as validated and trimmed; the refusal of malformed ids and names is string handling of its own.
- ProjectTreeObject.ProjectTree.CreateEntry: likewise without the refusal of malformed entries; lower-casing is a parameter.
- ProjectTreeObject.ProjectTree.RenameEntry: likewise without the refusal and the trimming of the name.
- ProjectTreeObject.ProjectTree.FromSnapshot: likewise without parsing, and without the refusal of malformed operations.
- RedisProjectTrees.RedisProjectTreeStore.Append: the comparison of sibling names is a parameter, the name keys it writes, key expiry and malformed arguments (answers -7 and -2) are not modelled; the 500-entry answer is modelled but is no invariant, since a move can reveal hidden entries.
- RateLimits.RateLimitStore.TryConsume: key expiry, which only removes sets that the next call would empty.
- TerminalSessions.TerminalSessionRegistry.Consume: returns the changed table of queues instead of changing it through a reference.
- ChangeBatches.ApplyChanges: batches with overlapping changes, where replacing all at once has no meaning, and batches that list an insertion before a replacement at its offset, where it does not come about (`ListedForwards`).
- Framing.CopyWebSocketToProcess: sockets and cancellation; the list of events ends where the session is cancelled.
- Room join, administration and recovery scripts, repository access, containers and workspace files: branch by branch, or calls into foreign systems.
