# ParaKV storage engine: a verified model

ParaKV keeps a key-value cache on local storage. Values live in the slots of fixed-size
*segment* files, each with an occupancy bitmap. An in-memory *index* maps every key to the
encoded offset of its slot. Changes of the index go to a *write-ahead log* of checksummed,
fixed-size records; a *checkpoint* dumps the index to a snapshot and empties the log. A
*segment manager* classifies segments as idle, appending or full, and *compaction* moves live
slots out of full segments and tells the index through a callback. On top, a backend stores
documents (value and metadata) and bounds their number by a least-frequently-used cache with
dynamic aging.

The project models these parts as imperative code over an abstract disk, and proves what the
engine is for:

* **The store is a map.** For every run of puts, gets, deletes, checkpoints and compactions,
  with any I/O request failing at any point, each answer is the one a plain map gives, and a
  failed operation changes nothing. Every refusal has its reason in the segments (`Runs.Run`).
* **Crashes are atomic.** `Disk.seen` collects every state the files pass through, so that a
  statement about all of it covers a process crash at every point, inside a write too. Every
  such state recovers the map before the operation or the map after it, never a dangling entry
  or another key's slot (`Index.Index.Put`, `Index.Index.Delete`, `Passes.RunCompaction`).
  Failed requests do not change that, with the exceptions listed below, and restarting goes on
  from there for every further run, compactions included (`Runs.Run`, `Runs.ResumeAfterCrash`).
  In a compaction of slots that all have entries, below the checkpoint threshold, the only such
  exception is a failed log write.
* **Compaction changes no meaning**, also when it stops half-way, and succeeds exactly when the
  live slots fit behind the target's cursor (`Compaction.Compact`). Until a source segment is
  emptied every file state recovers the same map, whatever becomes of the log; afterwards, if
  the log has the records of the slots that were moved out of it. Below the threshold it has the
  record of every moved slot exactly if no log write failed, which shows in its size. Without
  failures the size of the log before a finished pass decides whether the files can be
  recovered, if and only if (`Passes.RunCompaction`).
* **No slot is lost**, whatever happens to the log, unless a put or delete fails to write a
  bitmap or a compaction stops half-way. Occupied slots and index entries are in
  bijection, so the used counters of all segments add up to the size of the index
  (`Runs.Run`, `Conservation.SlotsAreEntries`).
* **The checksum is a polynomial remainder** and rejects every change confined to four
  consecutive bytes of a record (`Crc32.CrcIsPolynomialRemainder`, `WalCodec.BurstIsRejected`).
* **The eviction cache's list, key map and use-count multimap always agree**, and over keys every
  operation is a function of what was there before. It evicts exactly one key exactly when a new
  one meets a full cache: of the least used ones the one that has had its count for longest.
  Backend and cache hold the same keys, and a document that fits is stored whenever there is room
  (`Lfu.Cache.Insert`, `Lfu.PlacedIsOrdered`, `Backend.Backend.Put`, `Backend.Backend.Serve`).

## How it is organised

`Base`, `Buffers`, `Crc32`, `WalCodec`, `Offset`, `Bitmap`, `Layout`, `StateFile` and `Payload`
hold the formats. `Files` says what recovery reads and what it rebuilds, `Disk` adds writes that
may stop part-way. `Segment`, `Manager`, `Wal` and `Index` are the engine's classes; `Store`
holds the invariant that ties the index to the segments and the effect of every step on it.
`Allocation` says when a put finds no room. `Moves` is one slot on its way to another segment,
`Compaction` one segment emptied into another, `Passes` a pass over the chosen segments.
`Conservation`, `Recovery` and `Runs` build on the whole, `Lfu` and `Backend` are the upper layer.
`Limits` runs operations from states in which a promise fails, and builds such states.

Methods are kept short: each calls the next layer and one lemma over plain values (the table,
the segment states, the files, the states seen) that says what the step did.

## Where promises fail

The code was kept as it is. Each case has its exact condition, over the state before the
operation wherever the operation itself decides. `Limits` runs some of them, for every store that
meets the condition and for one that it restarts from given files.

* A compaction logs one record for each live slot it moves, before the index entry is remapped.
  When one of these records takes the log to the checkpoint threshold, the snapshot holds the old
  offset and the log is emptied, yet the source is recycled. If every slot to be moved has an
  entry, a finished compaction or a finished pass leaves recoverable files if and only if the
  log's size plus the records of all live slots stays below the threshold (`Compaction.Compact`,
  `Passes.RunCompaction`, `Limits.CheckpointDuringMoveLosesKey`, `Limits.KeyIsLost`). The slots
  themselves stay accounted for in both cases. A compaction that stops for lack of room recovers
  the map even after such a checkpoint, and a pass that stops early has the records it needs
  exactly if those of the segments it emptied stay below the threshold.
* The callback logs without looking. Moving a slot that no entry names gives its key the value of
  that slot at the next restart: a deleted key comes back, a newer value is replaced by the older
  one. A single move keeps recovery and memory in agreement exactly when its record is in the log
  and an entry names the slot, or neither, and without failures the record stays exactly below the
  threshold (`Moves.OnSlotMoved`, `Moves.MoveSlot`, `Limits.MovingLostSlotRevivesKey`,
  `Limits.KeyIsRevived`, `Limits.ValueIsReverted`). Such slots come from compactions that stopped
  for lack of room, from crashes between logging and freeing, and from failed requests.
* A log write or rotation that fails inside the callback is ignored there, and the source is
  emptied all the same. Below the threshold the records of all moved slots are in the log exactly
  if no log write failed, so a failed read, slot write, bitmap flush or sync does no harm to
  recovery there; and they are there exactly if the log has grown by one record for each
  (`Index.Index.AppendWal`, `Moves.MoveSlot`, `Compaction.Compact`, `Passes.RunCompaction`).
* A put whose log record was written but could not be synced returns an error and undoes itself
  in memory, but the record stays. Recovery agrees with memory exactly when this has not happened;
  otherwise it has the undone entry, and dangles unless freeing the new slot failed too
  (`Index.Index.Put`). A delete stays atomic even then, because it frees its slot only after
  success.
* A failed log rotation leaves the log closed. Later operations report success without logging,
  and a checkpoint leaves the old log beside the newer snapshot. Recovery then agrees with memory
  exactly when the old log does, key by key (`Index.Index.Checkpoint`, `Files.ReplayKeepsIff`,
  `Limits.StaleLogWins`, `Limits.PutIsForgotten`).
* A put can give up although some segment has room exactly when two filled segments come first,
  since it retires one and tries once more (`Allocation.GivesUpIffTwoFilled`, `Index.Index.Put`). In
  a store that starts with all segments idle there is never more than one appending segment, and a
  put then gives up only without room (`Runs.Run`).
* A compaction pass with live slots to move is refused while the only appending segments on offer
  are filled to the end and have deleted slots, whatever is idle. It finishes if whatever segment
  may be picked has room for all the live slots, and reports a lack of space only when nothing is
  idle or appending any more. A single round reports that exactly if no segment is on offer, and
  otherwise finishes exactly if the slots fit behind the cursor of the segment that is picked
  (`Passes.CompactOne`, `Passes.RunCompaction`).
* Aging stops at the first fresh key. It reaches every stale key exactly when the stale keys
  come first (`Lfu.AgesAllStaleIff`); an access puts a key before the last one, and whenever that
  last key goes stale first, aging does not reach it (`Lfu.AccessHidesStale`).
* A state file that lists a full segment twice makes the order of full segments repeat it
  (`Manager.OrderOnceIff`).
* A batch insert whose bitmap flush fails leaves bits set in memory that the counters do not
  count (`Segment.Segment.BatchInsert`).

Where comments and code differ, the model follows the code: the header of the index
(`parakv/core/index/index.h:59-65`) lists the log append before the map update, the code updates
the map first.

## Model

| member | source | states |
|---|---|---|
| `Crc32.BuildTable` | parakv/core/index/wal.cc:37-50 | each of the 256 entries is eight shift steps of its index |
| `Crc32.Compute` | parakv/core/index/wal.cc:134-140 | the table-driven loop computes the reflected bitwise register, whose bits are the complement of the remainder of polynomial division |
| `Crc32.CrcIsPolynomialRemainder` | parakv/core/index/wal.cc:37-54 | for every byte string the checksum is the complemented remainder, modulo the CRC-32 polynomial, of the message with its first 32 bits inverted and 32 zero bits appended |
| `Crc32.BurstChangesRegister` | parakv/core/index/wal.cc:52-54 | two messages that differ only inside four consecutive bytes leave different registers |
| `Crc32.ChecksumIffResidue` | parakv/core/index/wal.cc:159-168 | a stored checksum matches exactly when message and checksum together leave the fixed residue |
| `WalCodec.EncodeInto` | parakv/core/index/wal.cc:144-156 | writing the fields and then the checksum into a cleared buffer yields the record's encoding |
| `WalCodec.DecodeEncode` | parakv/core/index/wal.cc:144-174 | decoding an encoded record of any key width returns the record |
| `WalCodec.BurstIsRejected` | parakv/core/index/wal.cc:159-168 | a record damaged anywhere inside four consecutive bytes, also across the border to the checksum, is rejected |
| `Wal.Replay` | parakv/core/index/wal.cc:302-335 | the scan delivers the records before the first bad one in order, and the good offset is where they end; it fails exactly if a read does |
| `WalCodec.GoodBytesCounts` | parakv/core/index/wal.cc:331-332 | the good offset is the number of delivered records times the record size |
| `WalCodec.LogPrefixRecovered` | parakv/core/index/wal.cc:302-335 | any records followed by a torn or undecodable tail replay as exactly those records, and the good offset is their total length |
| `WalCodec.TruncateIsRepeatable` | parakv/core/index/index.cc:109-117 | a log cut at the good offset replays the same records and has the same good offset |
| `Offset.SlotRoundTrip` | parakv/core/index/offset.h:71-101 | segment and slot come back from an encoded offset, for all ids in range |
| `Offset.TiersAreDisjoint` | parakv/core/index/offset.h:65-91 | offsets of different storage tiers never coincide |
| `Bitmap.SetAt` | parakv/core/segment/segment_base.cc:125-128 | setting a bit occupies that slot and no other |
| `Bitmap.ClearAt` | parakv/core/segment/segment_base.cc:130-133 | clearing a bit frees that slot and no other |
| `Bitmap.TornAt` | parakv/core/segment/segment_file.cc:372-374 | a bitmap write stopped at any byte keeps every slot that is occupied before and after |
| `Layout.SlotIsInside` | parakv/core/segment/segment_base.cc:43-68 | every slot has its full size behind the bitmap and inside the segment |
| `Layout.SlotsAreDisjoint` | parakv/core/segment/segment_base.cc:43-68 | two different slots of a segment never overlap |
| `Layout.BitmapCoversSlots` | parakv/core/segment/segment_base.cc:43-68 | every slot has a bit |
| `Layout.BitmapIsAligned` | parakv/core/segment/segment_base.cc:43-60 | the bitmap area is the least multiple of the alignment with a bit for every slot of the first estimate |
| `Layout.UnalignedIsOptimal` | parakv/core/segment/segment_base.cc:43-68 | without alignment the slot count is the largest that fits together with its bitmap |
| `Layout.AlignmentCost` | parakv/core/segment/segment_base.cc:43-68 | alignment costs at most the slots that the padding can cover |
| `Files.LastWriterWins` | parakv/core/index/index.cc:546-557 | after a record for a key, what the table held before does not matter for that key |
| `Files.ReplayIsIdempotent` | parakv/core/index/index.cc:325-351 | replaying a log over the table it produced changes nothing, so a crash between snapshot rename and log truncation loses and revives nothing |
| `Files.ReplayKeepsIff` | parakv/core/index/index.cc:546-557 | replaying a log over any table leaves it alone exactly when, for every key the log mentions, its last record says what the table says |
| `Files.ReplayMixes` | parakv/core/index/index.cc:546-557 | a log replayed over another table than its own gives each key its last record or leaves what that table has |
| `Disk.Disk.WriteSlot` | parakv/core/segment/segment_file.cc:329-345 | every state during a slot write, torn ones included, differs from the old one in that slot only |
| `Disk.Disk.WriteBitmap` | parakv/core/segment/segment_file.cc:372-374 | every state during a bitmap write keeps the slots occupied before and after |
| `Disk.Disk.WriteWal` | parakv/core/index/wal.cc:86-98 | every state during a log write holds a part of the record behind the old log; a failed write, and nothing else, marks the log as missing a record |
| `Segment.StateMeans` | parakv/core/segment/segment_base.cc:147-155 | idle is nothing appended, full is the last slot appended and appending in between, whatever has been deleted |
| `Segment.AppendedIsConsistent` | parakv/core/segment/segment_file.cc:142-149 | an append keeps population count equal to used slots, used plus deleted equal to the cursor, and nothing occupied past the cursor |
| `Segment.FreedIsConsistent` | parakv/core/segment/segment_file.cc:258-272 | a delete keeps the counters in agreement with the bitmap |
| `Segment.EmptiedIsConsistent` | parakv/core/segment/segment_base.cc:157-164 | a reset segment is consistent and idle |
| `Segment.RebuiltIsConsistent` | parakv/core/segment/segment_file.cc:67-85 | reopening rebuilds consistent counters over the same occupied slots with the least covering cursor |
| `Segment.Segment.Open` | parakv/core/segment/segment_file.cc:34-88 | the scan of the bitmap of an existing file computes the used slots and the covering cursor; a failed or short read is reported as such |
| `Segment.Segment.Insert` | parakv/core/segment/segment_file.cc:106-150 | fills exactly the slot at the cursor; full exactly when the cursor is at the end, which is when the segment is in the full state or has no slots; a failed flush is undone; every file state on the way spares all other slots |
| `Segment.Segment.Read` | parakv/core/segment/segment_file.cc:209-241 | returns the stored slot, reports free and out-of-range slots, and a failed or short read as such |
| `Segment.Segment.Delete` | parakv/core/segment/segment_file.cc:243-272 | frees exactly one occupied slot, and restores the bit when the flush fails |
| `Segment.Segment.Recycle` | parakv/core/segment/segment_file.cc:315-317 | empties the segment in memory whether or not the flush succeeds |
| `Segment.Segment.BatchInsert` | parakv/core/segment/segment_file.cc:152-207 | all items land in order behind the cursor, or the counters stay; exactly after a failed flush the new bits stay set; every state on the way touches the slots behind the cursor only and keeps the occupied ones |
| `Segment.BatchIsHarmless` | parakv/core/segment/segment_file.cc:171-196 | in any state of a batch a table whose entries lie below the cursor stays stored, with the same map and the same recovery |
| `Wal.CompleteAppend` | parakv/core/index/wal.cc:224-234 | a complete log write adds exactly its record to the recovered table |
| `Wal.PartialAppend` | parakv/core/index/wal.cc:224-234 | a log write that stopped early is invisible to recovery |
| `Wal.WalWriter.Append` | parakv/core/index/wal.cc:236-249 | the record is in the log exactly when the write offset moved and exactly when the write did not fail, also when the sync then fails; every state on the way recovers the table with or without the record |
| `Wal.WalWriter.Rotate` | parakv/core/index/index.cc:559-575 | leaves an empty open log, or a closed one |
| `StateFile.ParseIff` | parakv/core/segment/segment_manager.cc:256-330 | a state file is accepted with given lists exactly when it starts with their encoding |
| `StateFile.ReadLists` | parakv/core/segment/segment_manager.cc:256-330 | the cursor-driven parser computes that parse |
| `Manager.SegmentManager.AddSegment` | parakv/core/segment/segment_manager.cc:89-117 | registers a segment once, in the class of its own state |
| `Manager.SegmentManager.MarkSegmentFull` | parakv/core/segment/segment_manager.cc:146-168 | moves a segment to the full class and to the end of the order, once |
| `Manager.SegmentManager.ReleaseSegment` | parakv/core/segment/segment_manager.cc:170-187 | moves a segment to the idle class and out of the order |
| `Manager.FreeMeansUnused` | parakv/core/segment/segment_base.cc:80-83 | the free slots a segment reports are all that are not used, the deleted ones below the cursor included |
| `Manager.SegmentManager.GetActiveSegment` | parakv/core/segment/segment_manager.cc:119-134 | returns an appending segment that reports free slots or a promoted idle one, retiring those without; none exactly if there is neither, and then nothing is idle or appending any more |
| `Manager.PickFindsRoom` | parakv/core/segment/segment_manager.cc:119-134 | with at most one appending segment the search fails only when no room is left |
| `Manager.SecondPickFindsRoom` | parakv/core/index/index.cc:469-478 | after a full segment is retired the second search succeeds exactly when an idle segment exists |
| `Manager.SegmentManager.SaveState` | parakv/core/segment/segment_manager.cc:205-222 | the file becomes the encoding of the three classes, full segments in order, and parses back to it; when the temporary file or the rename fails the former file stays; it fails exactly if a request does |
| `Manager.SegmentManager.LoadState` | parakv/core/segment/segment_manager.cc:256-389 | reclassifies by the file, skips unknown ids, classifies the rest by their own state, keeps the partition; corrupt exactly when the file does not parse, and failed exactly when it cannot be read; a missing, unreadable or rejected file changes nothing |
| `Manager.SavedStateIsRestored` | parakv/core/segment/segment_manager.cc:205-389 | loading what was saved over the same segments restores all three classes and the order |
| `Manager.OrderOnceIff` | parakv/core/segment/segment_manager.cc:332-350 | the loaded order lists each full segment once exactly when the file's list does |
| `Allocation.GivesUpIffTwoFilled` | parakv/core/index/index.cc:460-484 | while some segment has room the choices of segments let a put give up exactly when two filled segments come first: two appending ones on offer, the only one on offer and an idle one, or none on offer and two idle ones |
| `Store.SlotsAreExclusive` | parakv/core/index/index.cc:446-484 | two keys never share a slot |
| `Store.AppendKeeps` | parakv/core/segment/segment_file.cc:106-150 | an append, finished or not, keeps the invariant, the map and what recovery rebuilds |
| `Store.InstallNew` | parakv/core/index/index.cc:164-176 | pointing a key at its freshly written slot is a map update |
| `Store.FreeKeeps` | parakv/core/index/index.cc:446-458 | freeing a slot no entry names, finished or not, keeps the invariant, the map and recovery |
| `Store.MixKeeps` | parakv/core/index/index.cc:325-351 | a table that takes each key from one of three tables with the same map has that map, too, and keeps the invariant |
| `Store.ConservedUndone` | parakv/core/index/index.cc:178-191 | when an update is taken back only its new slot is left without an entry |
| `Index.Index.SnapshotAndRotate` | parakv/core/index/index.cc:325-351 | passes only through the old files, the new snapshot with the old log, and the new snapshot with an empty log |
| `Index.Index.AppendWal` | parakv/core/index/index.cc:514-544 | what recovery rebuilds after logging one change, in every state on the way, whatever the table in memory is; below the threshold the record is in the log exactly if the log write did not fail, and without failures the threshold alone decides whether the record or a snapshot of the present table stays |
| `Index.Index.WriteToSegment` | parakv/core/index/index.cc:460-484 | stores key and value in an appending segment, switching segments once, without touching the table; gives up when no segment is on offer, and with room left only when two filled segments come first |
| `Index.Index.FreeSlot` | parakv/core/index/index.cc:446-458 | frees the named slot and spares every other |
| `Index.Index.Put` | parakv/core/index/index.cc:145-196 | a map update or nothing, logged as exactly one insert or update record; atomic under a crash at any point, failed requests included; recovery agrees with memory exactly when the sync did not fail after the write, and otherwise has the undone entry; no slot lost unless a bitmap write failed, also when the log write did; gives up with room left only when two filled segments come first, and with at most one appending segment exactly without room |
| `Index.Index.Get` | parakv/core/index/index.cc:199-230 | returns the value of the map, not found exactly for absent keys; a failed or short read is reported and changes nothing |
| `Index.Index.Delete` | parakv/core/index/index.cc:237-261 | removes exactly the key or nothing, logged as exactly one delete record; atomic under a crash at any point, even when the sync fails; a failed delete whose record was not written is as if it had not been; no slot lost unless a bitmap write failed |
| `Index.Index.Checkpoint` | parakv/core/index/index.cc:325-351 | leaves the map alone, recovers it in every state on the way, installs the table as snapshot and empties an open log, after which recovery agrees with memory; with the log closed they agree exactly when the old log agrees with the table |
| `Moves.OnSlotMoved` | parakv/core/index/index.cc:389-424 | one update record, then compare and set: the map stays; recovery agrees with memory exactly when the record is in the log if and only if the entry names the old slot; below the threshold the record is missing exactly if a log write failed; when the entry names the slot every state on the way recovers the map, logged or not |
| `Moves.CopySlot` | parakv/core/segment/segment_file.cc:289-306 | the slot's key and value are appended to the target or nothing is; full exactly when the target is filled; every state on the way recovers what was recovered before |
| `Moves.MoveSlot` | parakv/core/segment/segment_file.cc:288-313 | one slot is copied and remapped, no entry is left behind, ownership of slots is kept whatever happens to the log; the record is there exactly below the threshold and without a failed log write, and with it recovery gives the slot's key the slot's value, whatever memory has; agreement with recovery has its exact condition; when an entry names the slot every state on the way recovers the same map, whatever fails |
| `Compaction.CopyAll` | parakv/core/segment/segment_file.cc:284-313 | the occupied slots are moved in order, one record and one target slot each, until the first failure; a checkpoint fires only when these records reach the threshold, and exactly then without failures; below it all records are there exactly if no log write failed, which the size of the log tells; when all slots have entries every state on the way recovers the same map, whatever fails, and memory agrees while every record is kept |
| `Compaction.EmptySource` | parakv/core/segment/segment_file.cc:315-317 | emptying a segment no entry names keeps map, recovery and the ownership of slots, in every state on the way |
| `Compaction.Compact` | parakv/core/segment/segment_file.cc:274-318 | the map is unchanged whatever fails; on success no entry names the source and no slot is lost; without failures it succeeds exactly when the live slots fit behind the target's cursor, and then the files are recoverable exactly when the records of the live slots stay below the threshold; however it ends the counters tell how many slots were moved, and below the threshold all their records are there exactly if no log write failed; with failures every state recovers the map unless a record is missing and the source was emptied |
| `Passes.Candidates` | parakv/core/segment/segment_manager.cc:397-418 | exactly the full segments at or above the deleted ratio that are not hot, each once |
| `Passes.NeedsCompactionIff` | parakv/core/segment/segment_base.cc:98-118 | a segment is worth compacting exactly if it is filled to the last slot and the deleted slots are at least the given part of it |
| `Passes.PickTarget` | parakv/core/segment/segment_manager.cc:424-427 | the segment picked is never the source; none is found exactly if none is on offer |
| `Passes.CompactOne` | parakv/core/segment/segment_manager.cc:420-462 | one round: refused exactly if no segment is on offer, and otherwise without failures finished exactly if the live slots fit behind the cursor of the segment picked, which is another one and not a full one; a finished round leaves the source idle, empty and flushed, a filled target full and the other full segments untouched; without room nothing changes; moved slots, log and recovery as for a single compaction |
| `Passes.CompactMoves` | parakv/core/segment/segment_file.cc:284-317 | in one compaction the used counters of all segments grow by the slots moved, less those of the source if it was emptied |
| `Passes.RoomyNext` | parakv/core/segment/segment_manager.cc:423-467 | if whatever may be picked has room for all remaining slots, a finished round leaves that so for those that then remain |
| `Passes.Rounds` | parakv/core/segment/segment_manager.cc:423-467 | the rounds over the candidates: what they reclaim, move, log and keep adds up, and the first failure stops them; they all finish if whatever may be picked has room for all live slots; the records from the emptied segments are all there if these stay below the threshold and no log write failed, and without failures exactly below it |
| `Passes.RunCompaction` | parakv/core/segment/segment_manager.cc:394-470 | the map is unchanged over the whole pass; however it ends, the deleted slots of exactly the emptied segments are reclaimed, which after a finished pass are those chosen at its start, and the counters tell how many slots were moved; a finished pass loses no slot; below the threshold the log has a record of each moved slot exactly if no log write failed; when all chosen slots have entries every state on the way recovers the map, whatever fails, unless the record of a slot from an emptied segment is missing; without failures none is missing exactly if those of the emptied segments stay below the threshold, and a finished pass leaves recoverable files exactly when its records do; at most one segment is appending afterwards; without failures it finishes if whatever segment may be picked has room for all live slots; refused while only filled segments with deleted slots are on offer; short of space only with nothing idle or appending left |
| `Conservation.KeysAreSlots` | parakv/core/segment/segment_base.cc:125-138 | the keys below a slot of a segment are as many as the occupied slots below it |
| `Conservation.SlotsAreEntries` | parakv/core/index/index.cc:145-261 | the used slots of all segments add up to the number of index entries |
| `Recovery.RecoveredInv` | parakv/core/index/index.cc:75-131 | what recovery rebuilds satisfies the invariant of a running store |
| `Recovery.CutLog` | parakv/core/index/index.cc:109-117 | cutting the log behind its last good record leaves a clean log that recovers the same table and map, and the same verdict whether it dangles |
| `Recovery.OpenSegments` | parakv/core/kvcache_storage/index_kvcache_storage_backend.cc:229-247 | every segment file is opened and registered with the state rebuilt from its bitmap, in the class of that state |
| `Recovery.Open` | parakv/core/index/index.cc:75-131 | for all files: rebuilds the table from snapshot and log and cuts the log behind its last good record; the store is valid exactly when no recovered entry dangles; every state on the way is the old files or the cut ones |
| `Recovery.Restart` | parakv/core/kvcache_storage/index_kvcache_storage_backend.cc:204-274 | for all files: a complete restart yields the recovered table over the rebuilt segments, whatever the state file holds; the segments are classified by that file exactly if it was read and parses, and otherwise each by its own state; the store is valid exactly when no recovered entry dangles; a crash on the way recovers the same |
| `Runs.AllIdleIsTidy` | parakv/core/segment/segment_manager.cc:89-117 | a store whose segments are all idle starts with the allocator's invariant |
| `Runs.Exec` | parakv/core/index/index.cc:145-351 | one operation: the answer of the map, its crash states, when a restart still agrees, when space runs out, when slots can be lost, and how much the log grows; for a compaction which segments it emptied and how many slots it moved, and, when it fits below the threshold, that a record is missing exactly if a log write failed and exactly if the log is shorter than the slots moved make it; every refusal has its reason: a put gives up with room left only behind two filled segments, a checkpoint is refused exactly without a snapshot directory, a compaction finishes when there is room for whatever it picks; a finished checkpoint has installed the table and emptied an open log |
| `Runs.Run` | parakv/core/index/index.cc:145-351 | every run answers as a map does, whatever fails, and keeps the allocator's invariant, under which a put reports a lack of room exactly without room; it loses no slot while puts and deletes fail to write no bitmap and compactions find room; every refusal has its reason in the segments at that point; the crash states of any operation recover the map before or after it unless before it a put or delete found the log closed or left its record unsynced, or a compaction moved slots without entries or lost a record, which below the threshold takes a failed log write; a bound on the log before a run without failures rules all that out |
| `Runs.ResumeAfterCrash` | parakv/core/kvcache_storage/index_kvcache_storage_backend.cc:204-274 | after a crash during any operation a restart goes on, for every further run with compactions and failing requests, from the map before or after it, and the next crash is covered in the same way, with the segments in the classes that the saved state or their own states give them |
| `Limits.CheckpointDuringMoveLosesKey` | parakv/core/index/index.cc:389-410 | run on any store where the live slots reach the threshold, a successful compaction keeps the map and leaves files that cannot be recovered |
| `Limits.KeyIsLost` | parakv/core/index/index.cc:389-410 | given files recover one key; a restart and one compaction, which succeed unless a request fails, leave files that cannot be recovered |
| `Limits.MovingLostSlotRevivesKey` | parakv/core/index/index.cc:389-410 | run on any slot no entry names, a move that finds room and meets no failure keeps the map and makes recovery find the slot's key with the slot's value: a key without an entry comes back, a newer value is replaced |
| `Limits.KeyIsRevived` | parakv/core/index/index.cc:389-410 | given files with a slot no entry names recover no key; after a restart and one move, which succeed unless a request fails, they recover its key with its value |
| `Limits.ValueIsReverted` | parakv/core/index/index.cc:389-410 | given files recover the newer of two values of a key; after a restart and one move of the older slot, which succeed unless a request fails, they recover the older one |
| `Limits.StaleLogWins` | parakv/core/index/index.cc:514-575 | run with the log closed on any key the old log mentions, a put and a checkpoint that both succeed leave files that recover something else; they do succeed when no request fails, the value has its size and there is room |
| `Limits.PutIsForgotten` | parakv/core/index/index.cc:514-575 | given files with one logged key; with the log closed a put and a checkpoint succeed unless a request fails, and then the files do not recover the table |
| `Lfu.SpliceMoves` | parakv/core/cache/lfuda_cache.h:365-370 | splicing a node forward moves exactly that node |
| `Lfu.Cache.EraseEntry` | parakv/core/cache/lfuda_cache.h:307-315 | removes the first entry with that count and node and nothing else, or nothing if there is none |
| `Lfu.Cache.Emplace` | parakv/core/cache/lfuda_cache.h:413-415 | adds an entry behind all entries of the same count |
| `Lfu.PlacedIsOrdered` | parakv/core/cache/lfuda_cache.h:411-415 | a key that reaches a count keeps the ranking ordered by count and, within a count, by the time since which it is held |
| `Lfu.AgedIsOrdered` | parakv/core/cache/lfuda_cache.h:437-461 | aging keeps that order: each aged key counts as having reached its new count when its turn came |
| `Lfu.AccessOutcome` | parakv/core/cache/lfuda_cache.h:411-422 | an access keeps list, key map and multimap in agreement and moves the key to the last place but one |
| `Lfu.EraseOutcome` | parakv/core/cache/lfuda_cache.h:365-377 | erasing keeps the three structures in agreement and the other keys in order |
| `Lfu.InsertOutcome` | parakv/core/cache/lfuda_cache.h:336-355 | filling the first free node keeps the three structures in agreement |
| `Lfu.Cache.DoAccess` | parakv/core/cache/lfuda_cache.h:411-422 | counts one use, stamps the time, promotes the key in the list, and puts it behind all keys of its new count in the ranking |
| `Lfu.AccessedMeans` | parakv/core/cache/lfuda_cache.h:411-422 | an access adds one to the count of its key and changes neither the elements nor the relative order of the others |
| `Lfu.Cache.DoErase` | parakv/core/cache/lfuda_cache.h:365-377 | exactly one key leaves contents, list and ranking |
| `Lfu.Cache.DynamicAge` | parakv/core/cache/lfuda_cache.h:437-461 | terminates, ages exactly the longest stale prefix of the list, each key once and in turn, with its place in the ranking, and returns its length |
| `Lfu.AgingIsDone` | parakv/core/cache/lfuda_cache.h:437-461 | afterwards the head of the list is fresh or the list is empty |
| `Lfu.AgedPlaces` | parakv/core/cache/lfuda_cache.h:441-458 | the keys that have not aged keep their order in front, and of the others the last aged comes first |
| `Lfu.AgesAllStaleIff` | parakv/core/cache/lfuda_cache.h:441-444 | every stale key has aged exactly when the stale keys come first |
| `Lfu.AccessHidesStale` | parakv/core/cache/lfuda_cache.h:417-421 | for every list and cache: when the last key goes stale while the accessed key is fresh, aging stops before it |
| `Lfu.Cache.QueueListsKeys` | parakv/core/cache/lfuda_cache.h:474-488 | the used part of the list holds every resident key exactly once |
| `Lfu.Cache.RankingListsKeys` | parakv/core/cache/lfuda_cache.h:474-488 | the ranking holds every resident key exactly once, by use count |
| `Lfu.Cache.DoPrune` | parakv/core/cache/lfuda_cache.h:424-435 | after aging exactly the first key of the ranking leaves, which has the least use count, with its value handed out |
| `Lfu.Cache.Insert` | parakv/core/cache/lfuda_cache.h:317-355 | insert and update as allowed; evicts one key exactly when a new key comes into a full cache, the first of the ranking after aging, and hands out its key and value; list, ranking and elements afterwards are a function of those before |
| `Lfu.Cache.Find` | parakv/core/cache/lfuda_cache.h:379-393 | returns the last value stored, counts a use unless peeking, evicts nothing, and changes list, ranking and elements in no other way |
| `Lfu.Cache.Erase` | parakv/core/cache/lfuda_cache.h:155-164 | removes exactly the key, and says whether it was there |
| `Payload.EncodeInto` | parakv/core/kvcache_storage/index_kvcache_storage_backend.cc:124-157 | builds the payload in place, or refuses exactly when it does not fit |
| `Payload.DecodeEncode` | parakv/core/kvcache_storage/index_kvcache_storage_backend.cc:124-182 | value and metadata come back from their payload |
| `Payload.DecodedIsEncoded` | parakv/core/kvcache_storage/index_kvcache_storage_backend.cc:159-182 | what is accepted is an encoding up to the bytes behind the metadata |
| `Backend.Backend.Put` | parakv/core/kvcache_storage/index_kvcache_storage_backend.cc:335-378 | stores the document or nothing; a size refusal is exact, and full storage is reported with room left only behind two filled segments, with at most one appending segment only without room; evicts exactly when a new key meets a full cache, the key the cache ranks first after aging; cache and index keep the same keys exactly when the eviction could be carried out |
| `Backend.Backend.Get` | parakv/core/kvcache_storage/index_kvcache_storage_backend.cc:380-429 | returns the stored document and counts one use of its key, a miss exactly for absent keys; an unreadable document is reported and nothing changes |
| `Backend.Backend.Delete` | parakv/core/kvcache_storage/index_kvcache_storage_backend.cc:431-455 | removes the document from index and cache, or neither |
| `Backend.Backend.OnEvict` | parakv/core/kvcache_storage/index_kvcache_storage_backend.cc:293-303 | the evicted key leaves the index unless storage fails |
| `Backend.Backend.Rebuild` | parakv/core/kvcache_storage/index_kvcache_storage_backend.cc:305-312 | a fresh cache gets exactly the recovered keys, each with one use |
| `Backend.Backend.SameIsBounded` | parakv/core/kvcache_storage/index_kvcache_storage_backend.cc:277-290 | while cache and index agree the index holds at most the cache's capacity |
| `Backend.Backend.Respond` | parakv/core/kvcache_storage/index_kvcache_storage_backend.cc:335-455 | one request: answer, documents, list, ranking and elements of the cache afterwards are what those before it and the segments determine, up to storage trouble in this request; a document the request did not name goes only by eviction, exactly when a new key meets a full cache, and is the one ranked first |
| `Backend.Backend.FittingPutIsDone` | parakv/core/kvcache_storage/index_kvcache_storage_backend.cc:353-377 | without storage trouble a put of a document that fits is done unless there is no room or two filled segments come first, and with at most one appending segment exactly if there is room |
| `Backend.Backend.Serve` | parakv/core/kvcache_storage/index_kvcache_storage_backend.cc:335-455 | in every run each answer and each next state of documents and cache follow from the state before it and the trouble storage caused in that request; without any, cache and index hold the same keys, within the capacity |

## Left out

- Concurrency: every operation is one serialized step. The code does not order map updates and log appends of different threads, and the model makes no claim about them.
- Power loss: `Disk.seen` covers a crash of the process. Segment data that was written and not synced is taken to survive.
- The block-device segment, which repeats the file segment over another interface.
- Opening a store with a changed configuration; a store without a log path.
- Hot and cold tracking of segments: the set of segments exempt from compaction is arbitrary.
- The format of the snapshot dump: it is an exact copy of the map, installed by an atomic rename. A snapshot that cannot be loaded is not modelled.
- The RPC service, clients, registry, flags, statistics, TTL and the in-memory backend, which hold no logic of the storage engine; the raw-pointer entry points, null-pointer checks and retries of interrupted calls.
- Keys are byte strings of one configured width, as the compile-time key type makes them; hashing and printing of keys is left out.
- Floating point: the deleted ratio and the aging ratio are reals, without rounding.
- Index.Index.Get: without the branches for other storage tiers and unregistered segments, which the invariant makes unreachable.
- Segment.Segment.Open: for files that exist with their configured size; creating and sizing a missing file is left out.
- Manager.SegmentManager.GetActiveSegment: the code removes segments from the set it is iterating over; the model goes on with the segments not visited yet.
- Moves.OnSlotMoved: called in place; the weak pointer to an index that no longer exists is not modelled.
- Backend.Backend.OnEvict: called after the cache has inserted the new key instead of in the middle; nothing reads either object in between.
- Backend.Backend.Rebuild: only for recovered maps that fit the capacity. Beyond it the callback would delete from the map that is being iterated.
- Lfu.Cache.Insert: for capacities of at least one, which the backend guarantees; with capacity zero the code dereferences the end of its list.
- Index.Index.Put: crash atomicity is stated for stores whose log is open and agrees with memory, which every operation keeps unless a record stays unsynced or a rotation fails.
- Passes.RunCompaction: when a request failed and the record of a slot from an emptied segment is missing, nothing is said about what recovery finds; a later checkpoint in the same pass may have repaired it.
