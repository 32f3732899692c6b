# A verified model of KacheDB's data structures

KacheDB is an in-memory store built from hand-written structures: an open-addressed hash table, a hash
map inside one byte slot, a shared-memory ring, a streaming RESP parser with its connection buffer, a
proximity graph for vectors, a slab allocator, a timing wheel, an append-only log and a radix prefix
tree. Each has a simple meaning (a finite map, a queue, a list of frames) and a concrete form in which
that meaning is far from obvious. This project models the concrete forms in Dafny and proves that they
keep their meaning over every run.

| files | component |
|---|---|
| `OpenAddressing` | the theory both hash maps rest on: a ring of empty, buried and live cells in which no live cell is cut off from its home |
| `SwissProbe`, `SwissCompaction`, `SwissReclaim`, `SwissTable`, `SwissRuns` | the Swiss table: group probing, tombstones, grow and shrink, idle back-shift compaction |
| `LittleEndian`, `FrameModel`, `FrameRehash`, `FrameBytes`, `FrameSizing`, `HashSlotFrame`, `HashFrameUpsert`, `HashFrameCodec`, `FrameRuns` | the hash map inside a byte slot |
| `ShmRing` | the single-producer single-consumer ring as a step protocol |
| `RespLines`, `RespFrames`, `RespCommands`, `Connections` | the RESP codec and the connection's read window |
| `HnswSearch`, `HnswGraph`, `HnswIndex` | beam search, greedy descent and insertion in the layered proximity graph, and the keyed index over it |
| `SlabArena`, `SlabIndex`, `SlabPool`, `SlabRuns` | arenas, the pool over them, its indices, quotas and reclamation |
| `TimingWheel` | the hashed timing wheel |
| `AofLog`, `AofReplay` | the log's frame code and its recovery scan |
| `RadixTree`, `RadixTokens`, `RadixEviction` | the token prefix tree, the token sequences it spells, and its eviction |

Functions the structures treat as black boxes are parameters: the field hash of a frame, the checksum
of the log, vector distances, the command decoder, what a command does. The clock, the slab-id
registry, the operating system's allocator, the drawn level of a graph node and the outcome of a
socket read are parameters of the step that consults them.

## What holds, and what does not

Most promises hold as stated. Where one does not, the model keeps the code and proves exactly when the
promise is met. Arithmetic is that of a release build, in which integers wrap; with overflow checks the
wrapping negation of `write_int` and the overflowing tick of the wheel panic instead.

- The probe loops of the Swiss table end exactly when an empty control byte is left or the searched
  hash is present (`SwissProbe.ProbeFor`). The grow test counts live entries only, so tombstones can
  use up the last empty byte: `SwissRuns.TombstonesExhaustTable` builds an empty table of eight slots
  on which the next miss never returns. Fewer than capacity / 8 tombstones always leave room
  (`SwissTables.FewTombstonesLeaveEmpty`).
- `compact_one_group` is documented to return the number of tombstones reclaimed. It returns that
  number and its back-shifts on top (`SwissReclaim.SweepCounts`), so it is right exactly when no slot of
  the group is a tombstone that a live entry may move back onto (`SwissReclaim.ReclaimedIff`).
  `SwissRuns.TombstoneBeforeDisplaced` builds a table on which it returns two and removes one
  (`SwissRuns.CompactionOvercounts`).
- A frame stores a field length of zero as the empty marker. An upsert of an empty field succeeds
  exactly when there would be room for the pair. It then leaves a slot that counts one pair more than it
  lists, and lists exactly the old ones (`HashFrameUpsert.Upsert`, `HashFrameUpsert.SpoiledLists`);
  `FrameRuns.EmptyFieldIsLost` does this to a fresh 128-byte slot. With non-empty fields every result is
  exact.
- `pending` of the ring loads the head and then the tail. Called by the producer or the consumer it is a
  count the ring really had, at most the capacity. An onlooker gets the difference of what it loaded
  exactly when the consumer has not passed the loaded head in between (`ShmRing.PendingOverEveryRun`);
  one push and one pop between its loads make it 2^32 - 1 (`ShmRing.OnlookerMayWrap`).
- A RESP integer survives printing and parsing unless it is the least `i64`, which prints as a bare
  minus sign (`RespLines.ParsePrinted`).
- A recycled slot is always one that is still held; any other allocation never is, over every run in
  which only held ids are freed (`SlabRuns.NoAliases`). The quota's hard ceiling, 95 % of the pool rounded down, is never
  passed in a pool of 20 megaslabs or fewer, nor of 17245 or more, where the registry runs out first
  (`SlabPools.CanPassIff`, `SlabRuns.Run`). For every size in between a run of allocations passes it
  (`SlabRuns.CeilingIsPassed`). In a pool of one megaslab the ceiling is zero and nothing is ever served
  (`SlabRuns.OneMegaslabServesNothing`).
- The wheel drains entries with a lifetime of 3600 seconds or more early, 3599 ticks after they were
  scheduled (`TimingWheels.DueTickBounds`); its comment says they are re-evaluated on rollover, which the
  code does not do (`TimingWheels.LongLifetimeComesEarly`). Nothing
  comes out late, and shorter lifetimes never early, over every run (`TimingWheels.Run`). Advancing to
  the last second of `u32` never returns.
- A log frame survives the round trip exactly when its key is shorter than 65536 bytes and its value
  shorter than 2^32 (`AofLog.RoundTrip`); longer lengths are truncated when encoded.
- Inserting a token sequence stores all of it exactly when no child along the way begins like the next
  block and differs from it (`RadixTrees.InsertThenLookup`). The documentation assigns `slab_ids[i]` to
  block `i` and promises a panic when there are too few. The code gives the ids to the created nodes in
  order and leaves the rest without one. Distinct ids go where documented exactly when no block was
  there before, or none was created, or there are no ids (`RadixTrees.IdsByBlockIff`), and every created
  node gets one exactly when there are as many ids as created nodes (`RadixTrees.AllCreatedGetIdsIff`);
  `RadixTrees.SecondBlockTakesFirstId` shows both failing. A node without an id is never evicted, nor are
  its ancestors: eviction runs dry with exactly these and the pinned nodes left
  (`RadixEviction.EvictedOut`).
- The slot counts in the comments of the slab classes differ from what the code computes, for example
  16383 slots of 128 bytes and not 16256, and the one slot of the 2 MB class reaches 64 bytes past its
  megaslab (`SlabArenas.SlotCounts`).

## Model

| member | source | states |
|---|---|---|
| OpenAddressing.PutNew | crates/kachedb-hash/src/table.rs:262-276 | filling a free cell whose path from home is clear keeps every path clear and adds exactly that pair to the map |
| OpenAddressing.Bury | crates/kachedb-hash/src/table.rs:435-440 | a tombstone in place of a live cell keeps every other path clear and removes exactly that key |
| OpenAddressing.BackShift | crates/kachedb-hash/src/table.rs:594-624 | moving a live cell back onto a tombstone nearer its home keeps all paths and the map |
| OpenAddressing.ClearTombstone | crates/kachedb-hash/src/table.rs:594-624 | a tombstone that only tombstones separate from an empty cell may become empty without cutting any path |
| OpenAddressing.AbsentPastGap | crates/kachedb-hash/src/table.rs:296-323 | a key not met before the first empty cell from its home is not in the map |
| OpenAddressing.SlotCensus | crates/kachedb-hash/src/table.rs:628-630 | live, buried and empty cells partition the ring |
| OpenAddressing.RingStepIsModulo | crates/kachedb-hash/src/table.rs:233-323 | the step the model takes round the ring is the masked addition of the code |
| SwissProbe.MatchIsContents | crates/kachedb-hash/src/table.rs:296-323 | a slot with the fingerprint, the full hash and the wanted block exists exactly when the abstract map has that pair |
| SwissProbe.ProbeEndsIff | crates/kachedb-hash/src/table.rs:233-280 | the groups tile the power-of-two ring: some group ends the probe iff an EMPTY byte or a match exists, and then one of the first capacity / 8 groups does |
| SwissProbe.MatchInGroup | crates/kachedb-hash/src/table.rs:83-126 | the first matching slot of a group of eight, or none of the eight matches |
| SwissProbe.GroupHasEmpty | crates/kachedb-hash/src/table.rs:83-126 | true iff one of the eight slots of the group is EMPTY |
| SwissProbe.FirstAvailable | crates/kachedb-hash/src/table.rs:83-126 | the first EMPTY or DELETED slot of the group, every slot before it live, or all eight live |
| SwissProbe.ProbeFor | crates/kachedb-hash/src/table.rs:296-323 | finds a match iff there is one, spins iff there is neither match nor EMPTY byte, and otherwise stops at a group whose whole path from home has no EMPTY |
| SwissCompaction.FindBackshiftCandidate | crates/kachedb-hash/src/table.rs:642-670 | the scan returns the specified candidate: the first live cell after the tombstone, before any gap, that is nearer its home on the tombstone's slot |
| SwissCompaction.CandidateIsFirst | crates/kachedb-hash/src/table.rs:642-670 | the specified candidate is the first of the eight following cells that may move back, and is missing iff none may |
| SwissCompaction.ProbeChainClearAfter | crates/kachedb-hash/src/table.rs:674-684 | true iff only tombstones lie between the slot and the next EMPTY within the group |
| SwissCompaction.SlotIsCompacted | crates/kachedb-hash/src/table.rs:594-624 | a tombstone swaps with the first cell that may move onto it, else it empties iff only tombstones separate it from a gap, else it stays; any other cell stays |
| SwissCompaction.CompactSlotKeepsMap | crates/kachedb-hash/src/table.rs:594-624 | one slot of the sweep keeps validity, the map and the live count, and loses no EMPTY slot |
| SwissCompaction.SweepKeepsMap | crates/kachedb-hash/src/table.rs:594-684 | the whole eight-slot sweep keeps the map; tombstones never increase, EMPTY slots never decrease |
| SwissReclaim.CompactSlotCounts | crates/kachedb-hash/src/table.rs:594-624 | a back-shift leaves the number of tombstones as it was, a clearing takes one away, any other slot changes nothing |
| SwissReclaim.SweepCounts | crates/kachedb-hash/src/table.rs:584-624 | the number a sweep returns is the tombstones it removed and its back-shifts on top, for every ring |
| SwissReclaim.ReclaimedIff | crates/kachedb-hash/src/table.rs:584-624 | that is the number of tombstones removed iff before the sweep none of its slots is a tombstone that a live cell may move back onto; it is never less |
| SwissReclaim.ReclaimedTwiceForOne | crates/kachedb-hash/src/table.rs:584-624 | a ring of eight where one tombstone goes and two are reported |
| SwissTables.PutEntry | crates/kachedb-hash/src/table.rs:262-276 | writing control byte and entry at a free slot on the hash's path extends the map by exactly that entry |
| SwissTables.DeleteEntry | crates/kachedb-hash/src/table.rs:435-440 | a DELETED control byte removes exactly the entry's hash from the map |
| SwissTables.FewTombstonesLeaveEmpty | crates/kachedb-hash/src/table.rs:233-280 | at load 7/8 or less, fewer than capacity / 8 tombstones leave an EMPTY byte |
| SwissTables.LoadAfterInsert | crates/kachedb-hash/src/table.rs:233-241 | a table below the grow threshold is within load 7/8 after one more entry |
| SwissTables.Rehash | crates/kachedb-hash/src/table.rs:550-582 | rehashing into any multiple of eight that holds the entries keeps the map and the number of entries, leaves no tombstone, and leaves an EMPTY when there is one slot to spare |
| SwissTables.SwissTable.WithCapacity | crates/kachedb-hash/src/table.rs:170-179 | capacity is the next power of two, at least 8, and the table is the empty map |
| SwissTables.SwissTable.CountIsSize | crates/kachedb-hash/src/table.rs:152-163 | `count` is the size of the abstract map |
| SwissTables.SwissTable.Resize | crates/kachedb-hash/src/table.rs:550-582 | capacity changes, map and count do not; every probe ends afterwards, no tombstone is left and the compaction cursor is back at 0 |
| SwissTables.SwissTable.InsertTyped | crates/kachedb-hash/src/table.rs:225-281 | the map gains or replaces exactly this entry and the replaced block id is returned; capacity doubles exactly at the grow threshold; the call hangs iff no EMPTY byte is left, the hash is absent and the table is below that threshold |
| SwissTables.SwissTable.LookupChecked | crates/kachedb-hash/src/table.rs:296-323 | returns the map's entry, marked accessed, unless it is absent or `now` is non-zero and not before a non-zero expiry; nothing else changes |
| SwissTables.SwissTable.UpdateTtl | crates/kachedb-hash/src/table.rs:328-356 | sets the expiry of exactly a present entry whose expiry is zero or after a non-zero `now` |
| SwissTables.SwissTable.GetTtl | crates/kachedb-hash/src/table.rs:363-375 | -2 for missing or at or past a non-zero expiry, -1 for an expiry of zero, else the seconds left; the entry found is marked accessed and nothing else changes |
| SwissTables.SwissTable.Persist | crates/kachedb-hash/src/table.rs:380-412 | true iff an entry not yet expired had a non-zero expiry, which becomes zero; nothing else changes |
| SwissTables.SwissTable.Remove | crates/kachedb-hash/src/table.rs:418-460 | removes exactly the hash, returns its block id, length, expiry and type, and shrinks without losing another entry |
| SwissTables.SwissTable.RemoveIfMatching | crates/kachedb-hash/src/table.rs:465-510 | removes exactly an entry that still points at the expected block; hangs iff no EMPTY byte is left and there is no such entry |
| SwissTables.SwissTable.RemoveAt | crates/kachedb-hash/src/table.rs:435-452 | buries one entry, and halves the capacity exactly when the table is above the shrink bound and under 1/8 full |
| SwissTables.SwissTable.TombstoneCount | crates/kachedb-hash/src/table.rs:628-630 | the number of DELETED bytes; probes for absent hashes end iff it and `count` leave a slot over |
| SwissTables.SwissTable.LiveEntries | crates/kachedb-hash/src/table.rs:537-545 | lists every pair of the map with its fields, `count` in all |
| SwissTables.SwissTable.Clear | crates/kachedb-hash/src/table.rs:633-637 | the empty map at the same capacity |
| SwissTables.SwissTable.CompactOneGroup | crates/kachedb-hash/src/table.rs:584-624 | the ring afterwards is the specified sweep; map and count unchanged, tombstones not more, EMPTY slots not fewer, cursor eight further round the ring; returns the tombstones removed plus the back-shifts, hence the tombstones removed iff there is nothing to shift |
| SwissRuns.Step | crates/kachedb-hash/src/table.rs:225-637 | every operation is the operation on a finite map with the same reply, or hangs and changes nothing, which it does iff its target is missing, no EMPTY byte is left and, for an insert, the table is below the grow threshold |
| SwissRuns.RunAll | crates/kachedb-hash/src/table.rs:225-637 | over every run the table is the map the operations describe, every reply is that map's, and `count` is its size; a run stops early only at an operation whose probe never returns |
| SwissRuns.LastInsertIsFound | crates/kachedb-hash/src/table.rs:225-323 | after any operations, a lookup of a hash whose last change was an insert finds exactly that entry until its expiry; with expiry zero at every time |
| SwissRuns.RemovedIsGone | crates/kachedb-hash/src/table.rs:418-637 | after any operations, a lookup of a hash whose last change was a removal or a clear finds nothing |
| SwissRuns.TtlIsSeen | crates/kachedb-hash/src/table.rs:328-412 | an expiry set on a present entry is the one later lookups go by; one taken away is never gone by |
| SwissRuns.TombstonesExhaustTable | crates/kachedb-hash/src/table.rs:233-280 | eight insert-remove pairs leave an empty table of capacity 8 without an EMPTY byte |
| SwissRuns.TombstoneBeforeDisplaced | crates/kachedb-hash/src/table.rs:225-460 | two insertions with the same home and the removal of the first leave a tombstone before a displaced entry |
| SwissRuns.CompactionOvercounts | crates/kachedb-hash/src/table.rs:584-624 | on that table compaction returns two although its one tombstone is all that goes |
| FrameModel.GrowToLeast | crates/kachedb-hash/src/hash_frame.rs:353-405 | doubling stops at the least bucket count whose 70 % load bound leaves room |
| FrameModel.AppendedAccounted | crates/kachedb-hash/src/hash_frame.rs:353-405 | appending a pair keeps payload_end = 8 + live + dead bytes, regions disjoint and clear of the directory |
| FrameModel.OverwrittenAccounted | crates/kachedb-hash/src/hash_frame.rs:295-351 | overwriting in place moves the freed bytes to the dead count and keeps the byte balance |
| FrameModel.DeletedAccounted | crates/kachedb-hash/src/hash_frame.rs:208-253 | deletion turns the pair's bytes into dead bytes and keeps the balance |
| FrameModel.AppendNewOk | crates/kachedb-hash/src/hash_frame.rs:353-405 | appending a new field at the first available bucket of its path gives a valid frame for the extended map |
| FrameModel.RelocateOk | crates/kachedb-hash/src/hash_frame.rs:295-351 | moving a field to a larger value gives a valid frame for the updated map |
| FrameModel.OverwriteOk | crates/kachedb-hash/src/hash_frame.rs:295-351 | a shorter value in place gives a valid frame for the updated map |
| FrameModel.DeleteOk | crates/kachedb-hash/src/hash_frame.rs:208-253 | a tombstone gives a valid frame for the map without the field |
| FrameRehash.ListingOf | crates/kachedb-hash/src/hash_frame.rs:539-562 | the live buckets list the map once, without repeated fields, and their bytes are the live bytes |
| FrameBytes.BucketRoundTrip | crates/kachedb-hash/src/hash_frame.rs:134-158 | the ten bytes of a bucket decode to it |
| FrameBytes.WriteHeaderView | crates/kachedb-hash/src/hash_frame.rs:96-132 | rewriting the eight header bytes changes the three counters and nothing else of the frame |
| FrameBytes.WriteBucketView | crates/kachedb-hash/src/hash_frame.rs:134-158 | writing a bucket changes exactly that bucket of the directory |
| FrameBytes.GrowDirectoryView | crates/kachedb-hash/src/hash_frame.rs:409-451 | a larger zeroed directory over the free gap leaves the payload bytes as they were |
| FrameSizing.EmptyFieldBreaks | crates/kachedb-hash/src/hash_frame.rs:353-405 | appending an empty field never gives a valid frame: the map is the old one, without the field, and the live count one too many |
| FrameSizing.RebuiltFits | crates/kachedb-hash/src/hash_frame.rs:454-490 | during a rebuild the next pair fits exactly when header, pairs so far and the least directory fit the slot |
| FrameSizing.OwnPairsFit | crates/kachedb-hash/src/hash_frame.rs:454-490 | a frame's own pairs always fit a fresh frame of the same slot |
| HashSlotFrame.Init | crates/kachedb-hash/src/hash_frame.rs:69-92 | succeeds exactly for slots of 88 to 128 and of 168 to 4096 bytes; the frame is then the empty map with no dead bytes |
| HashSlotFrame.Find | crates/kachedb-hash/src/hash_frame.rs:167-198 | the probe finds the field's bucket, or the field is not in the map |
| HashSlotFrame.LiveCount | crates/kachedb-hash/src/hash_frame.rs:162-164 | the header's count, 0 for a slot without an accepted header; in a frame, the size of the map |
| HashSlotFrame.Get | crates/kachedb-hash/src/hash_frame.rs:167-198 | for any bytes, what the probe finds; in a frame the value the map has for the field, or nothing; an empty field is never found |
| HashSlotFrame.WalkIsMap | crates/kachedb-hash/src/hash_frame.rs:167-198 | in a frame the probe from the field's home ends with the map's value, or with nothing when the field is absent |
| HashSlotFrame.Delete | crates/kachedb-hash/src/hash_frame.rs:208-253 | removes exactly the field and says whether it was there; a slot without a frame is untouched |
| HashSlotFrame.UpsertProbe | crates/kachedb-hash/src/hash_frame.rs:264-292 | the bucket of a present field, or for an absent one the first available bucket of its path |
| HashSlotFrame.AppendPair | crates/kachedb-hash/src/hash_frame.rs:353-405 | the bytes written are the appended frame of the specification |
| HashSlotFrame.OverwriteValue | crates/kachedb-hash/src/hash_frame.rs:295-351 | the bytes written are the overwritten frame of the specification |
| HashSlotFrame.GrowDirectory | crates/kachedb-hash/src/hash_frame.rs:409-451 | a larger directory keeps the map, the counters and the live bytes |
| HashFrameUpsert.Upsert | crates/kachedb-hash/src/hash_frame.rs:258-406 | always returns; succeeds exactly when the pair fits after compaction and the least growth, and then the map has exactly that pair more; when full, the map is what it was even if compaction ran; an empty field that fits leaves a damaged slot; a rejected header is reported and the slot untouched |
| HashFrameUpsert.SpoiledLists | crates/kachedb-hash/src/hash_frame.rs:353-405 | a slot damaged by an empty field lists exactly the old map and counts one pair more than it lists |
| HashFrameUpsert.CompactAndRetry | crates/kachedb-hash/src/hash_frame.rs:258-406 | retrying after compaction gives the same outcome for the original frame |
| HashFrameUpsert.GrowAndRetry | crates/kachedb-hash/src/hash_frame.rs:361-373 | retrying after doubling the directory gives the same outcome for the original frame |
| HashFrameUpsert.Compact | crates/kachedb-hash/src/hash_frame.rs:454-490 | loses no pair, leaves no dead bytes, and uses the least directory that holds the entries; a rejected header is reported and the slot untouched |
| HashFrameUpsert.Rebuild | crates/kachedb-hash/src/hash_frame.rs:454-490 | every re-upsert into the reset slot succeeds, and the result holds exactly the listed pairs |
| HashFrameUpsert.IterPairs | crates/kachedb-hash/src/hash_frame.rs:539-562 | for any bytes, the pairs of the live buckets whose regions lie in the slot, in directory order; in a frame that is the map, each field once |
| HashFrameCodec.ParseListEncoded | crates/kachedb-hash/src/hash_frame.rs:566-617 | the encoded list reads back as the same list |
| HashFrameCodec.EncodePairs | crates/kachedb-hash/src/hash_frame.rs:566-576 | writes the header's count and every pair the slot lists, a zero count for a rejected header; in a frame the encoding of a listing of the map |
| HashFrameCodec.BuildFromPairs | crates/kachedb-hash/src/hash_frame.rs:579-617 | on success the slot is the map of the whole list; it leaves the frame damaged only at the first empty field, with the pairs before it listed; with distinct fields it does one or the other exactly when 8 + payload + 10 K fits, K the least doubling of the default that bears the entries; a failure in a usable slot leaves exactly the pairs before the item that is cut short or for which a frame with those pairs has no room |
| HashFrameCodec.LargerClassFits | crates/kachedb-hash/src/hash_frame.rs:579-617 | the pairs of a frame fit every slab class of its size or larger |
| HashFrameCodec.EncodeThenBuild | crates/kachedb-hash/src/hash_frame.rs:566-617 | encoding and rebuilding into an equal or larger class always succeeds and gives the same map |
| FrameRuns.Step | crates/kachedb-hash/src/hash_frame.rs:162-490 | each operation on the bytes is the operation on a map, and a put is refused exactly when the pair cannot fit; an empty field that fits damages the slot |
| FrameRuns.Run | crates/kachedb-hash/src/hash_frame.rs:69-490 | over every run from init, up to the first empty field for which there is room, the slot's bytes are a valid frame for the map of what was put and not deleted, every answer is that map's, and each put is refused exactly when it does not fit the frame at that point |
| FrameRuns.ReadSeesLastPut | crates/kachedb-hash/src/hash_frame.rs:162-406 | in every run a read answers with the value of the last stored put of its field, or with nothing after a drop, if no later operation stored or dropped it |
| FrameRuns.FirstPair | crates/kachedb-hash/src/hash_frame.rs:58-92 | a fresh slot of 128, 512 or 4096 bytes takes a first pair iff field and value have at most 40, 344 or 3768 bytes together, and is then the map of that pair |
| FrameRuns.EmptyFieldIsLost | crates/kachedb-hash/src/hash_frame.rs:69-406 | a fresh 128-byte slot takes an empty field, then counts one pair, lists none and finds nothing |
| ShmRing.IndexSurvivesWrap | crates/kachedb-shm/src/channel.rs:176-227 | with a power-of-two capacity the slot index is right even after the `u32` counter wrapped |
| ShmRing.NextKeepsInv | crates/kachedb-shm/src/channel.rs:176-227 | every single step of either side keeps the ring invariant |
| ShmRing.ExecKeepsInv | crates/kachedb-shm/src/channel.rs:176-227 | every interleaving of any length keeps it |
| ShmRing.FifoOverEveryRun | crates/kachedb-shm/src/channel.rs:176-227 | what was popped is a prefix of what was pushed, never more than the capacity behind |
| ShmRing.NeverSameSlot | crates/kachedb-shm/src/channel.rs:176-227 | producer and consumer never access the same slot at once |
| ShmRing.RefusalsAreRight | crates/kachedb-shm/src/ring.rs:114-127 | a push is refused iff the ring is full at its load of the tail, a pop iff the ring was empty at its load of the head, whatever the producer does before its load of the tail |
| ShmRing.PushCompletes | crates/kachedb-shm/src/channel.rs:176-205 | after any run a push taken to its end adds its value iff fewer than the capacity are pending |
| ShmRing.PopCompletes | crates/kachedb-shm/src/channel.rs:209-227 | after any run a pop taken to its end takes the oldest value not yet popped, or nothing if there is none |
| ShmRing.PendingOverEveryRun | crates/kachedb-shm/src/channel.rs:271-276 | with anything between its two loads, the value is the count at the second load when the producer calls, at the first when the consumer does, both at most the capacity; for anyone else it is the difference of the counts loaded iff the consumer has not passed the loaded head |
| ShmRing.OnlookerMayWrap | crates/kachedb-shm/src/channel.rs:271-276 | a push and a pop between the loads on an empty ring of any capacity give 2^32 - 1 |
| RespLines.FindCrlfScan | crates/kachedb-proto-resp/src/command.rs:334-336 | the scan returns the first CRLF or none |
| RespLines.FindCrlfStable | crates/kachedb-proto-resp/src/command.rs:334-336 | a CRLF once found stays where it is when bytes arrive |
| RespLines.ParsePrinted | crates/kachedb-proto-resp/src/frame.rs:165-189 | printing then parsing gives the integer back, except for the least `i64`, which does not parse |
| RespLines.WriteInt | crates/kachedb-proto-resp/src/frame.rs:165-189 | the digit loop appends the decimal text, with the wrapped negation of the code |
| RespLines.WriteUsize | crates/kachedb-proto-resp/src/frame.rs:192-210 | the digit loop appends the decimal text |
| RespFrames.FrameStable | crates/kachedb-proto-resp/src/frame.rs:30-160 | an answer other than incomplete is unchanged when bytes are appended |
| RespFrames.RoundTrip | crates/kachedb-proto-resp/src/frame.rs:30-266 | an encoded nested frame followed by anything parses to that frame and its exact length iff the frame is printable, else not to that frame |
| RespFrames.PrefixIsIncomplete | crates/kachedb-proto-resp/src/frame.rs:30-160 | every strict prefix of a printable frame's encoding is incomplete |
| RespFrames.WireForms | crates/kachedb-proto-resp/src/frame.rs:212-258 | the bytes of a simple string, an error, a bulk string and null |
| RespFrames.IntegerForm | crates/kachedb-proto-resp/src/frame.rs:234-239 | the bytes of a negative integer |
| RespFrames.ArrayForm | crates/kachedb-proto-resp/src/frame.rs:243-266 | the bytes of an array of a bulk string and null |
| RespFrames.ParseElementsLoop | crates/kachedb-proto-resp/src/frame.rs:128-160 | the element loop computes the recursive parser |
| RespFrames.EncodeInteger | crates/kachedb-proto-resp/src/frame.rs:234-239 | appends the integer frame |
| RespFrames.EncodeBulkString | crates/kachedb-proto-resp/src/frame.rs:243-251 | appends the bulk string frame |
| RespFrames.EncodeArrayHeader | crates/kachedb-proto-resp/src/frame.rs:261-266 | appends the array header line |
| RespCommands.CommandStable | crates/kachedb-proto-resp/src/command.rs:183-331 | a parsed command or a protocol error is unchanged when bytes are appended, for every decoder |
| RespCommands.ArgsAreFrames | crates/kachedb-proto-resp/src/command.rs:183-331 | arguments the command parser accepts are exactly the text elements the frame parser reads there |
| RespCommands.TextFramesAreArgs | crates/kachedb-proto-resp/src/command.rs:183-331 | conversely, text elements are accepted as arguments |
| RespCommands.MultiBulkReads | crates/kachedb-proto-resp/src/command.rs:183-331 | an array of any number of bulk strings followed by anything: the decoder gets exactly these strings and exactly their bytes are consumed |
| RespCommands.LineReadsCommand | crates/kachedb-proto-resp/src/command.rs:183-331 | a line that is no array followed by anything: the decoder gets exactly the line, and it and its CRLF are consumed |
| RespCommands.ParseArgsLoop | crates/kachedb-proto-resp/src/command.rs:183-331 | the argument loop computes the recursive parser |
| Connections.DrainLater | crates/kachedb-net/src/connection/mod.rs:171-208 | bytes that arrive later change nothing about what was drained before |
| Connections.DrainRests | crates/kachedb-net/src/connection/mod.rs:171-208 | what an open connection keeps holds no complete command |
| Connections.DrainIsExecuted | crates/kachedb-net/src/connection/mod.rs:171-208 | a drain executes one command after the other from the front, each on the state the one before it left, and ends at the first incomplete, bad or closing one |
| Connections.CommandsThenRest | crates/kachedb-net/src/connection/mod.rs:171-208 | whole commands in front of anything are executed in order and leave the rest to be drained from the state they lead to |
| Connections.WholeCommands | crates/kachedb-net/src/connection/mod.rs:171-208 | whole commands before an incomplete, a bad or a closing one: state, unread bytes and fate |
| Connections.FragmentationIsInvisible | crates/kachedb-net/src/connection/mod.rs:125-208 | draining after every fragment reaches the same state and fate, and the same unread bytes, as draining all bytes at once |
| Connections.SameBytesSameCommands | crates/kachedb-net/src/connection/mod.rs:125-208 | two ways of cutting the same bytes cannot be told apart |
| Connections.CommandParserStreams | crates/kachedb-proto-resp/src/command.rs:183-331 | the command parser, with any decoder, is a parser for which this holds |
| Connections.Connection.FeedBytes | crates/kachedb-net/src/connection/mod.rs:435-456 | through reset, compaction past half and growth, the window gains exactly the fed bytes |
| Connections.Connection.ReadFrom | crates/kachedb-net/src/connection/mod.rs:125-153 | through reset, compaction and doubling, the window gains exactly the bytes read; end of stream and errors as reported |
| Connections.Connection.ProcessIncoming | crates/kachedb-net/src/connection/mod.rs:171-208 | every complete command of the window is executed in order, each on the state the one before left; unread window and fate are where that ends |
| Connections.Connection.ServeFragments | crates/kachedb-net/src/connection/mod.rs:171-456 | feeding and processing any fragments executes the commands of their concatenation in order and leaves the connection where it would |
| Connections.Connection.ServeReads | crates/kachedb-net/src/engine.rs:486-541 | for any sequence of reads with data in any pieces, empty-handed reads, end of stream and errors: the commands of all bytes taken are executed in order, and the connection is closed at the end of stream and dropped at an error |
| HnswSearch.Offer | crates/kachedb-vector/src/hnsw.rs:456-471 | one neighbour is offered: the kept set stays the best of the visited nodes, at most ef |
| HnswSearch.Expand | crates/kachedb-vector/src/hnsw.rs:455-473 | after the inner loop every neighbour of the candidate is visited and nothing else was |
| HnswSearch.SearchLayer | crates/kachedb-vector/src/hnsw.rs:426-479 | terminates on every finite layer with distinct, sorted, reachable results, at most ef; a neighbour of a result, or the entry point, is a result unless ef results no farther were kept |
| HnswSearch.NearestIsLocalMinimum | crates/kachedb-vector/src/hnsw.rs:426-479 | the first result has no closer neighbour and is no farther than the entry point |
| HnswSearch.ShortAnswerIsComplete | crates/kachedb-vector/src/hnsw.rs:426-479 | with fewer than ef results, the results are exactly the reachable nodes |
| HnswSearch.Descend | crates/kachedb-vector/src/hnsw.rs:518-532 | the greedy loop ends, at a reachable node without a closer neighbour, no farther than where it began |
| HnswSearch.DescendLayers | crates/kachedb-vector/src/hnsw.rs:325-346 | the descent never moves away and stays inside nested layers |
| HnswSearch.Beam | crates/kachedb-vector/src/hnsw.rs:514-538 | the best result on layer 0 is a local minimum no farther than the top entry point |
| HnswGraphs.Select | crates/kachedb-vector/src/hnsw.rs:355-361 | the first results up to the degree bound: as many as the bound allows, each a result, the closest ones |
| HnswGraphs.BackLink | crates/kachedb-vector/src/hnsw.rs:373-391 | the list gains the id, or keeps only nearest ones up to the bound; without a vector it just grows |
| HnswGraphs.Connect | crates/kachedb-vector/src/hnsw.rs:363-391 | links the node both ways, changes no other list, and keeps links inside the layer, unrepeated and without loops |
| HnswGraphs.LinkLayer | crates/kachedb-vector/src/hnsw.rs:350-401 | search and linking in one layer: the node is linked to the results of a search there, as many as the bound allows, and the next entry point is a local minimum |
| HnswGraphs.GrownIsWellLinked | crates/kachedb-vector/src/hnsw.rs:350-401 | a layer a node was linked into: its neighbours are the closest results of a search, a result is left out only for a full list no farther, and a neighbour links back unless its own list is full of nodes no farther |
| HnswGraphs.InsertedWellLinked | crates/kachedb-vector/src/hnsw.rs:348-401 | an insertion leaves every existing layer up to the node's level so linked, with bound 2m on layer 0 and m above |
| HnswIndices.KeyAdded | crates/kachedb-vector/src/hnsw.rs:291-309 | a new node under a new key keeps the key map and the live nodes inverse to each other and adds exactly that entry |
| HnswIndices.HnswIndex.Insert | crates/kachedb-vector/src/hnsw.rs:245-412 | empty keys and wrong dimensions are refused without a change; otherwise the entries gain or replace exactly this key, an existing key keeps its node and the graph, a new one gets a node that is linked in every existing layer up to its level to the closest results of a search there |
| HnswIndices.HnswIndex.InsertNode | crates/kachedb-vector/src/hnsw.rs:295-412 | the node is linked in each existing layer up to its level to the closest results of a search there, at most 2m on layer 0 and m above; over every insert layer l holds exactly the nodes drawn to l or higher, live nodes keep the degree bound, layers are nested and the entry point is on top |
| HnswIndices.HnswIndex.Delete | crates/kachedb-vector/src/hnsw.rs:579-588 | drops exactly the key's entry and says whether there was one; the links and the graph's shape stay |
| HnswIndices.Filter | crates/kachedb-vector/src/hnsw.rs:540-566 | the nodes of the beam that are left, unexpired and similar enough, each once and nearest first |
| HnswIndices.HitsAreTop | crates/kachedb-vector/src/hnsw.rs:540-576 | each key once, most similar first, at most top_k; a qualifying node of the beam is left out only for top_k at least as similar ones |
| HnswIndices.HitsAreEntries | crates/kachedb-vector/src/hnsw.rs:540-576 | every hit is a present, unexpired entry with its stored payload and a similarity at or above the threshold |
| HnswIndices.NoHitIsMissing | crates/kachedb-vector/src/hnsw.rs:540-576 | a node of the beam that is there, unexpired and similar enough is a hit, unless top_k hits are at least as similar |
| HnswIndices.HnswIndex.Search | crates/kachedb-vector/src/hnsw.rs:482-577 | the refusals in their order; an empty index gives nothing; otherwise the top hits of a beam on layer 0 whose best node is a local minimum no farther than the entry point |
| SlabArenas.PackRoundTrip | crates/kachedb-core/src/arena.rs:95-113 | packing slab and slot into a `u32` loses nothing and misses nothing |
| SlabArenas.AllocateExact | crates/kachedb-core/src/arena.rs:210-227 | an arena never hands out a held id, and its bump prefix stays split into held and free slots |
| SlabArenas.FreeExact | crates/kachedb-core/src/arena.rs:257-266 | returning a held id keeps the split and the counter |
| SlabArenas.RecyclesEverySlot | crates/kachedb-core/src/arena.rs:231-239 | as many recycles in a row as the arena has slots hand out every slot exactly once and leave the arena as it was |
| SlabArenas.EmptyHoldsNone | crates/kachedb-core/src/arena.rs:297-306 | a zero counter means nothing in the arena is held |
| SlabArenas.CounterIsHeld | crates/kachedb-core/src/arena.rs:328-333 | the live counter is the number of held ids |
| SlabArenas.SlotCounts | crates/kachedb-core/src/slab.rs:52-97 | the slots of the six classes, and that header and slots fit a megaslab iff the class is not the 2 MB one |
| SlabIndices.RebuildIndices | crates/kachedb-core/src/pool.rs:386-407 | id map inverse to the arenas, class lists exact, active arena of its class and the first with room if any has room |
| SlabIndices.AllocateClean | crates/kachedb-core/src/pool.rs:123-158 | an allocation adds an id nobody held and keeps every arena exact |
| SlabIndices.RecycleClean | crates/kachedb-core/src/pool.rs:148-155 | recycling a full arena returns an id that is still held |
| SlabIndices.WithoutClean | crates/kachedb-core/src/pool.rs:316-320 | dropping an arena with a zero counter drops no held id |
| SlabPools.SlabPool.constructor | crates/kachedb-core/src/pool.rs:89-115 | an empty pool with both ceilings at 95 % of its megaslabs rounded down satisfies both invariants |
| SlabPools.CanPassIff | crates/kachedb-core/src/quota.rs:26-29 | a pool can be driven past its ceiling iff it has 21 to 17244 megaslabs |
| SlabPools.PassNeeds | crates/kachedb-core/src/pool.rs:240-250 | a pool that grows at the ceiling after a cold reclamation is such a pool |
| SlabPools.SlabPool.ReclaimCold | crates/kachedb-core/src/pool.rs:289-341 | drops the first arena of the other workload that is empty and idle for 30 s, iff there is one, and rebuilds the indices |
| SlabPools.SlabPool.Grow | crates/kachedb-core/src/pool.rs:228-283 | grows exactly when pool limit, quota or a cold reclamation, registry and system allow it, by one arena, in exchange for the first cold one at the ceiling; the claim rises by one; a growth that fails after the reclamation keeps it; an id is drawn exactly when limit and quota allow |
| SlabPools.SlabPool.Recycle | crates/kachedb-core/src/pool.rs:148-155 | the next slot of the ring of the arena whose turn it is, and the turn passes on |
| SlabPools.TurnsRotate | crates/kachedb-core/src/pool.rs:148-155 | from any cursor, as many turns as there are arenas of the class take each of them once, in order from the cursor on |
| SlabPools.SlabPool.AllocateExisting | crates/kachedb-core/src/pool.rs:139-157 | without growth: a slot of the first arena of the class with room, else the recycled slot whose turn it is, else none because the class has no arena |
| SlabPools.SlabPool.Allocate | crates/kachedb-core/src/pool.rs:123-158 | the active arena if it has room, else a new one if growth is possible, else those there are, else nothing; keeps all indices, counters and limits; an id already held comes back iff it was recycled; the registry's id is used up exactly when growth asks for it |
| SlabPools.RefusedIff | crates/kachedb-core/src/pool.rs:123-158 | an allocation is refused iff its class has no arena and growth does not ask the registry or gets an id below 16384 and no memory; it panics iff the active arena has no room and growth asks a registry past its 16384 ids |
| SlabPools.AsksMeans | crates/kachedb-core/src/pool.rs:228-283 | growth asks the registry iff the pool is below its limit and the workload below 95 %, or an arena of the other workload is empty and idle for 30 s |
| SlabPools.SlabPool.Deallocate | crates/kachedb-core/src/pool.rs:165-182 | returns the id to the arena that owns it, which becomes active if the active one is full, or reports that none owns it |
| SlabPools.SlabPool.TickSecond | crates/kachedb-core/src/pool.rs:189-195 | stamps exactly the arenas with live slots |
| SlabPools.SlabPool.ReclaimEmpty | crates/kachedb-core/src/pool.rs:351-383 | exactly the arenas with live slots stay, in order and with their stamps, with indices and quotas to match |
| SlabPools.OccupiedAre | crates/kachedb-core/src/pool.rs:351-383 | the arenas kept are exactly those that count a live slot |
| SlabRuns.Step | crates/kachedb-core/src/pool.rs:123-383 | one request has the specified effect on the pool, the registry's next id and the held ids, and the specified answer; without recycling and freeing only what is held, nothing held is handed out again |
| SlabRuns.Run | crates/kachedb-core/src/pool.rs:123-407 | over every run from an empty pool, with other pools drawing any ids in between, every request has the effect and the answer of its operation; slab ids stay below the registry's next, indices and counters agree with the arenas and, unless the pool has 21 to 17244 megaslabs, no claim is above its ceiling, at every moment; until the first recycle, while only held ids are freed, an id is handed out while held iff it was recycled; a run ends early only when the registry is out of ids |
| SlabRuns.CleanTo | crates/kachedb-core/src/pool.rs:123-407 | up to the first recycle, while only held ids are freed, every arena is split exactly into held and free slots at every moment |
| SlabRuns.NoAliases | crates/kachedb-core/src/pool.rs:123-407 | after such a start an id is handed out while held iff it was recycled |
| SlabRuns.CountersAreHeld | crates/kachedb-core/src/pool.rs:123-407 | after such a start every arena's counter is the number of ids held in it |
| SlabRuns.RefusedWhen | crates/kachedb-core/src/pool.rs:123-158 | in every run an allocation is refused iff its class has no arena and can get none |
| SlabRuns.CeilingIsPassed | crates/kachedb-core/src/pool.rs:89-283 | for every pool of 21 to 17244 megaslabs, a run of allocations after which the tensor workload claims one more than its hard ceiling |
| SlabRuns.OneMegaslabServesNothing | crates/kachedb-core/src/pool.rs:89-283 | a pool of at most one megaslab has no arena and never can grow one |
| TimingWheels.DueTickBounds | crates/kachedb-core/src/timing_wheel.rs:58-82 | the due tick is the later of expiry and tick for a lifetime under 3600 s, and exactly 3599 ticks after the scheduling for any longer one |
| TimingWheels.BucketIsDue | crates/kachedb-core/src/timing_wheel.rs:85-94 | within one turn a bucket holds exactly the entries of one tick |
| TimingWheels.Conservation | crates/kachedb-core/src/timing_wheel.rs:85-94 | drained and remaining entries together are the pending ones, as multisets |
| TimingWheels.BetweenIsDue | crates/kachedb-core/src/timing_wheel.rs:85-94 | whatever comes out is due in the ticks drained |
| TimingWheels.BetweenInOrder | crates/kachedb-core/src/timing_wheel.rs:85-94 | whatever comes out does so in the order of the due ticks |
| TimingWheels.TimingWheel.Schedule | crates/kachedb-core/src/timing_wheel.rs:58-82 | the entry becomes pending with the tick it was scheduled at and its due tick, in the bucket of that tick |
| TimingWheels.TimingWheel.Advance | crates/kachedb-core/src/timing_wheel.rs:85-94 | drains exactly the entries due by `now`, by tick and then in scheduling order; overflows iff `now` is the last `u32` |
| TimingWheels.CourseBalances | crates/kachedb-core/src/timing_wheel.rs:58-94 | over every sequence of operations each scheduling has come out once or is still pending |
| TimingWheels.SchedulingsAt | crates/kachedb-core/src/timing_wheel.rs:58-82 | the schedulings a run accounts for are those of its scheduling operations, in order, each with its own entry and the tick of that moment |
| TimingWheels.CourseInTime | crates/kachedb-core/src/timing_wheel.rs:58-94 | what came out did so at the first advance reaching its due tick, all earlier ones falling short of it, never after max(expiry, tick at scheduling), not before its expiry if its lifetime was under 3600 s, and 3599 ticks after its scheduling or later if it was not |
| TimingWheels.PendingIsLater | crates/kachedb-core/src/timing_wheel.rs:58-94 | what is pending is due after every time advanced to |
| TimingWheels.Run | crates/kachedb-core/src/timing_wheel.rs:58-94 | every run follows its course: tick, pending and output are those the operations determine; each scheduling came out exactly once or is still pending; what came out did so in time; what is pending is due after every time advanced to; a run stops early only at an advance to the last `u32` |
| TimingWheels.LongLifetimeComesEarly | crates/kachedb-core/src/timing_wheel.rs:58-94 | an entry with a lifetime of two hours stays in for 3598 seconds and is drained in the next |
| AofLog.EncodeFrame | crates/kachedb-server/src/aof.rs:110-131 | the buffer is the specified frame with the checksum of everything after the magic |
| AofLog.FrameLayout | crates/kachedb-server/src/aof.rs:110-131 | what a frame is byte by byte: magic 4B 41, operation 1 to 8, time, two- and four-byte lengths with the low byte first, key, value, checksum of all after the magic |
| AofLog.DecodedIsEncoded | crates/kachedb-server/src/aof.rs:135-198 | whatever decodes is byte for byte the encoding of the frame returned |
| AofLog.EncodedDecodes | crates/kachedb-server/src/aof.rs:110-198 | an encoded frame that fits, followed by anything, decodes to itself and its length |
| AofLog.RoundTrip | crates/kachedb-server/src/aof.rs:110-198 | the round trip succeeds iff key and value lengths fit their fields |
| AofLog.PrefixIsIncomplete | crates/kachedb-server/src/aof.rs:135-165 | every strict prefix of a frame is incomplete, not corrupt |
| AofReplay.DecodeReads | crates/kachedb-server/src/aof.rs:110-198 | the frame code, with any checksum, reads exactly the encoded frames |
| AofReplay.Replay | crates/kachedb-server/src/aof_recovery.rs:38-81 | the scan loop applies every whole frame at the front and reports their total length |
| AofReplay.ScannedIsLog | crates/kachedb-server/src/aof_recovery.rs:38-81 | the valid part of any bytes is the log of the frames it replays |
| AofReplay.CutLog | crates/kachedb-server/src/aof_recovery.rs:38-81 | a log cut anywhere replays exactly the frames wholly before the cut, with their length as the valid offset |
| AofReplay.WholeBeforeIsExact | crates/kachedb-server/src/aof_recovery.rs:38-81 | those frames end at or before the cut and the next one does not |
| AofReplay.TruncationSettles | crates/kachedb-server/src/aof_recovery.rs:71-81 | rescanning the truncated log finds the same frames and nothing to truncate, for any bytes |
| AofReplay.AppendAfterTruncation | crates/kachedb-server/src/aof_recovery.rs:71-81 | frames appended to a truncated log are replayed after those it kept |
| RadixTrees.DepthIsLongest | crates/kachedb-radix/src/tree.rs:119-159 | the matched blocks are the longest prefix of the query that is a path of the tree |
| RadixTrees.Blocks | crates/kachedb-radix/src/tree.rs:119-139 | the blocks joined are the query, every one but the last has sixteen tokens, and none is empty |
| RadixTrees.CutOnce | crates/kachedb-radix/src/tree.rs:119-139 | no other blocks of sixteen with a shorter last one join to the same query |
| RadixTrees.LookupPins | crates/kachedb-radix/src/tree.rs:119-159 | exactly the nodes of the longest matching path gain a pin and the time stamp |
| RadixTrees.LookupCounts | crates/kachedb-radix/src/tree.rs:119-159 | the matched token count is the number of tokens in that prefix |
| RadixTrees.LookupIds | crates/kachedb-radix/src/tree.rs:119-159 | the returned ids are the slabs of the matched nodes, in path order |
| RadixTrees.FullHitIff | crates/kachedb-radix/src/tree.rs:119-159 | the matched count is the query's length iff every block of it is in the tree |
| RadixTrees.InsertAt | crates/kachedb-radix/src/tree.rs:176-235 | insertion stamps met nodes and creates missing ones on the query's path, ids in creation order, and changes no other path |
| RadixTrees.InsertThenLookup | crates/kachedb-radix/src/tree.rs:176-235 | a looked-up query matches as far as it was placed, which is all of it iff nothing collides |
| RadixTrees.InsertCounts | crates/kachedb-radix/src/tree.rs:176-235 | the insertion counter is the number of nodes gained |
| RadixTrees.CreatedSlab | crates/kachedb-radix/src/tree.rs:161-235 | the j-th created node carries the j-th id, or none when there is no such id |
| RadixTrees.IdsByBlockIff | crates/kachedb-radix/src/tree.rs:161-235 | with distinct ids, id i goes to block i iff no block was there before, or none was created, or there are no ids |
| RadixTrees.InsertedCount | crates/kachedb-radix/src/tree.rs:176-235 | the blocks created are those placed beyond the ones already there |
| RadixTrees.AllCreatedGetIdsIff | crates/kachedb-radix/src/tree.rs:161-235 | every created node gets an id iff there are as many ids as blocks placed that were not there before |
| RadixTrees.SecondBlockTakesFirstId | crates/kachedb-radix/src/tree.rs:161-235 | sixteen tokens and then thirty-two with the same first block: the second block carries the first id given, and none when none is given |
| RadixTokens.HoldsIff | crates/kachedb-radix/src/tree.rs:119-235 | a token sequence is spelled by a path of the tree iff its blocks lead to a node |
| RadixTokens.LookupSpells | crates/kachedb-radix/src/tree.rs:119-159 | a lookup matches the longest run of whole blocks of the query, the short last one included, that some path spells |
| RadixTokens.LookupRoute | crates/kachedb-radix/src/tree.rs:119-159 | the nodes of the matched path gain one pin and the time, their slabs are the ids returned, in path order, and no other node changes |
| RadixTokens.InsertSpells | crates/kachedb-radix/src/tree.rs:176-235 | an insertion adds the runs of whole blocks of the query up to the first block that is missing while something else begins with its first token, and no other sequence |
| RadixTokens.BlockedIff | crates/kachedb-radix/src/tree.rs:205-216 | a block is blocked in that sense iff a child diverges inside it |
| RadixEviction.OldestCovers | crates/kachedb-radix/src/tree.rs:347-374 | no unpinned leaf is older than the one found, and one is found if there is any |
| RadixEviction.RemoveAt | crates/kachedb-radix/src/tree.rs:284-289 | removing a leaf takes its own path out of the tree and no other |
| RadixEviction.EvictIsOldest | crates/kachedb-radix/src/tree.rs:277-300 | one eviction removes one oldest unpinned leaf with a slab, or there is none |
| RadixEviction.PinnedSurvives | crates/kachedb-radix/src/tree.rs:277-300 | no sequence of evictions removes or changes a pinned node or one without a slab, or removes an ancestor of one |
| RadixEviction.EvictedOut | crates/kachedb-radix/src/tree.rs:277-300 | evicting as long as possible leaves below the root exactly the pinned nodes, those without a slab, and their ancestors |
| RadixEviction.EvictableIffCounted | crates/kachedb-radix/src/tree.rs:332-344 | eviction is refused iff the evictable count is zero |
| RadixEviction.CountsCandidates | crates/kachedb-radix/src/tree.rs:332-344 | the evictable count is the number of unpinned childless nodes with a slab |
| RadixEviction.EvictSpells | crates/kachedb-radix/src/tree.rs:277-300 | an eviction takes exactly one token sequence out of the tree, the one its node spelled |
| RadixEviction.RadixTree.LookupTokens | crates/kachedb-radix/src/tree.rs:119-159 | the matched tokens are a start of the query that a path of the tree spells, and no longer run of whole blocks is spelled; the ids are that path's slabs, exactly its nodes are pinned; a full hit iff the whole query is spelled; empty queries refused |
| RadixEviction.RadixTree.InsertTokens | crates/kachedb-radix/src/tree.rs:176-235 | the tree afterwards spells what it did and the runs of whole blocks of the query up to the first blocked one, and nothing else; siblings stay distinct and the node count right; empty queries refused |
| RadixEviction.RadixTree.EvictLru | crates/kachedb-radix/src/tree.rs:277-300 | takes out an oldest unpinned leaf with a slab and with it exactly the sequence it spelled, or there is none; keeps the shape and the node count right |
| RadixEviction.LookupAfterInsert | crates/kachedb-radix/src/tree.rs:119-235 | after one insertion into an empty tree a lookup matches nothing beyond the common prefix of the two, and all whole blocks they share |

## Left out

- Sockets, event loops, TLS, accept dispatch, the command line, benchmarks, Python bindings and configuration: plumbing around the modelled cores.
- Command execution and the decoding of arguments into commands: arbitrary functions here, so the connection's result holds for all of them.
- `ShmChannel::pop_blocking` and the memory mapping: they depend on condition variables and the system; the ring is modelled under sequential consistency, which also means that the acquire and release orderings are taken as given.
- Raw pointers, `madvise` and the byte layout of arena headers: arenas are identified by slab id and slot. The slot address computation is not modelled.
- SlabArenas.AllocateExact: arenas are values in the pool's list and not objects; the pool owns each of them exclusively, so update in place and update by value cannot be told apart.
- RadixTrees.InsertAt: nodes are values and the walk with a raw pointer is recursion on them; the pin counter is unbounded where the original is a wrapping `u32`.
- HnswSearch.SearchLayer: distances are real numbers, so rounding, infinities and NaN are not modelled; ties in the heaps may be broken in any way.
- HnswIndices.HnswIndex.Search: the similarity is any function that does not rise with the distance, as those of the three metrics are; vectors are known only through the distances passed to each call.
- SlabPools.SlabPool.constructor: the original multiplies by 0.95 in floating point and rounds down; the model takes the integer quotient of 95 times the size by 100.
- SlabRuns.Run: ends when the registry panics; what becomes of the worker and its pool is not modelled.
- TimingWheels.TimingWheel.Advance: `advance_to`, which frees the drained entries in the pool, is the same loop with a call to the pool's deallocation and is not modelled.
- HashFrameCodec.BuildFromPairs: followed up to the first empty field that is stored; what the original does with later pairs of the list on the damaged slot is not modelled. For a list with repeated fields the frame without room is stated to exist and not computed from the list.
- FrameRuns.Run: likewise ends at the first empty field that is stored.
- `needed_bytes` of the frame module: it starts from a different bucket count than `init`, so it does not guarantee a fit, and nothing here rests on it.
- `RadixTree::unpin` by slab id and the epoch wrapper: balanced only when slab ids are unique and present on every node.
- Log rewriting, snapshots, encryption at rest and the background log writer: not modelled.
- Applying a replayed log frame to the table: several commands write no frame, so replay is not claimed to reproduce the live state.
- SIMD kernels, quantisation error and the level distribution of the graph: numeric approximations.
