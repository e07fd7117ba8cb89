# Olric in Dafny

Olric is a partitioned in-memory key/value store. This project models the parts of it whose
correctness is hard to see, and proves what they promise.

- **Storage engine.** `Codec`, `TableModel`, `TableBytes`/`TableClass`, `StoreModel`, `CompactionModel`,
  `StoreHistory`, `EngineLaws`, `AccessTimes`, `StoreExamples`, `KVStoreClass`, `Scan`, `ScanStore`, `ScanExamples`.
  Append-only byte tables with an offset index, table rollover, recycling, compaction, transfer and scans. Values
  (`TableModel`, `StoreModel`) give the meaning; the classes work on the byte array and the table list in place and
  are proved equal to those values, step by step.
- **Placement.** `RingModel`, `RingLoads`, `RingClass`, `Placement`, `RingPlacement`. The consistent hash ring with
  bounded loads, and the owner lists the coordinator recomputes from it.
- **Routing.** `Routing`, `Epochs`, `SyncState`. Numbered table pushes, rebalance epochs and their acks, and the
  tracking of partitions a member still waits for.
- **Data.** `Merge`, `Versions`, `Balancer`, `BalancerLaws`, `BalancerEngine`, `Quorum`, `QuorumTight`, `QuorumLaws`. Last-write-wins
  merging, moving tables between members under failures, quorum writes and reads.
- **Locks.** `Locker`, `DistributedLock`. In-process named locks and the distributed lock built on them.

Conventions. Hashes are functions given with the configuration; nothing is known about them except where a
hypothesis says that points or names do not collide. Times are parameters. Concurrent code is a step machine: a
critical section is one step, and every interleaving of the steps is a run. A remote call is a step that is applied
and acknowledged, or fails, possibly after being applied. A panic of the source is an outcome, not a precondition.
In-place updates of a class are specified by a function of its old state.

## What does not hold

The code is modelled as it is. Where a promise fails, the exact condition is proved.

- A record of exactly the table size passes the size check of `Put` and fits no table, so the retry loop never
  ends: `StoreModel.PutLoopTerminates` shows that some attempt succeeds if and only if the record is shorter.
- Repeated compaction reaches `done` if and only if the table size is positive or there are no tables:
  `CompactionModel.CompactionTerminates`. A table size of zero is accepted, and an engine forked with it, as every
  fragment's engine is forked, has a table from the start: `StoreHistory.ForkedNeverDone` shows that it is the only
  engine that never gets there, after any history without drops; `StoreHistory.HistoryDone` is for histories with them.
- After a transfer dropped the tail table, the tail can be a recycled table, and a later write into it can be
  deleted by the cleanup of compaction. Over histories with drops the engine is the plain map as long as no
  compaction finds an expired recycled tail that holds entries beside another table that stays, and that is the only
  way it fails: `StoreHistory.DropsRefineMap`, `StoreHistory.StepRefines`, `StoreHistory.LosingShows`.
  `StoreExamples.DropThenCleanupLoses` is a history of a new or forked engine that gets there. Without drops it cannot
  happen: `StoreHistory.DropFreeLossless`. For the cluster, such a compaction loses a newest version if and only if no other
  fragment of the same partition and map on a live member holds it: `Balancer.CompactionConservesIff`. Fragments of
  other maps do not count, since keys of different maps can have one hash.
- Recycled tables have coefficient zero, so the cleanup takes coefficient zero out of the index exactly when it finds
  an expired recycled table beside another one, and the entries of the first table are then not seen by scans:
  `ScanStore.CleanupForgetsZero`, `ScanStore.FirstTableUnseen`, and a history that gets there,
  `ScanExamples.CleanupHidesEntry`.
- A scan passes over the first table after a gap in the coefficients: `Scan.RouteIff` says exactly which tables, and
  every scan is complete if and only if the coefficients are contiguous: `Scan.RouteAllIff`, `Scan.AlwaysCompleteIff`.
- A scan divides by the table size: it panics if and only if there are tables and their size is zero,
  `Scan.ScanCommon`, which without compaction and drops is a forked engine of table size zero, `ScanStore.FullScan`.
- With two or more distinct ring points a member, placement succeeds if and only if the average loads add up:
  `RingLoads.PlacesIff`. With one point it succeeds when the loads of all members but one add up,
  `RingLoads.PlacesWithSpare`, and may panic beyond that: `RingLoads.OnePointTight` with two members, and
  `RingLoads.LoneMember` for a lone member, which cannot be given a partition at all.
- When the coordinator fails to install its own new table and the next recomputation gives back the table it still
  has, two different tables carry one number: `Routing.NumbersAgreeIff` shows that this is the only way.
- Every read starts with the primary's own copy, so with members of one table size reads are never stale, for any
  quorums (`Quorum.UniformReads`). They can be stale when a record is refused by the primary and stored by backups with
  larger tables: `QuorumTight.NeverStaleIff` shows that reads are never stale if and only if R + W exceeds the node
  count or the backups' table size is at most the primary's plus one.
- A synchronous put counts the backups even when the primary refuses the record. For a key of 256 bytes or more, or a
  record longer than the primary's tables and shorter than the backups', and a write quorum the backups reach, two
  Locks in a row are both granted: `DistributedLock.BypassedHolders`. An asynchronous put may reach the backups after
  the Unlock; when the backups alone reach the read quorum, a second Unlock with that token finds it there, and can
  delete the lock of the next holder: `DistributedLock.LaggingHolders`, for every such quorum.
  `DistributedLock.ExclusiveIff` and `DistributedLock.ExclusiveMeans` show that these are the only ways the lock is
  not exclusive.

## Model

| member | source | states |
|---|---|---|
| Codec.FromToBytes | internal/kvstore/entry/entry.go:85-144 | a big-endian field that fits its width is read back as it was written |
| Codec.BytesAt | internal/kvstore/entry/entry.go:85-121 | a field is written with its highest byte first |
| Codec.WordRoundTrip | internal/kvstore/entry/entry.go:103-112 | every signed 64-bit field survives its two's complement word |
| Codec.WordIs | internal/kvstore/entry/entry.go:103-112 | a signed field is stored as its value modulo 2^64 |
| Codec.LayoutFields | internal/kvstore/entry/entry.go:85-121 | where each field of a record lies, in bytes |
| Codec.ParseLayout | internal/kvstore/entry/entry.go:123-144 | decoding the layout of an encodable entry gives the entry, whatever bytes follow it |
| Codec.LayoutParse | internal/kvstore/entry/entry.go:85-144 | the other direction: every buffer that is exactly one record is the layout of what it decodes to |
| Codec.DecodeInvertsEncode | internal/kvstore/entry/entry.go:85-144 | Decode inverts Encode if and only if the key is under 256 bytes and the value under 2^32 bytes |
| Codec.Encode | internal/kvstore/entry/entry.go:85-121 | the buffer filled field by field at a moving offset is the layout of the entry |
| Codec.WriteRecord | internal/kvstore/table/table.go:161-193 | writing a record into a table's memory changes exactly its own range, to its layout |
| TableModel.DeleteInv | internal/kvstore/table/table.go:351-390 | Delete keeps inuse + garbage = offset, inuse = sum of live sizes, offset index = live offsets, disjoint records |
| TableModel.AppendInv | internal/kvstore/table/table.go:110-194 | so does a write that fits, replacing an older version or not |
| TableModel.TouchInv | internal/kvstore/table/table.go:309-349 | so does the last-access update of Get, which changes no other record |
| TableModel.UpdateTTLInv | internal/kvstore/table/table.go:392-415 | so does UpdateTTL |
| TableModel.NoLiveBytes | internal/kvstore/table/table.go:422-430 | a table has no bytes in use if and only if it has no entry |
| TableModel.ResetClean | internal/kvstore/table/table.go:453-463 | Reset of a table without live bytes is a new table, apart from its recycled state |
| TableBytes.HoldsAppend | internal/kvstore/table/table.go:139-194 | bytes written at the tail leave every other record's bytes as they were |
| TableBytes.HoldsRewrite | internal/kvstore/table/table.go:309-415 | a field rewritten in place changes one record's bytes and no other's |
| TableClass.Table.Put | internal/kvstore/table/table.go:139-194 | the byte array and the maps after Put are the model's Append; both error cases leave the table |
| TableClass.Table.PutRaw | internal/kvstore/table/table.go:110-134 | the same for a raw record, which keeps its own last access |
| TableClass.Table.Get | internal/kvstore/table/table.go:274-349 | Get returns the stored entry and updates only its last access, in the bytes |
| TableClass.Table.GetRaw | internal/kvstore/table/table.go:196-221 | GetRaw returns the layout of the stored entry |
| TableClass.Table.GetTTL | internal/kvstore/table/table.go:246-257 | the TTL read from the bytes is the stored entry's |
| TableClass.Table.GetKey | internal/kvstore/table/table.go:223-244 | the key read from the bytes is the stored entry's |
| TableClass.Table.Delete | internal/kvstore/table/table.go:351-390 | the size read back from the record is the one given to garbage and taken from inuse |
| TableClass.Table.UpdateTTL | internal/kvstore/table/table.go:392-415 | three words rewritten in place change the entry's TTL, timestamp and last access |
| TableClass.Table.Reset | internal/kvstore/table/table.go:453-463 | the table after Reset is the model's |
| StoreModel.MakeTableInv | internal/kvstore/kvstore.go:89-116 | a rollover, reusing a recycled table or not, changes no contents and gives a clean head |
| EngineLaws.MakeTableIs | internal/kvstore/kvstore.go:89-116 | a rollover seals the tail and reuses the first recycled table before it, adding a table only if there is none; the new tail gets the next coefficient |
| StoreModel.StoreRecordInv | internal/kvstore/kvstore.go:200-279 | a stored record is the only version of its key; every other key is unchanged |
| EngineLaws.StoreRecordPlaces | internal/kvstore/kvstore.go:200-279 | a record goes behind the last one of the tail if size + offset is under the table size, and otherwise to the front of a new tail |
| StoreModel.GetInv | internal/kvstore/kvstore.go:305-322 | Get changes no contents |
| StoreModel.DeleteKeyInv | internal/kvstore/kvstore.go:389-405 | Delete removes exactly its key |
| StoreModel.UpdateTTLInv | internal/kvstore/kvstore.go:408-425 | UpdateTTL changes TTL and timestamp of its key, if present, and nothing else |
| StoreModel.PutLoopTerminates | internal/kvstore/kvstore.go:246-279 | some attempt of the retry loop succeeds if and only if the record is shorter than a table, then within one rollover |
| EngineLaws.PutNeverReturns | internal/kvstore/kvstore.go:246-279 | in numbers, which records Put takes, refuses, and never returns for |
| KVStoreClass.KVStore.MakeTable | internal/kvstore/kvstore.go:89-116 | the table list, the coefficient map and the counter after a rollover are the model's |
| KVStoreClass.KVStore.Fork | internal/kvstore/kvstore.go:172-190 | a fork is a separate engine that shares nothing, with one empty table under coefficient zero |
| KVStoreClass.KVStore.DeleteFromOlderTables | internal/kvstore/kvstore.go:238-243 | every table but the head loses the key |
| KVStoreClass.KVStore.PutRaw | internal/kvstore/kvstore.go:200-232 | the loop of PutRaw does what the model does, with its error case |
| KVStoreClass.KVStore.Put | internal/kvstore/kvstore.go:246-279 | the loop of Put does what the model does, with both error cases |
| KVStoreClass.KVStore.GetRaw | internal/kvstore/kvstore.go:282-300 | the record of the newest table that has the key |
| KVStoreClass.KVStore.Get | internal/kvstore/kvstore.go:305-322 | the entry of the newest table that has the key, touched there |
| KVStoreClass.KVStore.GetTTL | internal/kvstore/kvstore.go:326-344 | the TTL of the entry Get returns |
| KVStoreClass.KVStore.GetKey | internal/kvstore/kvstore.go:368-386 | the key of the entry Get returns |
| KVStoreClass.KVStore.Check | internal/kvstore/kvstore.go:443-455 | true if and only if Get finds the key |
| KVStoreClass.KVStore.Delete | internal/kvstore/kvstore.go:389-405 | one table loses the key, as in the model |
| KVStoreClass.KVStore.UpdateTTL | internal/kvstore/kvstore.go:408-425 | one table's entry changes, as in the model; false when there is none |
| KVStoreClass.KVStore.EvictTable | internal/kvstore/compaction.go:30-80 | moving entries while iterating, over table reorderings, is the model's eviction for the order taken |
| KVStoreClass.KVStore.DropExpired | internal/kvstore/compaction.go:97-125 | the cleanup loop removes the expired recycled tables and their index entries |
| KVStoreClass.KVStore.Compaction | internal/kvstore/compaction.go:97-125 | one call is the model's, and reports done exactly when every table has 5 * garbage < 2 * allocated |
| KVStoreClass.KVStore.Export | internal/kvstore/transport.go:49-62 | the first table that is not recycled, if there is one |
| KVStoreClass.KVStore.Drop | internal/kvstore/transport.go:37-47 | exactly that table and its index entry go; an error without tables |
| CompactionModel.MoveEntryKeeps | internal/kvstore/compaction.go:43-71 | moving one entry keeps contents, the pattern of tables over the ratio, and shrinks the evicted table |
| CompactionModel.EvictKeeps | internal/kvstore/compaction.go:30-80 | one eviction keeps contents and lowers (tables over the ratio, entries in the first of them) |
| CompactionModel.CompactionKeeps | internal/kvstore/compaction.go:97-125 | one Compaction call keeps the invariant, and leaves every lookup unchanged if and only if it does not clean up a lost tail; never lost while the tail is live |
| CompactionModel.CompactionTerminates | internal/kvstore/compaction.go:97-125 | repeated calls reach done, with every table below two fifths of garbage, if and only if the table size is positive or there are no tables |
| CompactionModel.DoneIff | internal/kvstore/compaction.go:92-106 | a call has nothing to evict exactly when every table has 5 * garbage < 2 * allocated |
| CompactionModel.EvictsFirst | internal/kvstore/compaction.go:97-106 | otherwise it evicts the first table with 5 * garbage >= 2 * allocated |
| EngineLaws.EvictLeaves | internal/kvstore/compaction.go:30-80 | one call moves up to 1001 entries of that table; if those are all, it becomes a clean recycled table stamped with the time |
| EngineLaws.DrainedRecycled | internal/kvstore/compaction.go:73-77 | a table without live entries that is not the tail is recycled by one call and nothing else changes |
| EngineLaws.MoveEntryPlaces | internal/kvstore/compaction.go:43-71 | a moved entry goes behind the last record of the tail if it fits there, and otherwise to the front of a new tail |
| EngineLaws.TimedOutIff | internal/kvstore/compaction.go:82-90 | a recycled table expires at recycling time plus timeout, rounded down to the millisecond |
| EngineLaws.CleanupIs | internal/kvstore/compaction.go:109-123 | the cleanup loop leaves the tables that have not expired, in order, and the tail if there are none |
| CompactionModel.CleanupLoses | internal/kvstore/compaction.go:109-123 | the cleanup changes no lookup if and only if no expired recycled tail holds entries beside a table that stays |
| CompactionModel.CleanupView | internal/kvstore/compaction.go:109-123 | exactly the entries of such a tail go, every other lookup is unchanged |
| CompactionModel.CleanupInv | internal/kvstore/compaction.go:109-123 | the cleanup keeps the invariant, and a live tail live |
| StoreHistory.RecordAgreement | internal/kvstore/kvstore.go:200-300 | PutRaw of an encoding then Get gives the entry; Put then GetRaw gives the encoding up to last access; other keys unchanged |
| EngineLaws.RunRoles | internal/kvstore/kvstore.go:89-116 | over every drop-free history exactly the tail is read-write |
| AccessTimes.LastAccessIs | internal/kvstore/table/table.go:309-349 | over every history, drops and compactions included, the last access of a key is the time given by the last call that touched it |
| AccessTimes.StepAccess | internal/kvstore/table/table.go:139-415 | which calls touch a key and with which time; every other call leaves its access time |
| StoreHistory.StepRefines | internal/kvstore/kvstore.go:200-455 | one call, drops and compactions included, returns what the plain map does, and does what the map does if and only if it is not a losing compaction |
| StoreHistory.StoreRefinesMap | internal/kvstore/kvstore.go:89-455 | over every drop-free history of a new or forked engine each key is in at most one table and every result is the plain map's |
| StoreHistory.InitialInv | internal/kvstore/kvstore.go:63-82 | a new and a forked engine satisfy the invariant and hold nothing |
| StoreHistory.ForkedAlike | internal/kvstore/kvstore.go:172-190 | a history that starts with a write that fits runs alike on a new and a forked engine |
| StoreHistory.HistoryDone | internal/kvstore/compaction.go:97-125 | after any history, with drops or without, repeated compaction reaches done if and only if the table size is positive or no table is left |
| StoreHistory.ForkedNeverDone | internal/kvstore/kvstore.go:172-190 | after a drop-free history it never does if and only if the engine was forked with table size zero |
| StoreHistory.DropsRefineMap | internal/kvstore/transport.go:37-62 | over every history of a new or forked engine, with drops, each key is in at most one table, and every result is the plain map's unless a compaction lost a tail |
| StoreHistory.LosingShows | internal/kvstore/compaction.go:109-123 | after any history of a new or forked engine, a losing compaction leaves a store that is not the map |
| StoreHistory.DropStore | internal/kvstore/transport.go:37-47 | a drop keeps the invariant, also when it leaves a recycled tail |
| StoreHistory.DropView | internal/kvstore/transport.go:37-47 | Drop loses exactly the keys of the dropped table |
| EngineLaws.DropIs | internal/kvstore/transport.go:37-47 | a drop takes out one table and its coefficient, and nothing else |
| StoreHistory.DropFreeLossless | internal/kvstore/compaction.go:109-123 | over every drop-free history the tail stays live and no compaction loses anything |
| StoreExamples.DropThenCleanupLoses | internal/kvstore/transport.go:37-47 | a history of a new or forked engine: a drop, a write, a compaction, and the written key is gone |
| StoreExamples.LossRun | internal/kvstore/transport.go:37-47 | a new or forked engine reaches two recycled tables before a live tail by writes, deletes and compactions |
| StoreExamples.ForgettingRun | internal/kvstore/compaction.go:97-125 | a new or forked engine reaches a recycled table beside the first table by writes, a delete and a compaction |
| Scan.TableScan | internal/kvstore/table/table.go:465-487 | the next offsets in order, exactly as many as asked for unless the table ends, and the cursor after the last one, or zero |
| Scan.ScanCommon | internal/kvstore/kvstore.go:485-545 | one call panics if and only if there are tables of size zero; otherwise it visits places that were due, in order in one table and no more than asked for, none of which stays due, and everything else that was due still is |
| Scan.ScanAll | internal/kvstore/kvstore.go:499-549 | from cursor zero, with any counts of at least one, the iteration ends and visits each place on the route exactly once, or panics under the same condition |
| Scan.CompleteIff | internal/kvstore/kvstore.go:531-541 | everything is visited if and only if each table passed over by the gaps of the index is empty |
| Scan.RouteAllIff | internal/kvstore/kvstore.go:485-545 | the route is all tables if and only if the coefficients are contiguous |
| Scan.RouteIff | internal/kvstore/kvstore.go:485-545 | a table is off the route if and only if it is not the first, the one before it is not adjacent, and that one is on the route |
| Scan.AlwaysCompleteIff | internal/kvstore/kvstore.go:499-549 | scans are complete whatever the tables hold if and only if the coefficients are contiguous |
| Scan.GapSkips | internal/kvstore/kvstore.go:531-541 | with coefficients 0 and 2, table 2 is not on the route |
| ScanStore.RunCoherent | internal/kvstore/kvstore.go:89-116 | over every drop-free history, compactions included, each indexed coefficient names exactly one live table |
| ScanStore.SeenIff | internal/kvstore/kvstore.go:499-545 | a live entry is seen by a full scan if and only if its table's coefficient is indexed and not passed over by the gaps |
| ScanStore.SeenIsLive | internal/kvstore/kvstore.go:499-545 | a full scan sees only live entries |
| ScanStore.PlacesDiffer | internal/kvstore/kvstore.go:499-545 | different live entries are at different places, so each is seen once |
| ScanStore.ScanSeesAll | internal/kvstore/kvstore.go:499-549 | after any history of a new or forked engine without compaction or drop, every live entry is seen |
| ScanStore.FullScan | internal/kvstore/kvstore.go:499-549 | iterating such a store to the end, with any counts of at least one, yields each live entry exactly once and nothing else; it panics if and only if the engine was forked with table size zero |
| ScanStore.CleanupForgetsZero | internal/kvstore/compaction.go:109-123 | the cleanup takes coefficient zero out of the index exactly when there are two tables and an expired recycled one, and nothing else |
| ScanStore.FirstTableUnseen | internal/kvstore/compaction.go:109-123 | with an expired recycled table, the live entries of the table with coefficient zero survive the cleanup and are not seen after it |
| ScanExamples.CleanupHidesEntry | internal/kvstore/compaction.go:109-123 | a history of a new or forked engine: an entry seen before a compaction is live and unseen after it |
| RingModel.SortedUnique | internal/consistent/consistent.go:230-233 | the sorted point list is determined by the points |
| RingModel.PartitionKeyIs | internal/consistent/consistent.go:207-211 | a partition's hash is that of its number as eight bytes, the lowest first |
| RingModel.DigitsAre | internal/consistent/consistent.go:223-228 | a point's hash input ends in its index in decimal |
| RingClass.DefaultsAre | internal/consistent/consistent.go:117-132 | fields left at zero become 271 partitions, 20 points a member and load 1.25 |
| RingModel.InsertCanonical | internal/consistent/consistent.go:223-236 | add keeps the points exactly those of the members, sorted, each leading to its member |
| RingModel.RemoveCanonical | internal/consistent/consistent.go:251-276 | so does removing a member's points one by one |
| RingModel.CanonicalUnique | internal/consistent/consistent.go:223-283 | the points and the ring are determined by the members |
| RingLoads.AverageEnough | internal/consistent/consistent.go:169-177 | with load factor at least one, the members' average loads add up to the partition count |
| RingLoads.AverageLoadIs | internal/consistent/consistent.go:169-177 | the average load is P * L / M rounded up, in numbers |
| RingLoads.ProbeNearest | internal/consistent/consistent.go:179-201 | the probe finds the nearest point with room within reach, and fails only if there is none |
| RingLoads.HomeNearest | internal/consistent/consistent.go:203-221 | clockwise from the partition's hash, the owner's point is the first with room |
| RingLoads.OwnerNearest | internal/consistent/consistent.go:179-221 | in the finished assignment, each partition's owner is at the first point clockwise from its hash whose member owned fewer of the partitions before it than the average load |
| RingLoads.RoomReached | internal/consistent/consistent.go:179-201 | with two distinct points a member, leaving out one point cannot hide the member with room |
| RingLoads.AssignFair | internal/consistent/consistent.go:203-221 | at every partition count so far: one owner each, loads counted and bounded, and no panic while the average loads suffice |
| RingLoads.PlacesIff | internal/consistent/consistent.go:169-221 | with two or more distinct points a member, placement succeeds if and only if the partition count is at most members times average load |
| RingLoads.PlacesWithSpare | internal/consistent/consistent.go:169-221 | with any number of points a member, it succeeds when the average loads of all members but one add up |
| RingLoads.OnePointTight | internal/consistent/consistent.go:179-201 | New of two members of one point each, two partitions, load factor one: the loads add up and it panics |
| RingLoads.NeverPanics | internal/consistent/consistent.go:169-221 | every partition gets one owner, a member; each load is the number of partitions owned, and under P * L / M + 1 |
| RingLoads.LoneMember | internal/consistent/consistent.go:179-201 | one member with one point: placement panics for every positive partition count and every load |
| RingLoads.HistoryIndependent | internal/consistent/consistent.go:117-283 | after any joins and leaves the whole ring equals New of the members present, in any order |
| RingLoads.JoinLeaveRestores | internal/consistent/consistent.go:238-283 | a join followed by the same member's leave restores points, owners and loads |
| RingLoads.LastLeaves | internal/consistent/consistent.go:261-281 | when the last member leaves there are no points and no owners, and the loads stay |
| RingClass.Consistent.DistributeWithLoad | internal/consistent/consistent.go:179-201 | the probing loop gives the partition to the probe's member, or panics exactly when the probe finds none |
| RingClass.Consistent.DistributePartitions | internal/consistent/consistent.go:203-221 | the loop over partitions is the model's assignment; a panic leaves the old one |
| RingClass.Consistent.AddPoints | internal/consistent/consistent.go:223-236 | the points are added, sorted, and lead to the member |
| RingClass.Consistent.Join | internal/consistent/consistent.go:239-249 | Add is the model's, a no-op for a known name |
| RingClass.Consistent.DeletePoint | internal/consistent/consistent.go:251-258 | exactly the first occurrence is removed |
| RingClass.Consistent.Leave | internal/consistent/consistent.go:261-283 | Remove is the model's, a no-op for an unknown name |
| RingClass.Consistent.GetClosestN | internal/consistent/consistent.go:328-375 | the owner and then each time the next member clockwise by name hash, none twice; the error exactly for too few members |
| RingClass.ClosestUnique | internal/consistent/consistent.go:328-375 | owner and length determine that list |
| Placement.LiveOwners | internal/cluster/routingtable/distribute.go:71-91 | the recorded owners still in the cluster under the same identity, in order |
| Placement.PlacePrimaryOwner | internal/cluster/routingtable/distribute.go:131-155 | the owners not known to be empty, with the ring's owner moved to the end |
| Placement.GetReplicaOwners | internal/cluster/routingtable/distribute.go:157-170 | the owner and its successors, as many as the replica count or the members allow; an error only without members or replicas |
| Placement.PlaceBackupOwners | internal/cluster/routingtable/distribute.go:185-243 | the nested loops move each designated owner to the tail |
| Placement.PrimaryExact | internal/cluster/routingtable/distribute.go:131-155 | the owner list is exactly the surviving owners in their order and then the ring's primary |
| Placement.BackupsExact | internal/cluster/routingtable/distribute.go:185-243 | the backup list is exactly the surviving backups in their order and then the ring's successors |
| Placement.ComputeShape | internal/cluster/routingtable/routingtable.go:381-430 | a computed route is duplicate-free, ends in the primary, and its backups end in the successors |
| Placement.OwnersKept | internal/cluster/routingtable/distribute.go:131-243 | a live recorded owner whose copy is not known to be empty stays |
| Placement.OwnersKeptIff | internal/cluster/routingtable/distribute.go:71-243 | a recorded owner is in the new list exactly when it is live under its identity and not known to be empty, or is designated |
| Placement.EnsureOwner | internal/cluster/routingtable/left_over_data.go:36-50 | a reporting member is put in front unless it is listed |
| Placement.EnsureAllKeeps | internal/cluster/routingtable/left_over_data.go:53-63 | any left-over reports keep the list duplicate-free, keep its tail, and list every reporter |
| Placement.RunShape | internal/cluster/routingtable/distribute.go:71-243 | over any recomputations and reports, routes stay duplicate-free and end in the owners designated last |
| RingPlacement.RingRoundOk | internal/cluster/routingtable/distribute.go:157-170 | on a settled ring with distinct name hashes and identities, the ring's own answer is what placement needs |
| RingPlacement.OwnerCurrent | internal/consistent/consistent.go:203-221 | every partition of a settled ring is owned by one of its members |
| RingPlacement.Recompute | internal/cluster/routingtable/routingtable.go:381-430 | the route of a partition, computed from the ring, the recorded owners and the counts, ends in the ring's owner and its successors |
| RingPlacement.RingRunShape | internal/cluster/routingtable/distribute.go:71-243 | over any recomputations on changing rings and left-over reports, owners end in the owner of the last ring read and backups in its successors |
| Placement.ClosestNoDuplicates | internal/consistent/consistent.go:328-375 | members of different identity: a successor list has no identity twice, so no backup tail holds the primary |
| Routing.RoutingTable.SetVersion | internal/cluster/routingtable/routingtable.go:260-288 | the stored version is the model's |
| Routing.RoutingTable.ApplyPayload | internal/cluster/routingtable/operations.go:87-132 | installs, keeps or refuses a table as the model does; owners, version and bootstrap flag |
| Routing.RoutingTable.UpdateRouting | internal/cluster/routingtable/routingtable.go:467-495 | the number given to the push, the self-install, and the commit restored when it fails |
| Routing.InstalledIff | internal/cluster/routingtable/operations.go:87-132 | exactly when a payload is installed, kept out or refused; only an install changes the node |
| Routing.InstallIs | internal/cluster/routingtable/routingtable.go:260-288 | what an install stores, when the generation advances, and which sender and number it has after |
| Routing.PushesAre | internal/cluster/routingtable/routingtable.go:467-495 | a push is numbered by the count of recomputations so far that differed from the installed table |
| Routing.FirstNumber | internal/cluster/routingtable/routingtable.go:467-480 | a fresh coordinator numbers its first table one |
| Routing.DeliverOne | internal/cluster/routingtable/operations.go:112-132 | a delivered push replaces the installed one if and only if its number is higher, and only then advances the generation |
| Routing.DeliveryTolerant | internal/cluster/routingtable/operations.go:87-132 | pushes in any order with repeats leave the highest-numbered table, one generation per new maximum |
| Routing.NumbersAgreeIff | internal/cluster/routingtable/routingtable.go:474-495 | equal numbers carry equal signatures if and only if no failed install is directly followed by a recomputation of the installed table |
| Routing.PushProtocol | internal/cluster/routingtable/routingtable.go:439-513 | a coordinator that installs its tables and a member together: any selection of pushes ends at the highest number |
| Routing.EqualNumbersOverwrite | internal/cluster/routingtable/operations.go:112-122 | two tables of one number replace each other in delivery order |
| Routing.PullNeverRegresses | internal/cluster/routingtable/operations.go:91-99 | a pull changes nothing once a push was installed after it was issued |
| Routing.PullKeepsIdentity | internal/cluster/routingtable/routingtable.go:270-275 | after a confirming pull the same push is recognised again |
| Epochs.RebalanceState.Count | internal/cluster/routingtable/rebalance.go:332-346 | the two counters are the live pending members and those of them that acked |
| Epochs.RebalanceState.CheckCompletion | internal/cluster/routingtable/rebalance.go:325-375 | completes exactly when some live member is pending and all of those acked |
| Epochs.RebalanceState.StartEpoch | internal/cluster/routingtable/rebalance.go:110-169 | a new epoch with the buffered acks of its signature; the buffer is emptied |
| Epochs.RebalanceState.HandleAck | internal/cluster/routingtable/rebalance.go:277-320 | accepted, early or stale, with the state each leaves |
| Epochs.RebalanceState.AdmitLate | internal/cluster/routingtable/update.go:590-599 | a late member joins the pending set of its own open epoch only |
| Epochs.OneFlipPerEpoch | internal/cluster/routingtable/rebalance.go:325-375 | in every run, between two completions an epoch was started |
| Epochs.CompletionSafe | internal/cluster/routingtable/rebalance.go:325-375 | in every run, at a completion some live member was pending and every live pending member had sent the ack of that signature since the epoch before started |
| Epochs.CompletesIff | internal/cluster/routingtable/rebalance.go:277-375 | in every run, exactly when an event completes the epoch: a start, a late admission or a first ack of a waited-for member, with some live member waited for and all of those having acked since the start or early |
| Epochs.AckRecorded | internal/cluster/routingtable/rebalance.go:300-312 | in every run, an ack of the open epoch is recorded |
| Epochs.RunExact | internal/cluster/routingtable/rebalance.go:277-320 | in every run, the recorded and buffered acks and the waited-for members are exactly those the events so far give |
| Epochs.LiveIs | internal/cluster/routingtable/rebalance.go:333-346 | in every run, the live members are those that came and did not leave since |
| Epochs.EarlyCounted | internal/cluster/routingtable/rebalance.go:277-295 | in every run, an ack buffered as early is counted by the next epoch, if it is for it |
| Epochs.AdmittedGates | internal/cluster/routingtable/update.go:581-599 | an admitted member holds the epoch open until its ack, which counts at once if already recorded |
| SyncState.State.UnexpiredCount | internal/syncstate/syncstate.go:144-155 | the number of tracked partitions whose deadline has not passed |
| SyncState.State.Earliest | internal/syncstate/syncstate.go:174-182 | the smallest first-seen time of those |
| SyncState.State.Refresh | internal/syncstate/syncstate.go:160-194 | done and the closed channel, or the timer set for the earliest deadline |
| SyncState.State.ReconcileTo | internal/syncstate/syncstate.go:79-109 | old clocks kept, new ones started, delivered ones left out; the old channel closed, never twice, and a new one made |
| SyncState.State.Received | internal/syncstate/syncstate.go:130-139 | the partition is untracked and marked |
| SyncState.State.Expire | internal/syncstate/syncstate.go:196-200 | a timer firing is a refresh |
| SyncState.State.Expired | internal/syncstate/syncstate.go:113-125 | tracked and no longer counting |
| SyncState.State.PendingEmpty | internal/syncstate/syncstate.go:210-221 | true exactly when nothing counts, and then done |
| SyncState.State.IsDone | internal/syncstate/syncstate.go:224-238 | the flag, looked at again when not set |
| SyncState.ClockNeverRestarts | internal/syncstate/syncstate.go:79-109 | a partition listed in every Reconcile and never received keeps its first-seen time, however many there are |
| SyncState.ChurnCannotStarve | internal/syncstate/syncstate.go:79-155 | so it counts if and only if its original deadline has not passed |
| SyncState.DoneMeansNothingCounts | internal/syncstate/syncstate.go:144-238 | while done, nothing counts at any time from the latest call on |
| SyncState.DoneStays | internal/syncstate/syncstate.go:79-238 | only a Reconcile takes done back |
| SyncState.TimerProgresses | internal/syncstate/syncstate.go:174-194 | each timer firing leaves strictly fewer partitions counting |
| SyncState.TrackedIs | internal/syncstate/syncstate.go:79-139 | in every run, a Reconcile tracks exactly the listed partitions not received after the scan, old ones with their clock; only a receipt stops tracking otherwise |
| SyncState.DoneIff | internal/syncstate/syncstate.go:144-238 | in every run, done holds after a call exactly when every tracked partition has waited its escape time, or it held and the call was no Reconcile |
| SyncState.TimerIs | internal/syncstate/syncstate.go:174-194 | in every run, the timer is set to the earliest deadline of a counting partition, a millisecond away at the least |
| SyncState.TimerElse | internal/syncstate/syncstate.go:160-194 | otherwise it is stopped when nothing counts and left alone without an escape time |
| Merge.SortVersions | internal/dmap/get.go:212-220 | the newer of two versions first, the current one on a tie |
| Merge.MergeIntoRefines | internal/dmap/balance.go:42-59 | merging one entry into the engine is merging it into the plain map, and keeps the engine's invariant, on every store a history with drops leaves |
| Merge.MergeEntry | internal/dmap/balance.go:42-59 | the merge on the store object is the model's and succeeds for records of a table of the same size |
| Merge.MergeKeepsNewest | internal/dmap/balance.go:61-74 | after any merges each key has a version seen, of the greatest timestamp seen |
| Merge.FirstOfNewest | internal/dmap/balance.go:42-74 | of versions with the greatest timestamp the one already there wins, or else the first received |
| AccessTimes.MergeAccess | internal/dmap/balance.go:42-59 | a merged key is accessed at the time of the merge, whoever wins; no other key is |
| Merge.MergeOrderIrrelevant | internal/dmap/balance.go:42-74 | the same entries in any order with any repeats give the same contents, when equal timestamps mean equal entries |
| Merge.TableOrderIrrelevant | internal/kvstore/transport.go:86-100 | the same for exported tables, each iterated its own way |
| Versions.SortStableSorts | internal/dmap/get.go:212-220 | newest first, nothing lost, equal timestamps in lookup order |
| Versions.WinnerIsNewest | internal/dmap/get.go:397-408 | the winner is a version found, none found is newer, and of equal ones it was looked up first |
| Versions.SanitizeAndSort | internal/dmap/get.go:222-234 | the loop drops the nil versions and the rest is sorted |
| Balancer.CurrentOwners | internal/cluster/balancer/balancer.go:472-494 | the loop gathers the newest owners up to the replica count, or leaves when this member is one |
| Balancer.LastOwnersAre | internal/cluster/balancer/balancer.go:472-494 | they are the last owners in reverse, and none exactly when this member is among them |
| Balancer.TargetsSafe | internal/cluster/balancer/balancer.go:400-566 | no step moves a table to nobody, back into the fragment it comes from, or into another partition or map |
| BalancerLaws.MovePrimaryTargets | internal/cluster/balancer/balancer.go:400-430 | a primary copy goes to the primary fragment of the last owner, exactly when that is another member |
| BalancerLaws.PromoteTargets | internal/cluster/balancer/balancer.go:523-566 | a backup copy on the owner goes to its own primary fragment, exactly when more than one replica is configured |
| BalancerLaws.MoveBackupTargets | internal/cluster/balancer/balancer.go:448-505 | a backup copy goes to the backup fragments of the last replica owners, exactly when its member is none of them and does not own the partition |
| BalancerLaws.BeginIs | internal/dmap/fragment.go:156-170 | a move takes the first table that is not recycled |
| BalancerLaws.DeliverGoesOn | internal/dmap/fragment.go:110-150 | a delivery that does not fail goes on to the next target and remembers one that had left |
| BalancerLaws.FailedEnds | internal/dmap/fragment.go:139-147 | a failed delivery ends the move and keeps the table |
| BalancerLaws.FinishIs | internal/dmap/fragment.go:170-179 | the end of a move drops exactly the exported table, exactly when no target had left |
| BalancerLaws.FinishForgets | internal/dmap/fragment.go:170-179 | the fragment then has none of the table's keys |
| BalancerLaws.DroppedAfterDelivery | internal/dmap/fragment.go:156-179 | in every run, a table is dropped only after each target its step gives had a full delivery since the move began |
| BalancerLaws.PrimaryMoved | internal/cluster/balancer/balancer.go:400-430 | in every run, a primary copy is dropped only after the owner's primary fragment had every version of it |
| Balancer.MergeGrows | internal/dmap/balance.go:61-74 | a merge, whole or partial, loses nothing the receiver had and holds everything it merged |
| Balancer.DropConserves | internal/dmap/fragment.go:156-179 | the end of a move, with its drop, loses no newest version of any map's key |
| Balancer.StepInv | internal/dmap/fragment.go:93-179 | every step that loses nothing keeps: a table once merged is held by another fragment of its partition and map, where no earlier move can take it away |
| Balancer.RunConserves | internal/cluster/balancer/balancer.go:400-566 | over every interleaving of all members' moves, replication, writes and compactions that lose no tail, whatever fails, the newest timestamp held for each key of each map never decreases |
| Balancer.Conservation | internal/cluster/balancer/balancer.go:400-566 | the same from any quiet cluster, for one key of one map |
| Balancer.CompactionConservesIff | internal/dmap/compaction.go:32-54 | a compaction, losing or not, conserves if and only if what it loses with the tail is held by another live fragment of the same partition and map |
| Balancer.LostOnlyAfterAllMerged | internal/dmap/fragment.go:156-179 | apart from a losing compaction, a fragment loses a version only by the end of a move of its table to a non-empty list of targets that all merged it |
| BalancerEngine.FragmentRefines | internal/kvstore/kvstore.go:305-322 | what the balancer sees of a store is what lookups see |
| BalancerEngine.EngineMerges | internal/kvstore/transport.go:86-100 | importing entries into the engine, whole or in part, is the balancer's merge, also on a store drops have left with a recycled tail |
| BalancerEngine.EngineExports | internal/kvstore/transport.go:49-62 | the engine exports the table the balancer exports |
| BalancerEngine.EngineDrops | internal/kvstore/transport.go:37-47 | the engine drops the table the balancer drops, and merges and compacts as the balancer assumes after it |
| BalancerEngine.EngineCompacts | internal/kvstore/compaction.go:97-125 | a compaction of the engine is the balancer's: the same contents, less a lost tail under the same condition |
| Quorum.StepDurable | internal/dmap/put.go:189-236 | an acknowledged write is on a write quorum of nodes, or overwritten there, at every later moment |
| Quorum.StepKept | internal/dmap/put.go:223-235 | a put the primary stored and acknowledged is on the primary, or overwritten there, at every later moment; with one table size that is every acknowledged put |
| Quorum.StepInv | internal/dmap/put.go:189-236 | every step of puts, aborted puts and reads keeps that, and copies only get newer |
| Quorum.ReadSeesAcked | internal/dmap/get.go:383-419 | with R + W over the node count, a read returns nothing older than a write acknowledged before it began, and never that there is no such key |
| Quorum.ReadSeesKept | internal/dmap/get.go:383-419 | the same for any quorums, for writes the primary stored |
| Quorum.QuorumReads | internal/dmap/put.go:427-480 | over every run with R + W over the node count, a read begun after an acknowledged put returns nothing older and is never told the key is absent |
| QuorumLaws.ResultIff | internal/dmap/get.go:383-404 | which counts of answers and of answers that are not nil give an entry, no key, and no quorum |
| QuorumLaws.ResultIs | internal/dmap/get.go:383-419 | the entry returned is one that was answered, value included; none answered is newer, none before it as new |
| QuorumLaws.ReadWasPut | internal/dmap/get.go:383-419 | in every run, an entry returned was put before, with that value |
| QuorumLaws.AcknowledgedIff | internal/dmap/put.go:189-236 | in every run, a put is acknowledged exactly when the backups that said they stored it, and the primary if it has room, reach W; every backup was called and none of the calls failed |
| QuorumLaws.CopiesAre | internal/dmap/put.go:200-227 | which copy each step of a put changes, and to what |
| Quorum.PrimaryReads | internal/dmap/get.go:155-200 | the same over every run for any quorums, for puts the primary stored |
| Quorum.UniformReads | internal/dmap/put.go:223-235 | the same for any quorums and every acknowledged put, when no record fits a backup and not the primary |
| QuorumTight.NeverStaleIff | internal/dmap/get.go:383-419 | for usable configurations reads are never stale if and only if R + W exceeds the node count or the backups' tables are at most one byte larger than the primary's |
| QuorumTight.ExposedIsStale | internal/dmap/put.go:223-235 | otherwise a run with a stale read: a record one byte over the primary's table size, refused there and acknowledged by W backups |
| Locker.StepInv | internal/locker/locker.go:89-129 | every step keeps waiter counts exact, mutexes owned by one session, and the map in agreement |
| Locker.MutualExclusion | internal/locker/locker.go:89-129 | in every run at most one session has a name |
| Locker.NameInMapIff | internal/locker/locker.go:89-129 | in every run a name is in the map if and only if some session holds or waits for it |
| Locker.RemovedWhenUnreferenced | internal/locker/locker.go:122-124 | a counter leaves the map only when the unlocking session is the last to refer to it |
| Locker.UnlockFinds | internal/locker/locker.go:114-120 | a holder's Unlock finds its own counter, never the error |
| Locker.NoDeadlock | internal/locker/locker.go:89-129 | while there is a session, one can take its next step |
| Locker.StepAdvances | internal/locker/locker.go:89-129 | every step brings its session one phase further under the same name and changes no other |
| DistributedLock.StepInv | internal/dmap/lock.go:41-72 | in a guarded configuration every step keeps the check of a lock or unlock true until its write, whatever the backups hold |
| DistributedLock.ReadsStored | internal/dmap/get.go:383-419 | guarded: a returned token that a read finds, as the newest of a read quorum of versions, is the one the primary stores |
| DistributedLock.ArrivesOnce | internal/dmap/put.go:140-184 | an asynchronous put arrives at a backup once |
| DistributedLock.AtMostOneHeld | internal/dmap/lock.go:95-165 | guarded: in every run at most one token is held, and it is the stored one |
| DistributedLock.LockWaitsItsTurn | internal/dmap/put.go:274-289 | guarded: a lock is granted only while none is held |
| DistributedLock.UnlockIsExact | internal/dmap/lock.go:41-72 | guarded: a delete removes the token its Unlock presented; of any number of Unlocks with one token at most one deletes |
| DistributedLock.StaleUnlockRefused | internal/dmap/lock.go:61-64 | guarded: an Unlock with a released token changes nothing |
| DistributedLock.BypassedHolders | internal/dmap/put.go:189-236 | a run with two holders where the backups alone reach the write quorum for a record the primary refuses |
| DistributedLock.LaggingHolders | internal/dmap/put.go:140-184 | for every read quorum the backups alone reach, a run with two holders: asynchronous puts reach the backups after the Unlock, each put once and each read with its quorum |
| DistributedLock.ExclusiveIff | internal/dmap/lock.go:41-165 | the lock is exclusive over every interleaving if and only if neither can happen |
| DistributedLock.ExclusiveMeans | internal/dmap/put.go:427-480 | that condition in terms of the mode, the quorums, the number of backups, the key length and the table sizes of primary and backups |

## Left out

- TableClass.Table.Put: stated for values under 2^32 bytes; Codec.DecodeInvertsEncode covers longer ones, whose length field wraps.
- TableClass.Table.PutRaw: stated for raw bytes that are one well-formed record, as every caller passes the encoding of an entry.
- KVStoreClass.KVStore.Put: requires that the record is not exactly the table size, where the source's loop does not end; StoreModel.PutLoopTerminates covers that size.
- KVStoreClass.KVStore.PutRaw: requires a well-formed record of another size than the table's, for the same reason.
- KVStoreClass.KVStore.EvictTable: requires a positive table size; CompactionModel.CompactionTerminates covers zero.
- KVStoreClass.KVStore.Compaction: requires a positive table size; CompactionModel.CompactionTerminates covers zero.
- TableClass.Table.Reset: stated for tables without live bytes, the only ones the engine resets.
- Merge.MergeEntry: stated for records that are not exactly the table size, where the source's loop does not end.
- RingClass.Consistent.GetClosestN: says which members are returned only when no two names hash alike; with a collision the result depends on map iteration order.
- Placement.GetReplicaOwners: says which members are returned only when no two names hash alike, for the same reason.
- ScanStore.RunCoherent: for drop-free histories; a drop takes its table's coefficient out of the index, and a write into a recycled tail puts entries under coefficient zero.
- Placement.RunShape: a partition at a time; the probing round trips are the counts given to each round. The ring's answer is a parameter here; RingPlacement.RingRunShape reads it off the ring.
- Routing.DeliveryTolerant: pushes only; a pulled table has no number and lets any later push in.
- Quorum.QuorumReads: synchronous replication; keys under 256 bytes, as a longer key cannot be decoded from a backup; a request that timed out is not applied later than its failure; the clock under the key lock does not go back; the backups have one table size; keys are not deleted, and no compaction loses the primary's tail, which StoreExamples.DropThenCleanupLoses shows it can.
- DistributedLock.AtMostOneHeld: without timeouts, leases or a change of owner, as the guarantee is stated, and with read repair off, its default; the clock under the key lock moves forward; a put of an acknowledged Lock that was retried is not applied to a backup again after its acknowledgement; the backups have one table size; no compaction loses the owner's tail, and with it the held token.
- Balancer.RunConserves: membership is fixed during a run; a departing member takes its copies with it. Keys are not deleted, and a write is stamped no older than the version it replaces.
- Balancer cycle bookkeeping (moved, failed and aborted flags, pushed signatures, restore schedule, acks): it decides when the modelled steps happen, and every order of them is covered.
- The concurrent parts (balancer, fragments, quorum writes, locks) are step machines over values rather than classes: update in place is not captured there, interleaving is.
- Floating-point rounding of the garbage ratio and of the average load; both are exact numbers here.
- 64-bit overflow of cursors, coefficients, sequences and generations.
- msgpack, roaring bitmaps, memberlist, RESP, connection pools, events, statistics and logging.
- KVStoreClass.KVStore.Fork: a fork with the table size of its parent; with another one the first table would have the parent's size and the later ones the child's.
- ScanRegexMatch, scan callbacks that stop early, cluster iterators.
- Read repair, asynchronous replication other than of locks, expiry and eviction of keys, and the janitor.
