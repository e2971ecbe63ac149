# OBJY DB verification

A Dafny model of OBJY DB's core: where a fast, deferred or distributed form has to agree with a
simple one, the simple one is stated and the agreement is proved for all inputs, all runs or all
reachable states.  `dafny verify dfyconfig.toml` checks the whole project.

## What is modelled

- **Replication** (`Clock`, `Rows`, `OpLog`, `Replication`, `Node`).  Lamport stamps, last-write-wins
  rows, each node's operation log with numbering, pruning and trim marks, and the pull/acknowledge
  protocol as a step machine over any number of nodes and an asynchronous network: messages may be
  delayed, lost, repeated and reordered.  The node class updates its fields in place and its methods
  are proved against that machine's functions.
- **Durability and resharding** (`Persistence`, `Durability`, `Reshard`, `ReshardRun`, `ShardMap`).
  One writer's journal flushes, fuzzy snapshots and compaction as a step machine with one storage
  write a step and a crash possible after each; the restore loops; the restore filters of a topology
  change and its readiness test; whole resharding runs of several target nodes over one storage;
  publishing and finalizing shard maps.
- **Derived state of a collection** (`Layout`, `TieredBase`, `Pool`, `RidColumn`, `TypedColumns`,
  `RidQueue`, `FieldIndex`, `Collection`, `Deferral`, `LiveCollection`, `Query`).  How an object is
  stripped, split and put back together; typed columns and field indexes; the deferral of index work,
  catch-up, column builds and stripping as steps over a sound state; the collection object, which
  applies batches, reads, catches up and changes its tiering in place over tiered base rows (column
  builds and stripping are steps only); criteria answered from indexes with any rows deferred.
- **Aggregation and paging** (`Aggregate`, `Answer`, `Groups`, `Splits`, `AggregatePlans`,
  `GroupIndex`, `QueryPlanner`, `Paging`).  Partial aggregation, its merge and its row encoding; what an
  answer says of the rows; the planned execution paths over any valid state of a collection; pages over
  several shards.
- **Self-contained structures** (`Heap`, `Hnsw`, `ObjectStore`, `Shape`, `References`).

Values are a datatype (`Wrappers.Value`): null, booleans, exact integers, strings, arrays, plain
objects.  "Stamp" is a Lamport timestamp, "rid" a row number, "scope" a database, collection and shard.

## What the proofs found

The code is kept as it is; each of these is a lemma with a concrete input, next to a lemma that says
exactly when the code does meet the property.

- `needsSnapshot` without a scope misses operations dropped with their collection
  (`OpLogs.UnscopedGapAfterDrop`, `OpLogs.UnscopedTestIsExact`).
- A column path with a doubled dot, or through an array, loses the stored value
  (`Layout.DoubledDotLosesValue`, `Layout.ArrayPathLosesArray`; exactly when:
  `Layout.ColumnRoundTripExact`, and `Layout.ColumnsRoundTripExact` for several columns).
- A small batch that changes one row twice, with an index on a column path, leaves a stale index entry
  (`Deferral.RepeatedRowLeavesStaleLookup`; exactly when, for every batch:
  `Deferral.BatchLookupsExact`).
- Stripping column fields from a deferred row loses them for good, unless the row lacks those fields
  (`Deferral.StripLosesValue`, `Deferral.StripOfDeferredRow`, and over whole runs
  `Deferral.RunReadsExact`); a change of the tiering rewrites every row and so does the same
  (`LiveCollections.RetierLosesValue`, `LiveCollections.StripAllExact`).
- `true` equals `1` to a query but not to an index, and so do a number and every text that converts
  to it (`Queries.TrueEqualsOneUnindexed`, `Queries.NumeralEqualsNumberUnindexed`; exactly when:
  `Queries.KeyDecidesEquality`).
- The summary's count of a field counts nulls too, so it is right only when there are none
  (`QueryPlanner.SummaryCountsNull`, `QueryPlanner.SummaryFolds`); flat plans ignore `$page`
  (`QueryPlanner.SecondPageOfCount`, `QueryPlanner.FlatPlansIgnorePage`).
- A metric named like a group field, or like a `$partial.` column of an average, overwrites it in a
  partial row
  (`Aggregates.ClashLosesGroup`, `Aggregates.EncodeRoundTripExact`).
- Min and max over values of several types depend on how rows are split
  (`Splits.MixedTypesDependOnSplit`; exactly when: `Splits.SplitsAgreeExact` for a list of values,
  `Splits.PartialsMergeExact` for whole aggregates). So a group index, which keeps rows without the
  group field and rows where it is null apart, can miss the minimum of their common group
  (`GroupIndexPlans.NullGroupHidesMinimum`; exactly when: `GroupIndexPlans.GroupIndexExact`).
- Sort keys of mixed types can form a cycle, and null and undefined each come after the other
  (`Paging.MixedKeysCycle`, `Paging.NullAndUndefinedDisagree`; exactly when: `Paging.KeysOrdered`).
- Two layouts with the same shape id share a shape, and the second one's rows lose fields and gain
  undefined ones (`Shapes.CollisionMisreads`, `Shapes.PlaceReads`).

## Model

| member | source | states |
|---|---|---|
| Clocks.StampOrder | src/clock.js:13-18 | stamps are strictly and totally ordered: irreflexive, antisymmetric, total, transitive |
| Clocks.LamportClock.NextTs | src/clock.js:5-7 | the new stamp carries the node's name and beats every stamp with a counter the clock had reached |
| Clocks.LamportClock.Touch | src/clock.js:9-11 | the clock catches up with a seen stamp and never goes back |
| Rows.PutRowAbsorbs | src/store.js:147-176 | a put leaves the row at the newer of what it held and the put, and is accepted exactly when it is newer |
| Rows.DeleteRowAbsorbs | src/store.js:297-317 | the same for a delete, which leaves a tombstone |
| Rows.RestoreRowAbsorbs | src/store.js:115-145 | the same for a snapshot row, tombstones included |
| Rows.SnapshotRoundTrip | src/store.js:730-743 | a row's snapshot, restored into a fresh row, stands for the same last write |
| Rows.NewestIsGreatest | src/store.js:115-176 | folding writes into a row leaves the write with the greatest stamp |
| Rows.OrderIndependence | src/store.js:115-176 | two sequences of the same writes, in any order and with any repetition, leave every object at its greatest-stamp write |
| Rows.ApplyShows | src/store.js:3073-3106 | an op newer than the row leaves a live row with the value it was given when it is a put, with the empty object when it is a touch, and a tombstone when it is a delete |
| Rows.Store.ApplyBatch | src/store.js:3073-3106 | a batch cut into runs per collection and kind has the effect, and accepts the operations, of applying them one at a time; each row then shows what the last accepted op on it wrote: a put its value, a touch the empty object, a delete a tombstone, each under the op's stamp; other rows are as they were |
| ShardMaps.HashString | src/shard-map.js:326-333 | the loop computes 32-bit FNV-1a, whose steps are exclusive or and multiplication modulo 2^32 |
| ShardMaps.XorUndoes | src/shard-map.js:326-333 | exclusive or with the same number twice gives back the first |
| ShardMaps.HashOfA | src/shard-map.js:326-333 | the published hash of "a" |
| ShardMaps.RouteObject | src/shard-map.js:52-60 | an object goes to the name at its hash modulo their number among the shard names in ascending order |
| ShardMaps.AscendingIsSorted | src/shard-map.js:58-60 | any ascending listing of the names is the sorted one |
| ShardMaps.ShardForObjectInRange | src/shard-map.js:52-56 | an object is routed to one of the shards |
| ShardMaps.TargetNamesDiffer | src/shard-map.js:284-286 | target shard names are injective in the index |
| ShardMaps.TargetNamesCount | src/shard-map.js:284-286 | a topology gets as many target names as it has partitions |
| ShardMaps.AssignPeersMeans | src/shard-map.js:288-296 | the peers of a topology: each name its own when the names are those asked for, else the peers asked for in turn |
| ShardMaps.PublishPeersOnly | src/shard-map.js:127-168 | publishing a map with the same partitions keeps names, topology and every object's shard, and assigns the peers asked for |
| ShardMaps.PublishStartsReshard | src/shard-map.js:127-168 | publishing other partitions yields a valid resharding map that remembers its source, with target names disjoint from the source's, as many as desired, and the peers asked for |
| ShardMaps.FinalizeRouting | src/shard-map.js:170-184 | finalizing makes the topology active, changes no object's shard, and is idempotent |
| OpLogs.AppendRepresents | src/crdt.js:50-56 | logging keeps the log a faithful record: every issued op is retained, or recorded as trimmed |
| OpLogs.PruneRepresents | src/crdt.js:629-648 | pruning keeps the log a faithful record of the history |
| OpLogs.PruneExact | src/crdt.js:629-648 | pruning keeps an op if and only if its number lies above the watermark less the retained ones; without an acknowledgement it keeps all |
| OpLogs.DiscardRepresents | src/crdt.js:650-667 | dropping a collection's ops keeps it so |
| OpLogs.DiscardExact | src/crdt.js:650-667 | it takes exactly the collection's ops |
| OpLogs.ScopedTestIsExact | src/crdt.js:621-627 | with a scope, a snapshot is demanded exactly when some wanted op is gone |
| OpLogs.UnscopedTestIsExact | src/crdt.js:621-627 | without a scope the per-scope trim marks decide completeness, and the test is exact if ops only ever went by pruning |
| OpLogs.UnscopedGapAfterDrop | src/crdt.js:621-667 | a concrete log whose unscoped pull silently misses a dropped collection's op |
| OpLogs.PullCovers | src/crdt.js:894-915 | what a pull returns is wanted and issued, and with the new cursor leaves out only ops that are gone |
| OpLogs.GrantedPullIsExact | src/crdt.js:894-915 | a granted pull returns exactly the first `limit` issued ops of the scope after the cursor, in order |
| OpLogs.CollectOpsAfter | src/crdt.js:894-907 | the loop returns the first matching ops of the log up to the limit |
| Replication.StepSound | src/crdt.js:77-100 | every step of the protocol keeps the system invariant |
| Replication.ServeSound | src/crdt.js:1058-1076 | answering a pull keeps the invariant: the reply is covered by the answerer's history |
| Replication.ReceiveSound | src/crdt.js:85-96 | taking ops in keeps the invariant, and all of them are absorbed afterwards |
| Replication.RunsAreSound | src/crdt.js:432-500 | so does every run, with messages lost, repeated and reordered |
| Replication.CursorsAreSound | src/crdt.js:432-500 | in every reachable state each cursor is sound: every op of that source and scope up to it has been absorbed, or was dropped with its collection |
| Replication.StampsAreUnique | src/clock.js:5-11 | in every reachable state two issued ops with the same stamp are the same op |
| Replication.LocalWriteWins | src/crdt.js:77-83 | in every reachable state, after any list of local writes, each object shows what the last request on it asked for, a put its value, a touch the empty object, a delete none, and every other object is as it was |
| Replication.LocalWritesIssued | src/crdt.js:50-83 | each request is issued as one op that carries its kind, key, shard and value, under the node's name, the next clock ticks and the next numbers |
| Replication.Convergence | src/crdt.js:432-500 | two nodes whose cursors have reached every source hold the same last write of each object, at least as new as every issued op on it |
| Replication.WinnerWasIssued | src/crdt.js:85-100 | no node holds a state nobody wrote: each row shows what some issued op on its object wrote, under that op's stamp |
| Replication.RowsShowIssuedOps | src/crdt.js:85-100 | so in every reachable state |
| Replication.CaughtUpShowsGreatest | src/crdt.js:432-500 | a node that has caught up shows what the issued op with the greatest stamp on the object wrote |
| Replication.CursorsNeverGoBack | src/crdt.js:438-494 | no step moves a cursor but a reply, which moves it to the reply's last number, or for an empty reply the answerer's, and never back |
| Replication.AcksAreCapped | src/crdt.js:616-648 | taking an acknowledgement records it, at most the node's own number, and leaves exactly the ops that some peer lacks or that are retained; nothing else of the node changes |
| Replication.DropTakesOneCollection | src/crdt.js:650-667 | dropping a collection takes exactly its rows and logged ops on that node |
| Nodes.CRDTNode.LogOps | src/crdt.js:50-60 | ops get the next stamps and consecutive numbers and are appended in order |
| Nodes.CRDTNode.CommitLocal | src/crdt.js:77-83 | the in-place commit has the effect of the protocol's commit and reports the accepted ops |
| Nodes.CRDTNode.ApplyRemote | src/crdt.js:85-96 | the in-place apply has the effect of the protocol's receive and advances the cursor past the ops taken in |
| Nodes.CRDTNode.LowestAck | src/crdt.js:629-635 | the watermark is the least acknowledged number |
| Nodes.CRDTNode.PruneLog | src/crdt.js:629-648 | the in-place prune has the effect of the protocol's prune: an op stays if and only if nobody has acknowledged, or some peer's acknowledgement is below it or by less than the retained number at or above it |
| Nodes.CRDTNode.TakeAck | src/crdt.js:616-619 | the peer's acknowledgement becomes the given number, at most the node's own, and exactly the ops that some peer lacks or that are retained stay in the log |
| Nodes.CRDTNode.MustSnapshot | src/crdt.js:621-627 | the answer is that of the protocol's test |
| Nodes.CRDTNode.PullOnce | src/crdt.js:432-500 | one round trip: refused exactly when the peer needs to send a snapshot, else one protocol pull and its acknowledgement |
| Nodes.CRDTNode.SyncPeer | src/crdt.js:432-500 | the loop ends with the cursor at the peer's number, everything it retained in between absorbed, and no row older than before |
| Persistence.AcceptSound | src/persistence.js:458-472 | accepting a write keeps the durability invariant |
| Persistence.PutSegmentSound | src/persistence.js:560-565 | so does writing one journal segment |
| Persistence.FailFlushSound | src/persistence.js:575-583 | so does a flush that fails partway and queues everything again |
| Persistence.BeginCheckpointSound | src/persistence.js:699-720 | so does taking the coverage a checkpoint will claim |
| Persistence.ReadRowSound | src/persistence.js:866-876 | so does reading one row of a snapshot while writes go on |
| Persistence.PutPartSound | src/persistence.js:871-876 | so does writing one snapshot part |
| Persistence.PutManifestSound | src/persistence.js:878-900 | so does publishing the manifest, which is what makes the snapshot count |
| Persistence.DeleteSegmentsSound | src/persistence.js:909-925 | so does compaction, in any order and stopped anywhere |
| Persistence.DeletePartsSound | src/persistence.js:927-937 | so does retention of old snapshots |
| Persistence.CrashSound | src/persistence.js:85-148 | so does a crash followed by a restore |
| Persistence.RestoreRegains | src/persistence.js:1197-1252 | a restore regains every write it replays, raises the number to every snapshot's, and holds only replayed writes |
| Persistence.RunsAreSound | src/persistence.js:518-720 | every run of these steps, crashes included, keeps the invariant |
| Persistence.CrashSafety | src/persistence.js:866-925 | after a crash anywhere every journaled op is restored at least as new, with the number and clock at least its own; nothing is invented; and no snapshot part the manifests name is missing |
| Persistence.RestoredRowsShow | src/persistence.js:1197-1252 | each restored row shows what the op issued under its stamp wrote |
| Persistence.JournaledOpShown | src/persistence.js:1197-1252 | a journaled op that nothing newer on its object followed is what the restored row shows |
| Persistence.RestoredCounters | src/persistence.js:1197-1252 | the restored clock and number are the greatest stored, and no greater |
| Persistence.FlushedSurvives | src/persistence.js:223-229 | with nothing left to flush, a crash and restore changes no object's state |
| Durability.PersistenceManager.QueueOp | src/persistence.js:458-472 | a complete op joins the end of its scope's queue and marks the scope; an incomplete one is ignored |
| Durability.PersistenceManager.TakeBatches | src/persistence.js:518-534 | a flush takes everything pending, or nothing while paused |
| Durability.PersistenceManager.RequeueBatches | src/persistence.js:617-623 | failed batches go back in front of what was queued meanwhile, scope by scope |
| Durability.PersistenceManager.MarkCheckpointed | src/persistence.js:766-771 | a scope stays dirty exactly when it was written after the checkpoint began |
| Durability.VersionsCountOps | src/persistence.js:509-516 | a dirty scope counts its ops, its version as many, and keeps their greatest number; other scopes stay as they are |
| Durability.ChunkOps | src/persistence.js:1507-1525 | records partition the batch in order, within both limits but for a lone oversized op, and none could have taken the next op |
| Durability.CoveredSegments | src/persistence.js:909-918 | compaction lists exactly the scope's segments whose last number the snapshot covers |
| Durability.Restorer.RestoreSnapshot | src/persistence.js:939-960 | a present snapshot replays its rows and raises the number to its coverage; it fails exactly when a part is missing |
| Durability.Restorer.RestoreSegment | src/persistence.js:1003-1036 | a segment replays exactly the ops the snapshot does not cover |
| Durability.RestoreAll | src/persistence.js:1197-1252 | the restore loops compute the state of the crash model's restore |
| Resharding.RowsConserved | src/persistence.js:789-822 | a target's restore holds, for each of its objects, the last write of the unfiltered restore, tombstones included, and nothing else |
| Resharding.ExactlyOneTarget | src/persistence.js:789-822 | every restored write is kept by one target, its own, and no other keeps anything for that object |
| Resharding.KeptCounts | src/persistence.js:789-822 | disjoint sets of targets keep disjoint shares of the writes, together all of them |
| Resharding.RowsRelabelled | src/persistence.js:800-810 | a restored row carries the name of the target it now belongs to |
| Resharding.ReshardIsRepeatable | src/persistence.js:773-787 | whatever a target node writes to its own disjoint scopes, restoring from the source again replays the same writes |
| Resharding.ReshardReadiness | src/persistence.js:255-291 | ready exactly when every collection and target shard has a completed manifest of this topology, with the missing ones listed and counted |
| Resharding.ExpectedCount | src/persistence.js:255-291 | one scope is expected for each collection and target shard |
| ReshardRuns.StepSound | src/persistence.js:138-144 | a start, a restart or a checkpoint step of any target node leaves the source scopes as they were and every published target snapshot exact |
| ReshardRuns.RunsAreSound | src/persistence.js:85-148 | so does every run of any number of target nodes over one storage, restarts included |
| ReshardRuns.ReshardConserves | src/persistence.js:255-291 | once every expected manifest is there, at any point of any run, restoring the target scopes gives exactly the rows that restoring the source scopes gave, tombstones included |
| Layout.UnsetLeaf | src/store.js:2770-2791 | unsetting a path removes exactly the leaves under it, emptied parents included |
| Layout.SetLeaf | src/store.js:2753-2768 | setting a path replaces exactly the leaves under it, and any scalar in the way |
| Layout.MergeLeaf | src/store.js:2734-2742 | merging shows the hot part's leaf where it has one, else the cold part's |
| Layout.PickPathsShow | src/store.js:2719-2726 | picking shows the whole value under the picked paths and nothing else |
| Layout.ForceShows | src/store.js:2706-2716 | forced paths move wholly from cold to hot |
| Layout.UntierSplit | src/store.js:2697-2742 | merging the cold part under the hot part gives the value that was split, for every admissible keep, offload and forced list |
| Layout.SplitParts | src/store.js:2697-2742 | in two parts, every leaf is in the part it belongs to and in no other: kept and forced leaves in the hot one, or without a list of kept paths all that are not offloaded |
| Layout.LayoutRoundTrip | src/store.js:178-272 | strip columns, split, merge, set columns back: the original object, for every list of admissible paths, overlapping or not |
| Layout.CanonicalRoundTrip | src/store.js:178-272 | in particular for canonical paths that meet plain objects only |
| Layout.ColumnRoundTripExact | src/store.js:178-188 | for one column path the round trip holds if and only if the path is admissible for the object |
| Layout.ColumnsRoundTripExact | src/store.js:178-272 | for any number of column paths of which none lies under another, tiering included, it holds if and only if every one is admissible |
| Layout.DoubledDotLosesValue | src/store.js:2797-2799 | a concrete object that `a..b` loses a value of |
| Layout.ArrayPathLosesArray | src/query.js:49-59 | a concrete object that `a.0` loses an array of |
| TieredBases.TieredBase.Write | src/store.js:190-222 | a base row stripped of some paths is stored in a hot and a cold part that stand for it, whatever the tiering; it is split exactly when the tiering leaves something cold that is not too small, and then every leaf is in its part; no other row changes |
| TieredBases.TieredBase.Remove | src/store.js:308-309 | both parts of the row go |
| TieredBases.TieredBase.Read | src/store.js:253-258 | the cold part merged under the hot one is the row that was written |
| TieredBases.TieredBase.Configure | src/store.js:560-572 | another tiering changes no row that is read |
| Pools.AcquireValid | src/store.js:2216-2227 | giving a row a code keeps counts equal to uses, live codes and values in bijection, free codes disjoint; the code stands for the value |
| Pools.ReleaseValid | src/store.js:2195-2208 | taking a row's code away keeps that, and every other row keeps its value |
| RidColumns.ApplyStateMeans | src/store.js:2141-2214 | writing one row changes what that row holds and no other, whatever it held before |
| RidColumns.TotalsExact | src/store.js:2020-2062 | the running sum and the three counts equal a recount of all rows |
| RidColumns.TypedRidColumn.StartBuild | src/store.js:2064-2069 | a build begins with nothing pending and a new number |
| RidColumns.TypedRidColumn.Install | src/store.js:2071-2094 | the built column is taken over, overlaid with what was pending, if and only if it is the current build |
| RidColumns.TypedRidColumn.Fail | src/store.js:2096-2101 | only the current build can fail the column, and then nothing stays pending |
| RidColumns.TypedRidColumn.UpdateScalarState | src/store.js:2103-2109 | one row changes: in place, or among the pending while building |
| RidColumns.TypedRidColumn.Remove | src/store.js:2111-2113 | the row is absent, in place or among the pending |
| RidColumns.TypedRidColumn.ValueFor | src/store.js:2131-2139 | the value the row's cells stand for |
| RidColumns.ColumnStateRoundTrip | src/store.js:2543-2548 | values and column states determine each other, in both directions |
| TypedColumns.NewColumn | src/store.js:2020-2062 | a new typed column stands for an empty ready map |
| TypedColumns.UpdateRow | src/store.js:2103-2113 | writing or deleting a row in the typed column is the map column's update, ready or pending |
| TypedColumns.ScanRow | src/store.js:1489-1496 | a scanned row enters the column under construction as it enters the map |
| TypedColumns.InstallBuild | src/store.js:2071-2094 | installing the scanned column is the map column's install |
| TypedColumns.ReadCell | src/store.js:2131-2139 | reading a cell reads the map |
| RidQueues.RidBitmapQueue.Add | src/store.js:1782-1790 | the row is in the queue, and is reported as new exactly when it was not |
| RidQueues.RidBitmapQueue.Delete | src/store.js:1792-1798 | the row leaves the queue; every other one stays queued or handed out |
| RidQueues.RidBitmapQueue.Clear | src/store.js:1804-1809 | nothing is queued |
| RidQueues.RidBitmapQueue.Take | src/store.js:1811-1828 | hands out queued rows up to the limit, loses none, and hands out nothing only when none is queued |
| FieldIndexes.FieldIndex.AddValue | src/store.js:1883-1893 | the forward map, every key's rows, the value's group and the contains states gain exactly this row |
| FieldIndexes.FieldIndex.RemoveValue | src/store.js:1895-1904 | and lose exactly this row |
| FieldIndexes.FieldIndex.RemoveRid | src/store.js:1906-1909 | forgetting a row by its recorded value keeps the index exact |
| FieldIndexes.FieldIndex.IdsForValues | src/store.js:1911-1917 | exactly the rows that hold one of the scalars, themselves or within arrays |
| FieldIndexes.FieldIndex.IdsForContains | src/store.js:1919-1923 | answers exactly when no row holds a string, bare scalar or nested array, and then with the arrays that contain the scalar |
| FieldIndexes.AddValid | src/store.js:1883-1893 | adding under a row that has no value keeps the index exact |
| FieldIndexes.RemoveValid | src/store.js:1895-1904 | removing the recorded value keeps it exact |
| FieldIndexes.RowIndexedPlaces | src/store.js:1883-1904 | a row is indexed right exactly when it is listed in every place where its recorded value belongs and in no other |
| FieldIndexes.FieldIndex.IterateGroups | src/store.js:1929-1934 | the groups, undefined and null apart, list each row under its recorded value, cut to the filter; every row is in one |
| Collections.ReadIsContent | src/store.js:319-345 | in a sound state a row reads as its last accepted value, from base and columns or, while deferred, from the base alone |
| Collections.BatchSound | src/store.js:92-104 | any batch, with repeated rows too, leaves reads at the last accepted values |
| Collections.BatchDefers | src/store.js:92-104 | with an index or column, a batch of 5000 accepted rows or more defers exactly its rows and leaves the indexes alone, and a smaller one defers none; the base keeps the whole row when 5000 rows were handed in or rows are deferred already, and else exactly the leaves that no ready column holds |
| Collections.CatchUpKeeps | src/store.js:1236-1266 | catching a row up keeps every read and, where they were exact, the lookups |
| Collections.CreateIndexKeeps | src/store.js:1314-1322 | so does building an index from all rows, in any order |
| Collections.BeginBuildKeeps | src/store.js:1459-1480 | so does starting a column build |
| Collections.ScanKeeps | src/store.js:1482-1500 | so does scanning one row for it |
| Collections.InstallLinearises | src/store.js:1482-1515 | however writes fell between scan slices, the installed column holds every row's current value |
| Collections.InstallKeeps | src/store.js:1500-1515 | installing it keeps every read |
| Collections.StripKeeps | src/store.js:1517-1527 | so does stripping ready column fields from a row that is not deferred, or that lacks them |
| Deferral.BatchLookupsExact | src/store.js:92-104 | after any batch the lookups are exact if and only if it was deferred or, in every index, each place a row was listed during the batch was read by a later change of that row or is its final one |
| Deferral.DistinctBatchExact | src/store.js:1158-1207 | in particular after a batch of different rows |
| Deferral.ClearBatchExact | src/store.js:1158-1207 | and after any batch if no ready column overlaps an indexed path, as without columns |
| Deferral.RepeatedRowLeavesStaleLookup | src/store.js:92-104 | a concrete small batch with a repeated row that leaves a stale index entry |
| Deferral.StepSound | src/store.js:1158-1266 | every step keeps reads right, batches with repeated rows too, but for a strip that finds something in a deferred row |
| Deferral.RunReadsExact | src/store.js:1158-1527 | over all interleavings of batches, catch-up, scans, installs and strips every row reads, at every point, as its last accepted value, if and only if no strip finds something in a row deferred at that point |
| Deferral.RunLookupsExact | src/store.js:1158-1266 | along such a run the lookups stay exact if and only if every batch meets its condition |
| Deferral.EveryRunReadsContent | src/store.js:1158-1527 | in particular from the empty collection |
| Deferral.StripOfDeferredRow | src/store.js:1517-1527 | a deferred row that is stripped reads as what is left, and goes on doing so after catch-up; nothing is lost if and only if there was nothing to strip |
| Deferral.StripLosesValue | src/store.js:1482-1527 | a concrete run from the empty collection that loses a written value so |
| Deferral.CleanIsRebuilt | src/store.js:1236-1266 | with nothing deferred, each index answers every lookup, group and contains test as one rebuilt from scratch, and each ready column holds what one would |
| LiveCollections.Collection.Apply | src/store.js:92-104 | the in-place batch over tiered rows has the effect of the batch function and keeps reads right; lookups stay exact exactly under the batch condition |
| LiveCollections.Collection.ReadRow | src/store.js:337-345 | the in-place read is the read function |
| LiveCollections.Collection.CatchUpRows | src/store.js:1236-1266 | the in-place catch-up keeps reads and lookups and takes exactly its rows off the deferred set |
| LiveCollections.Collection.Drain | src/store.js:1236-1253 | the take, refresh, forget loop over the queue ends with nothing deferred or queued, and keeps reads and lookups |
| LiveCollections.Collection.Retier | src/store.js:723-728 | rewriting every row under a new tiering keeps all reads if and only if no deferred row holds a field of a ready column |
| LiveCollections.StripAllExact | src/store.js:723-728 | the same about the rewriting function, with what is left of the other rows |
| LiveCollections.RetierLosesValue | src/store.js:560-572 | a concrete run from the empty collection, every read right, on whose last state a change of tiering loses a written value for good |
| Queries.KeyDecidesEquality | src/query.js:383-400 | an index key decides equality with a constant if and only if the values are not equal by conversion only |
| Queries.EqualMeans | src/query.js:383-400 | a value equals a constant when some scalar of it that is not blank is the constant or, unless both are texts, converts to the same number |
| Queries.ContainsMeans | src/query.js:295-299 | a text contains a constant when it reads somewhere in it, an array when an entry equals it, and nothing else does |
| Queries.SameTypeNeverLoose | src/store.js:2565-2567 | values of the constant's type are never equal by conversion only |
| Queries.TrueEqualsOneUnindexed | src/query.js:383-400 | a concrete pair that is equal and indexed apart |
| Queries.NumeralEqualsNumberUnindexed | src/query.js:379-400 | a text equals a number exactly when it converts to it, and is never indexed under it |
| Queries.ConstraintExact | src/store.js:1080-1107 | with any rows deferred, one constraint's answer is refused or exact |
| Queries.RidsExact | src/store.js:1018-1048 | for every nesting of and, or and constraints the answer is refused or exactly the live matching rows |
| Queries.PartialCovers | src/store.js:1050-1078 | the partial answer is none or a superset of them |
| Queries.ServedIsAnswered | src/store.js:1018-1048 | criteria built from equalities on indexed paths are never refused |
| Queries.RidsForCriteria | src/store.js:1018-1048 | the loops compute that answer |
| Queries.FindRids | src/store.js:383-410 | find and count by plan give exactly the rows of a full scan |
| Paging.DistributedPage | src/shard-router.js:649-709 | sorting and cutting the shards' first offset+limit rows gives the page of the sorted whole, row by row, for any rows that the comparison orders |
| Paging.DistributedPageKeys | src/shard-router.js:649-709 | for any split and order of the same rows the page has the sort keys of the global page |
| Paging.UnsortedPage | src/shard-router.js:649-709 | without a sort the page is that of the concatenated shards |
| Paging.PageIs | src/shard-router.js:704-709 | a page is empty when it starts at or beyond the end, and else holds the rows from the offset on, up to the limit |
| Paging.PagesCover | src/query.js:155-160 | pages of one size, one after the other, give the whole list |
| Paging.SortStable | src/shard-router.js:696-702 | the sort is stable: rows with one sort key keep their order |
| Paging.DistributedPageAnyTies | src/shard-router.js:649-709 | however each shard orders the rows that tie, the page has the sort keys of the global page |
| Paging.Find | src/shard-router.js:76-124 | the merge loop's answer has as many rows as there are from the offset on, up to the limit; row `i` has the key of row `offset + i` of any listing of all rows in the order asked for, which is numbers by size, other keys by collation, missing keys last, or all this reversed; all are rows of the shards; and it is that very row of the stable sort when the shards break ties as it does |
| Paging.KeysOrdered | src/query.js:162-168 | the comparison orders a set of keys, under every collation, if and only if the keys are sortable: not null and undefined together, and numbers not together with other values |
| Paging.RowsOrdered | src/store.js:2479-2484 | rows with sortable keys are ordered, ascending and descending |
| Paging.LexicalOrdered | src/aggregate.js:357-373 | any number of consistent sort keys make a consistent order |
| Paging.MixedKeysCycle | src/query.js:162-168 | concrete keys of two kinds that form a cycle |
| Paging.NullAndUndefinedDisagree | src/query.js:162-168 | null and undefined each come after the other |
| Aggregates.StepIsMerge | src/aggregate.js:223-260 | stepping a row into a state is merging a fresh one-row state |
| Aggregates.MergeAllAssociates | src/aggregate.js:296-327 | merging states is associative with the fresh state as unit, for sum, avg, min, max and count |
| Aggregates.AbsorbMerged | src/aggregate.js:75-90 | merging a bucket into a partial first and then absorbing the partial is the same as absorbing it last |
| Aggregates.PartialsMerge | src/aggregate.js:37-121 | merging the partials of any split of rows with one type per minimum and maximum gives the partial of all rows, group order included |
| Aggregates.AggregatePartialObjects | src/aggregate.js:37-73 | the loops compute the encoded partial |
| Aggregates.MergeAggregatePartials | src/aggregate.js:75-121 | the loops compute the sorted, paged answer of the merged buckets |
| Aggregates.EncodeRoundTrip | src/aggregate.js:278-327 | a bucket survives its row encoding when no two columns clash |
| Aggregates.EncodeRoundTripExact | src/aggregate.js:278-327 | every bucket of a spec survives its row encoding if and only if no two columns clash |
| Aggregates.ClashLosesGroup | src/aggregate.js:278-294 | a concrete spec whose metric overwrites its group field |
| Aggregates.AnswerSorted | src/aggregate.js:357-373 | the answer's rows are the groups in the order of all sort keys: the first key that tells two rows apart has them in its direction, numbers by size, missing cells last in either direction; cut to the page |
| AnswerMeanings.FoldMeans | src/aggregate.js:223-277 | a finished metric over the rows of a group: the sum of the numbers at the path; their average, null without any; the number of rows, or of those where the path is neither missing nor null; a least or greatest value that occurs, for one type, and null without any |
| AnswerMeanings.FinishedAnswers | src/aggregate.js:92-121 | each group that occurs has one row, which holds the group's values and, under each name, the metric over that group's rows |
| AnswerMeanings.AnswerMeans | src/aggregate.js:75-121 | the answer is the asked page of these rows, in order of first appearance or sorted |
| AnswerMeanings.AggregateShards | src/shard-router.js:157-184 | and so is what is merged from the partial rows of any number of shards, about all their rows together |
| Splits.SplitsAgreeExact | src/aggregate.js:352-355 | every split of a list of values gives its minimum (or maximum) if and only if that value occurs before the first value of another type |
| Splits.PartialsMergeExact | src/aggregate.js:37-121 | every split of the rows merges to the partial of them all if and only if that holds of each minimum and maximum in every group |
| Splits.OneTypeIsSafe | src/aggregate.js:352-355 | in particular with one type of value at each path |
| Splits.MixedTypesDependOnSplit | src/aggregate.js:352-355 | three concrete rows whose minimum depends on the split |
| Splits.FanOutAnswer | src/shard-router.js:157-184 | encoding, fan-out, decoding, merging, sorting and paging give the answer over all rows at once |
| Groups.PartialLook | src/aggregate.js:92-121 | a group exists exactly when some row is in it, and its states fold that group's rows |
| Groups.FlatScan | src/store.js:2361-2366 | without groups the states of all rows are the whole partial, none when there are no rows |
| Groups.SameGroupsAndMetrics | src/aggregate.js:37-73 | the order in which rows arrive changes no group and no metric |
| AggregatePlans.ReadyColumnsHeld | src/store.js:942-955 | in a sound state the columns a plan may use hold, for every row, what its live object holds at the path |
| AggregatePlans.ScanColumns | src/store.js:2260-2359 | the column scan's states are those of the row fold |
| AggregatePlans.ScanGroupedColumns | src/store.js:2390-2422 | the grouped scan gives the row fold's buckets, or gives up, only on a group value that is no scalar |
| AggregatePlans.ScanForwardGrouped | src/store.js:2424-2448 | so does the scan with the index's forward map |
| GroupIndexPlans.AggregateGroupIndex | src/store.js:1577-1607 | the index's groups, undefined and null apart, each once, counted or scanned, are merged in some order |
| GroupIndexPlans.GroupIndexExact | src/store.js:1577-1607 | every order of the groups and of their rows merges to the row fold of exactly the filtered rows if and only if, for each minimum and maximum, the rows without the group field and those where it is null hide no value from each other by its type |
| GroupIndexPlans.OneTypeNullGroup | src/aggregate.js:352-355 | in particular with one type of value at each path |
| GroupIndexPlans.NullGroupHidesMinimum | src/store.js:1577-1607 | three concrete objects whose minimum an order of the groups misses |
| AggregatePlans.SummaryIsFold | src/store.js:1552-1575 | for any sums, averages and counts the running totals are the fold over the live rows if and only if no counted field is null in one |
| AggregatePlans.AnyOrder | src/store.js:1529-1618 | a plan that folds each of its rows once has the groups and metrics of folding them in any order |
| QueryPlanner.RowsForPlan | src/store.js:987-1008 | the rows a plan visits, all, exact or checked one by one, are exactly the matching live ones |
| QueryPlanner.SummaryFolds | src/store.js:1552-1575 | in a sound state the summary is the fold over all live rows if and only if no counted field is null |
| QueryPlanner.Aggregate | src/query-planner.js:110-186 | over any valid state the planned aggregate folds exactly the matching live rows, by whichever of the six paths, with two exceptions: null counts in a summary, with an exact condition, and a group index whose null group is not safe, which still gives one order of its groups; folding all rows, it has the groups and metrics of folding them in any order |
| QueryPlanner.FlatPlansIgnorePage | src/store.js:2361-2366 | the row fold answers any page of a flat aggregate but the first with nothing, so a flat plan's answer is the fold's if and only if page one is asked for or there are no rows |
| QueryPlanner.SecondPageOfCount | src/store.js:2361-2366 | two concrete objects whose count a flat plan answers with on page two |
| QueryPlanner.SummaryCountsNull | src/store.js:1552-1575 | one concrete object whose null the summary counts and a scan does not |
| Heaps.RootFirst | src/hnsw.js:11-13 | nothing in a heap comes before its root |
| Heaps.Heap.Push | src/hnsw.js:15-18 | heap order and contents plus the item |
| Heaps.Heap.Pop | src/hnsw.js:20-28 | heap order, contents less the item, and the item comes first of all |
| Heaps.Heap.Up | src/hnsw.js:30-37 | restores heap order from one item out of place, contents unchanged |
| Heaps.Heap.Down | src/hnsw.js:39-50 | the same downwards |
| Hnsw.SearchLayer | src/hnsw.js:177-210 | ends; ascending, distinct, at most ef items, the nearest of all it has measured, where it began among them; every neighbour of an answer has been measured |
| Hnsw.SelectNeighbors | src/hnsw.js:212-235 | the greedy spread of the candidates, filled up with the crowded ones in order |
| Hnsw.SelectedSize | src/hnsw.js:212-235 | as many are selected as have a vector, up to the limit |
| Hnsw.SpreadMeans | src/hnsw.js:212-235 | none of the first choice is nearer to an earlier one than to the query, and a usable one is left out only for being crowded or at the limit |
| Hnsw.SelectedMeans | src/hnsw.js:212-235 | what is selected is such a choice, followed by some that were passed over, as many as there is room for |
| Hnsw.PrunedIs | src/hnsw.js:128-139 | a list that has grown too long is cut to a selection from its entries that have a vector, nearest first |
| Hnsw.LinkNode | src/hnsw.js:117-140 | on one layer the node's list is what was chosen, each chosen node's list gains the node and is cut back when too long, and no other list changes |
| Hnsw.HNSWIndex.Insert | src/hnsw.js:94-149 | every list afterwards: on each shared layer the node lists a selection, of at most M or at the bottom 2M, of what a search there finds that begins at what the layer above found, at the top at the end of a greedy descent; each of these links back, cut back when too long; all else is as before; to some node if the entry point has a vector; degrees and entry point stay right |
| Hnsw.HNSWIndex.Search | src/hnsw.js:157-169 | the k nearest, ascending, of what a search of the bottom layer for ef or k items finds that begins where a greedy descent ends; they are the k nearest of all it has measured; empty only without an entry vector |
| Hnsw.HNSWIndex.Descend | src/hnsw.js:112-115 | the descent ends at a node with no nearer neighbour on the layer above, never farther than it began |
| Hnsw.HNSWIndex.Remove | src/hnsw.js:151-155 | the node goes as with UnlinkExisting, an unknown one changes nothing; degrees and entry point stay right |
| Hnsw.HNSWIndex.UnlinkExisting | src/hnsw.js:237-249 | nodes it listed on a layer lose it there, every other list of every other node is as before; the entry point stays if it can |
| Hnsw.HNSWIndex.ResetEntryPoint | src/hnsw.js:251-263 | a node of the highest layer becomes the entry point |
| ObjectStores.ValueDirectory.Store | src/object-store.js:90-115 | the stored value equals the given one; pool counts grow by exactly the keys handed back, all short texts or small containers within it; a short text or small container that is pooled or has earned its place is shared whole |
| ObjectStores.ValueDirectory.StoreNested | src/object-store.js:117-131 | the value rebuilt from its stored pieces equals the given one, and every pooled piece of a moderate container is shared |
| ObjectStores.ValueDirectory.ShouldPromote | src/object-store.js:144-152 | promotes exactly when there is room and this sighting reaches the threshold, and otherwise counts the sighting |
| ObjectStores.ValueDirectory.EarnedMeans | src/object-store.js:144-172 | what it takes to earn a place: room in the pool, a path that has its candidates or may get them, and with this sighting as many as the threshold; a field without a name counts under its own |
| ObjectStores.ValueDirectory.Remember | src/object-store.js:164-183 | the count is remembered, the running total stays exact and bounded, at most two others are forgotten and none when there is room |
| ObjectStores.ValueDirectory.DropOldest | src/object-store.js:191-200 | forgets exactly the oldest candidate of the first path that has one |
| ObjectStores.ValueDirectory.DeleteCandidate | src/object-store.js:185-189 | forgets exactly that candidate |
| ObjectStores.ValueDirectory.Release | src/object-store.js:137-142 | one reference of that key goes, and the entry with its last |
| ObjectStores.ValueDirectory.ReleaseAll | src/object-store.js:133-135 | exactly the listed references go |
| ObjectStores.CountedWith | src/object-store.js:22-33 | storing a row keeps pool counts equal to the references of all rows |
| ObjectStores.CountedWithout | src/object-store.js:35-40 | so does removing one |
| ObjectStores.ObjectRowStore.Rebuild | src/object-store.js:22-33 | the store stands for the plain map with this object replaced, or removed when it has no fields |
| ObjectStores.ObjectRowStore.RemoveObject | src/object-store.js:35-40 | the plain map without it |
| ObjectStores.ObjectRowStore.Read | src/object-store.js:47-50 | reads the plain map |
| Shapes.SetCellMeans | src/shape.js:73-80 | setting a cell changes that row's value and no other, and keeps codes counted and in bijection |
| Shapes.ClearCellMeans | src/shape.js:90-95 | clearing a cell likewise |
| Shapes.PushRowOk | src/shape.js:158-164 | pushing keeps rows distinct and apart from the free ones |
| Shapes.PushRowReads | src/shape.js:158-164 | the pushed row reads back with the shape's fields, undefined where the object has none, in a reused row too |
| Shapes.PushRowOthers | src/shape.js:158-164 | every other object keeps its row and its fields |
| Shapes.RemoveRowOk | src/shape.js:173-179 | removing keeps rows distinct and apart from the free ones |
| Shapes.RemoveRowOthers | src/shape.js:173-179 | every other object keeps its row and its fields |
| Shapes.PlaceReads | src/shape.js:214-237 | the object reads back as written if and only if its shape has exactly its fields; others are untouched |
| Shapes.CollisionMisreads | src/shape.js:214-237 | of two layouts with one id, the object stored second reads back with the fields of the first |
| Shapes.ShapeStore.Rebuild | src/shape.js:224-237 | a layout move or rewrite changes only this object, which reads back as written if and only if the shape under its id is new, its own, or of its layout |
| Shapes.ShapeStore.WriteField | src/shape.js:239-249 | a field the shape has is set in place, any other write stores the object anew; no other object changes |
| Shapes.ShapeStore.RemoveObject | src/shape.js:251-258 | the plain map without it |
| References.StripIdempotent | src/references.js:156-191 | stripping twice is stripping once |
| References.StripUndoesExpand | src/references.js:193-235 | stripping undoes expansion, for every store, depth and set of objects seen, cycles included |
| References.StripUndoesExpandReferences | src/references.js:45-60 | and so for the entry point |
| References.ExpandStands | src/references.js:193-235 | at every place that fields, array items and embedded copies lead to, a reference embeds the expanded copy of its target if the depth is not used up and the target exists, was not seen on the way and is stored, null if the depth is not used up otherwise, and nothing if it is; a copy's references look in the database it came from |
| References.ExpandReferencesStands | src/references.js:26-60 | and so for the entry point, to the given depth but at most eight |
| References.NoReferenceUnchanged | src/references.js:156-235 | a value without references is changed by neither |
| References.ExpandWithinDepth | src/references.js:193-235 | embedded copies are never nested deeper than the depth |
| References.StrippedHasNoCopies | src/references.js:156-191 | a stripped value embeds no copies at all |
| References.StripReferenceObjects | src/references.js:156-191 | the loops compute the stripped value, report whether there was a reference, and report no change only if there was none |

## Left out

Text and numbers

- Strings are sequences of Unicode characters; UTF-16 units, which matter for hashing and ordering characters beyond the basic plane, are not modelled.
- Keys the source joins into one string (scope keys, cursor keys, group keys) are tuples or datatypes; that the joining is injective is not part of this model.
- Numbers are exact integers; floating point, NaN and infinities are not modelled. Compression and JSON text are identities.
- Which texts `==` converts to which integers is an arbitrary function, as is the rank that `localeCompare` gives a value. A text that converts to a fraction equals no modelled number.

Replication and durability

- Restart of a node for scoped pulls: restore raises `trimmed` but not the per-scope marks, so scoped gap claims hold without restarts only.
- The durable catch-up and snapshot branch of `syncPeer` after a refused pull, streaming of op batches inside one pull, peer tables and retry.
- `Replication.Convergence`: only for objects of collections that no node has dropped; a node that dropped a collection ignores ops on it.
- Nodes with the operation log switched off (the embedded mode).
- Creating, re-creating and dropping databases and collections in persistence; metadata and tombstone keys.
- The manifest is stored under two keys; only the one that restore reads (`latest.json`) is modelled.
- Several writers sharing a journal; the local write-ahead log; restoring a chosen snapshot; restore targets outside resharding.
- `ShardMaps.PublishStartsReshard`: the new topology's id is an input; that hashing the old id and the signature makes a fresh one is an assumption of the lemma. The order in which peers are assigned is an input too.

Collections and queries

- The collection's change list holds changes already accepted by last-write-wins (proved in `Rows`), by row number; ids, shards and vectors of rows are not in the same state.
- The collection object keeps its deferred rows as a set and its columns as maps; `LiveCollections.Collection.Drain` runs it with the queue object, and `TypedColumns` proves that the typed column is such a map, but the object does not hold them. The typed column keeps its typed arrays as sequences in one record field, so update in place within an array is not captured.
- Rebuilding a column that still shows old values, and the background field-index build, which keeps only the first old value of a row: synchronous index builds and fresh columns only.
- `Queries.RidsExact`: constants must be non-empty scalars that no stored value equals by conversion only; `Queries.KeyDecidesEquality` says exactly which those are.
- Constraints on `_id`, several operators on one path, regular expressions, dates and callbacks: any operator no index serves is one arbitrary predicate.
- Ordered index reads. Scoped ids and id filters of a plan.
- `LiveCollections.Collection.Apply`: with a tiering, its paths and those of indexes and columns are canonical and meet plain objects only.
- `LiveCollections.Collection.Retier`: under the same condition.
- Background steps are atomic per row; interleavings inside one row's step are not modelled.

Aggregation

- `Aggregates.PartialsMerge`: min and max see one scalar type per path; `Splits.PartialsMergeExact` drops this and says exactly when splits agree.
- `Groups.SameGroupsAndMetrics`: min and max see one scalar type per path, and texts that `localeCompare` ties are the same text; otherwise the first of the tied ones is kept.
- `QueryPlanner.Aggregate`: the order in which an index keeps its groups and their rows is arbitrary, so beyond the condition that every order meets (`GroupIndexPlans.GroupIndexExact`) it is not said which orders still do. The claim about any order is for one scalar type per minimum and maximum, since their values depend on the order otherwise.
- The older aggregate form with its own metrics; limits the HTTP layer puts on pages.

Structures

- Distances, vectors and random levels of the vector index are inputs; no claim about recall. A node's links to it by nodes it did not link to stay behind when it is removed.
- Shape ids are an arbitrary function of the field names; that two layouts' hashes collide is a hypothesis of `Shapes.CollisionMisreads`. Byte statistics and query-only reads are left out.
- Sharing and freezing of stored objects in memory: a stored value equals the given one, but object identity is not modelled.
- HTTP, authentication, files, user interface, configuration, hooks, permissions, memory guard, timers.
