# A verified model of a small GFS-style PDF store

The system stores PDF blobs in the style of the Google File System. A **master** holds the
metadata of every blob, meaning its size and its list of chunk locations `(chunkIndex,
chunkserverUrl, replicaIndex)`. It also tracks which chunkservers are registered and healthy,
and it plans where the chunks of a new upload go. An **integrity monitor** on the master runs
four periodic passes:

- repairing missing chunks;
- enforcing the replication factor;
- removing stale metadata of unhealthy servers;
- garbage-collecting orphan chunks.

**Chunkservers** store one file per chunk and list their inventory. They send heartbeats and
register with the master, retrying with a backoff. The **client** splits a blob into
`CHUNK_SIZE` windows and fans each one out to its replicas. It reassembles the blob by chunk
index, falling back from one replica to the next.

The model replaces every remote call by a lookup or an update on an abstract fleet,
`Nodes = map<Url, map<ChunkKey, Bytes>>`. A URL absent from the map is a node that does not
answer, so every call to it fails. Each Java loop becomes a method with a `while` loop. Its
invariant ties the state to a specification function folded over the prefix visited so far.
The properties the code promises are lemmas about those functions.

| file | module | models |
|---|---|---|
| common.dfy | Common | `ChunkLocation`, `PdfMetadata`, chunk keys, `Result`, small sequence helpers |
| locations.dfy | Locations | `groupByIndex` and the filters over location lists |
| network.dfy | Network | the chunk HTTP calls as seen by callers (`ChunkNetwork`) |
| master.dfy | Master | `MasterService`, including `ChunkserverInfo` and the rotation placement |
| replication.dfy | Replication | the rules of `checkReplicationFactor`, `replicateChunk` and `removeExcessReplicas` |
| cleanup.dfy | Cleanup | the rules of `cleanupStaleMetadata` |
| collection.dfy | Collection | the rules of `garbageCollection` |
| monitor.dfy | Monitor | `IntegrityMonitor`, its four passes as methods over the master and the fleet |
| client.dfy | Client | `GfsClientService`: slicing, fan-out, ordered fallback, reassembly |
| names.dfy | ChunkNames | `generateFilename`, the name pattern, `split`, `replace`, `Integer.parseInt` |
| storage.dfy | Storage | `StorageService` over a directory of named entries, including `getInventory` |
| heartbeat.dfy | Heartbeat | the `sendHeartbeat` reconnection state machine |
| registration.dfy | Registration | the `autoRegister` retry loop with backoff |

Three master operations are called by IntegrityMonitor.java but not defined in
MasterService.java: `addChunkReplica`, `removeChunkReplica` and `getAllChunkservers`. The
model gives them **assumed** contracts:

- `addChunkReplica` appends the location to the blob's list;
- `removeChunkReplica` removes every location of `(chunkIndex, url)`;
- `getAllChunkservers` returns every registered URL once.

Where the system's documented design and its code differ, the model follows the code:

- Placement is a pure rotation of the healthy list by the chunk index, taking the first
  min(RF, n) servers. The code does not rank servers by load.
- A download visits indices `0..k-1`, where `k` is the number of distinct indices in the
  metadata view. It is not `ceil(size / CHUNK_SIZE)`.
- The status report has no load distribution.

## Model

| member | source | states |
|---|---|---|
| Common.Take | master/src/main/java/com/gfs/master/service/IntegrityMonitor.java:425-428 | `stream().limit(n)`: the first min(n, length) elements in order, none for n <= 0 |
| Locations.ReplicasOfMembers | master/src/main/java/com/gfs/master/service/IntegrityMonitor.java:593-600 | a bucket of `groupByIndex` holds exactly the locations of its index and is no longer than the list |
| Locations.DistinctIndices | master/src/main/java/com/gfs/master/service/IntegrityMonitor.java:74 | the index groups visited: every chunk index that occurs, each once |
| Locations.GroupByIndex | master/src/main/java/com/gfs/master/service/IntegrityMonitor.java:593-600 | one non-empty bucket per index that occurs, each bucket the locations of that index in list order |
| Locations.GroupingDone | master/src/main/java/com/gfs/master/service/IntegrityMonitor.java:595-599 | the loop invariant over the whole list is the grouping of the list |
| Locations.GroupingStep | master/src/main/java/com/gfs/master/service/IntegrityMonitor.java:596-597 | `computeIfAbsent(...).add(chunk)` keeps the buckets exact for one more location |
| Locations.ReplicasOfSnoc | master/src/main/java/com/gfs/master/service/IntegrityMonitor.java:596-597 | one more location extends only the bucket of its own index |
| Locations.IndicesSnoc | master/src/main/java/com/gfs/master/service/IntegrityMonitor.java:596 | one more location adds exactly its index to the key set |
| Locations.ReplicasOfAbsent | client/src/main/java/com/gfs/client/service/GfsClientService.java:143-146 | an index that no location names has no bucket (the `replicas == null` case) |
| Locations.OnServersMembers | master/src/main/java/com/gfs/master/service/MasterService.java:132-136 | the filter of `getMetadata` keeps exactly the locations on listed servers |
| Locations.OnServersAppend | master/src/main/java/com/gfs/master/service/MasterService.java:132-136 | the filter commutes with concatenation, so the kept locations stay in list order |
| Locations.OnServersAll | master/src/main/java/com/gfs/master/service/MasterService.java:132-136 | a list whose servers are all healthy comes back unchanged |
| Locations.RemoveMatchingMembers | master/src/main/java/com/gfs/master/service/IntegrityMonitor.java:298-300 | the assumed `removeChunkReplica` drops exactly the locations of (chunkIndex, url) |
| Locations.IndexOfReplica | master/src/main/java/com/gfs/master/service/MasterService.java:195-208 | the position of the first location matching (chunkIndex, oldServerUrl), or none when nothing matches |
| Locations.IndicesBound | master/src/main/java/com/gfs/master/service/MasterService.java:254-259 | a blob has no more distinct chunk indices than locations |
| Locations.ReplicasOfAppend | master/src/main/java/com/gfs/master/service/MasterService.java:78-93 | bucketing distributes over concatenation of the per-chunk location lists |
| Locations.ReplicasOfUniform | master/src/main/java/com/gfs/master/service/MasterService.java:82-86 | the locations of one chunk form one whole bucket |
| Locations.FlattenBuckets | master/src/main/java/com/gfs/master/service/MasterService.java:78-93 | when the i-th list holds only chunk i, bucket i of the concatenation is that list and every other bucket is empty |
| Network.ReadChunk | master/src/main/java/com/gfs/master/service/IntegrityMonitor.java:525-539 | a read succeeds exactly when the node answers and holds the chunk |
| Network.ChunkNetwork.Write | master/src/main/java/com/gfs/master/service/IntegrityMonitor.java:544-557 | the write succeeds exactly when the node answers, which then holds the payload under the key; no node joins or leaves |
| Network.ChunkNetwork.Delete | master/src/main/java/com/gfs/master/service/IntegrityMonitor.java:578-588 | the delete succeeds exactly when the node answers, which then no longer holds the key; no node joins or leaves |
| Master.HealthyAmong | master/src/main/java/com/gfs/master/service/MasterService.java:222-233 | exactly the registered servers with now - lastHeartbeat < 30000, in registry order, each once |
| Master.Upsert | master/src/main/java/com/gfs/master/service/MasterService.java:144-161 | one record per URL: only `url` may join, the others are unchanged, the first-registered id is kept, the clock refreshed, the inventory replaced |
| Master.HeartbeatMakesHealthy | master/src/main/java/com/gfs/master/service/MasterService.java:340-347 | a server that just reported stays healthy for 30 s and the health of every other server is unaffected |
| Master.NumChunksBounds | master/src/main/java/com/gfs/master/service/MasterService.java:73 | ceil(size / CHUNK_SIZE): 0 for an empty blob, otherwise the least count whose pieces cover the size |
| Master.Rotate | master/src/main/java/com/gfs/master/service/MasterService.java:109 | `Collections.rotate`: same length, position j holds element (j - distance) mod n |
| Master.RotatedPrefix | master/src/main/java/com/gfs/master/service/MasterService.java:109-114 | the copied prefix of the rotated list has the requested length |
| Master.RotatedPrefixAt | master/src/main/java/com/gfs/master/service/MasterService.java:109-114 | position j of the copied prefix is element (j - distance) mod n |
| Master.RotatedPrefixIsRotation | master/src/main/java/com/gfs/master/service/MasterService.java:106-114 | the copied prefix equals the prefix of `Collections.rotate` |
| Master.SelectedServers | master/src/main/java/com/gfs/master/service/MasterService.java:104-117 | min(RF, n) servers are selected |
| Master.SelectedServersAt | master/src/main/java/com/gfs/master/service/MasterService.java:109-113 | selected[k] is healthy[(k - chunkIndex) mod n] |
| Master.SelectedServersDistinct | master/src/main/java/com/gfs/master/service/MasterService.java:104-117 | the replicas of one chunk go to distinct healthy servers |
| Master.SelectionPeriodic | master/src/main/java/com/gfs/master/service/MasterService.java:109 | the choice depends only on chunkIndex mod n |
| Master.Placements | master/src/main/java/com/gfs/master/service/MasterService.java:82-86 | one location per selected server, all of chunk i |
| Master.PlacementsAt | master/src/main/java/com/gfs/master/service/MasterService.java:82-86 | location k is replica k on the k-th selected server |
| Master.PlacementsSnoc | master/src/main/java/com/gfs/master/service/MasterService.java:82-86 | each inner iteration appends exactly one location |
| Master.ChunkPlans | master/src/main/java/com/gfs/master/service/MasterService.java:78-93 | one plan per chunk 0..n-1, the i-th naming only chunk i |
| Master.PlanChunksSnoc | master/src/main/java/com/gfs/master/service/MasterService.java:78-93 | each outer iteration appends exactly that chunk's plan |
| Master.PlanBuckets | master/src/main/java/com/gfs/master/service/MasterService.java:78-93 | in the plan, chunk i < n has exactly its own plan as bucket and no other index occurs |
| Master.PlanShape | master/src/main/java/com/gfs/master/service/MasterService.java:78-113 | every index 0..n-1 has min(RF, n) locations, the k-th with replica index k on healthy[(k - i) mod n], on distinct servers; no other index occurs |
| Master.PlanIndices | master/src/main/java/com/gfs/master/service/MasterService.java:73-93 | with RF > 0 the plan names exactly the indices 0..ceil(size/CHUNK_SIZE)-1 |
| Master.PlanBounds | master/src/main/java/com/gfs/master/service/MasterService.java:78-89 | the plan has n * min(RF, |healthy|) locations, each on a healthy server, with index below n and replica index below min(RF, |healthy|) |
| Master.FilteredView | master/src/main/java/com/gfs/master/service/MasterService.java:130-138 | same id and size; exactly the locations on healthy servers |
| Master.WithReplica | master/src/main/java/com/gfs/master/service/IntegrityMonitor.java:454 | the assumed `addChunkReplica` appends the location to its blob and touches no other record |
| Master.WithoutReplica | master/src/main/java/com/gfs/master/service/IntegrityMonitor.java:240 | the assumed `removeChunkReplica` filters only its blob's list and touches no other record |
| Master.TotalChunks | master/src/main/java/com/gfs/master/service/MasterService.java:251-260 | the distinct (blob, index) count never exceeds the location count |
| Master.MasterService.constructor | master/src/main/java/com/gfs/master/service/MasterService.java:31-32 | the master starts with no blobs and no chunkservers |
| Master.MasterService.GetHealthyChunkservers | master/src/main/java/com/gfs/master/service/MasterService.java:222-233 | exactly the registered servers healthy at `now`, each once |
| Master.MasterService.GetAllChunkservers | master/src/main/java/com/gfs/master/service/IntegrityMonitor.java:267 | the assumed `getAllChunkservers`: every registered URL, once |
| Master.MasterService.ListAllPdfs | master/src/main/java/com/gfs/master/service/MasterService.java:271-273 | every stored record exactly once |
| Master.MasterService.GetChunkserverInventory | master/src/main/java/com/gfs/master/service/MasterService.java:318-321 | the last inventory reported by the server; empty for an unknown one |
| Master.MasterService.SelectServersForChunk | master/src/main/java/com/gfs/master/service/MasterService.java:104-117 | the loop copies exactly the rotated selection |
| Master.MasterService.PlaceChunks | master/src/main/java/com/gfs/master/service/MasterService.java:78-93 | the distribution loop builds exactly the plan of SelectedServers for chunks 0..n-1 |
| Master.MasterService.PlanUpload | master/src/main/java/com/gfs/master/service/MasterService.java:61-99 | no healthy server: error and nothing stored; otherwise the rotation plan of ceil(size/CHUNK_SIZE) chunks stored under pdfId, replacing any old entry, all other entries and the registry unchanged |
| Master.MasterService.GetMetadata | master/src/main/java/com/gfs/master/service/MasterService.java:122-139 | error exactly for an unknown id; otherwise the healthy view of the record; the store is not modified |
| Master.MasterService.ProcessHeartbeat | master/src/main/java/com/gfs/master/service/MasterService.java:144-149 | the registry becomes the upsert with the reported inventory; metadata untouched |
| Master.MasterService.RegisterChunkserver | master/src/main/java/com/gfs/master/service/MasterService.java:154-161 | the registry becomes the upsert with an empty inventory; metadata untouched |
| Master.MasterService.UpdateChunkLocation | master/src/main/java/com/gfs/master/service/MasterService.java:186-217 | only the first location matching (chunkIndex, oldServerUrl) gets the new URL; a no-op for an unknown blob or no match |
| Master.MasterService.RegistryCounts | master/src/main/java/com/gfs/master/service/MasterService.java:242-245 | healthy count <= registered count, so the unhealthy count is never negative |
| Master.MasterService.CountChunks | master/src/main/java/com/gfs/master/service/MasterService.java:254-258 | the distinct indices of a blob and its number of locations |
| Master.MasterService.GetSystemStatus | master/src/main/java/com/gfs/master/service/MasterService.java:238-266 | the registry, healthy and blob counts, healthy + unhealthy = total, and totalChunks <= totalReplicas over the store |
| Master.MasterService.DeletePdf | master/src/main/java/com/gfs/master/service/MasterService.java:278-282 | only the entry of pdfId is removed |
| Master.MasterService.AddChunkReplica | master/src/main/java/com/gfs/master/service/IntegrityMonitor.java:454 | the store becomes the assumed append; the registry is unchanged |
| Master.MasterService.RemoveChunkReplica | master/src/main/java/com/gfs/master/service/IntegrityMonitor.java:298-300 | the store becomes the assumed removal; the registry is unchanged |
| Replication.ActiveMembers | master/src/main/java/com/gfs/master/service/IntegrityMonitor.java:150-153 | active replicas are exactly those on a healthy server that confirm the chunk |
| Replication.CandidatesMembers | master/src/main/java/com/gfs/master/service/IntegrityMonitor.java:425-426 | the target filter keeps exactly the healthy servers holding no listed replica, distinct when the healthy list is |
| Replication.MaxReplicaIndex | master/src/main/java/com/gfs/master/service/IntegrityMonitor.java:447-450 | the largest replica index, or -1 for no replica |
| Replication.FirstOnHealthy | master/src/main/java/com/gfs/master/service/IntegrityMonitor.java:410-413 | the source is the first replica on a healthy server, or none |
| Replication.CopyToTargets | master/src/main/java/com/gfs/master/service/IntegrityMonitor.java:442-462 | at most one copy per target is created |
| Replication.InsertByReplicaDesc | master/src/main/java/com/gfs/master/service/IntegrityMonitor.java:225-227 | insertion keeps the list sorted by decreasing replica index and adds exactly the element |
| Replication.SortByReplicaDesc | master/src/main/java/com/gfs/master/service/IntegrityMonitor.java:225-227 | the sort is by decreasing replica index and a permutation |
| Replication.Evict | master/src/main/java/com/gfs/master/service/IntegrityMonitor.java:232-251 | at most one removal per victim is counted |
| Replication.TargetsFit | master/src/main/java/com/gfs/master/service/IntegrityMonitor.java:421-428 | targets are healthy, hold no listed replica, are distinct, and number min(needed, such servers) |
| Replication.CopyToTargetsWrites | master/src/main/java/com/gfs/master/service/IntegrityMonitor.java:442-462 | every reachable target holds the payload under the chunk's key; other nodes and other keys keep their contents; no node joins or leaves |
| Replication.CopyToTargetsAppends | master/src/main/java/com/gfs/master/service/IntegrityMonitor.java:442-462 | one appended location per reachable target, all with the same replica index, each on a node that now holds the payload; the fleet changes only by those writes and the rest of the metadata not at all |
| Replication.ReplicateAddsFreshReplicas | master/src/main/java/com/gfs/master/service/IntegrityMonitor.java:404-469 | no source: no effect; otherwise at most `needed` new locations, each on a fresh healthy server, with replica index max + 1, on a node holding the source's payload; the fleet changes exactly by writing that payload to the answering targets, and only when the source holds the chunk |
| Replication.EvictOnlyDeleted | master/src/main/java/com/gfs/master/service/IntegrityMonitor.java:232-251 | a location leaves the metadata only after its server answered the delete; no other chunk is deleted |
| Replication.VictimsAreHighest | master/src/main/java/com/gfs/master/service/IntegrityMonitor.java:225-233 | at most `excess` victims, taken from the active replicas, each with a replica index at least that of every replica kept |
| Replication.PrefixHighest | master/src/main/java/com/gfs/master/service/IntegrityMonitor.java:225-233 | a prefix of the sorted list holds the highest replica indices |
| Replication.BalanceChunkUnder | master/src/main/java/com/gfs/master/service/IntegrityMonitor.java:158-173 | under target: lists only grow at the end, nothing is evicted, at most the shortfall is created |
| Replication.BalanceChunkOver | master/src/main/java/com/gfs/master/service/IntegrityMonitor.java:175-190 | over target: lists only lose locations, nothing is created, at most the excess is evicted |
| Replication.BalanceChunkKeeps | master/src/main/java/com/gfs/master/service/IntegrityMonitor.java:150-190 | at target nothing changes; no index adds or removes a blob or node |
| Replication.BalancePdfsKeepsKeys | master/src/main/java/com/gfs/master/service/IntegrityMonitor.java:142-192 | the pass keeps the set of blobs and the set of nodes |
| Replication.BalanceIndicesKeepsKeys | master/src/main/java/com/gfs/master/service/IntegrityMonitor.java:145-191 | one blob's indices keep the set of blobs and the set of nodes |
| Monitor.FirstRepairSource | master/src/main/java/com/gfs/master/service/IntegrityMonitor.java:498-504 | the first replica in list order on another healthy server that confirms the chunk, or none |
| Monitor.FirstRepairSourceAt | master/src/main/java/com/gfs/master/service/IntegrityMonitor.java:498-504 | a source with none before it is the first source |
| Monitor.RepairCopiesFirstSource | master/src/main/java/com/gfs/master/service/IntegrityMonitor.java:491-520 | the target receives the first source's payload, nothing else is written, and success means a source existed and the copy landed |
| Monitor.ProbeBucket | master/src/main/java/com/gfs/master/service/IntegrityMonitor.java:79-98 | repairs never exceed the issues found |
| Monitor.ProbeIndices | master/src/main/java/com/gfs/master/service/IntegrityMonitor.java:74-99 | repairs never exceed the issues found |
| Monitor.ProbePdfs | master/src/main/java/com/gfs/master/service/IntegrityMonitor.java:65-100 | repairs never exceed the issues found |
| Monitor.ProbeStepExtends | master/src/main/java/com/gfs/master/service/IntegrityMonitor.java:84-97 | a probe never loses or alters a chunk |
| Monitor.ProbeBucketExtends | master/src/main/java/com/gfs/master/service/IntegrityMonitor.java:79-98 | a bucket never loses or alters a chunk |
| Monitor.ProbeIndicesExtends | master/src/main/java/com/gfs/master/service/IntegrityMonitor.java:74-99 | a blob's buckets never lose or alter a chunk |
| Monitor.IntegrityOnlyRestores | master/src/main/java/com/gfs/master/service/IntegrityMonitor.java:48-111 | the pass only fills in chunks: every stored chunk keeps its payload, no node joins or leaves |
| Monitor.ProbeSkipsUnhealthy | master/src/main/java/com/gfs/master/service/IntegrityMonitor.java:80-82 | replicas on unhealthy servers are never probed |
| Monitor.IntegrityMonitor.constructor | master/src/main/java/com/gfs/master/service/IntegrityMonitor.java:37-41 | all five statistics counters start at zero |
| Monitor.IntegrityMonitor.RepairChunk | master/src/main/java/com/gfs/master/service/IntegrityMonitor.java:491-520 | the fleet becomes the repair from the first source; the result says whether it succeeded |
| Monitor.IntegrityMonitor.CheckReplicas | master/src/main/java/com/gfs/master/service/IntegrityMonitor.java:79-98 | the replica loop is the probe of one bucket |
| Monitor.IntegrityMonitor.CheckPdf | master/src/main/java/com/gfs/master/service/IntegrityMonitor.java:67-99 | the index loop is the probe of every bucket of the blob |
| Monitor.IntegrityMonitor.CheckPdfs | master/src/main/java/com/gfs/master/service/IntegrityMonitor.java:65-100 | the blob loop is the probe of the snapshot |
| Monitor.IntegrityMonitor.CheckIntegrity | master/src/main/java/com/gfs/master/service/IntegrityMonitor.java:48-111 | no healthy server: nothing changes; otherwise the probe of every blob; metadata untouched; totalChecks + 1 and totalRepairs + repaired |
| Monitor.IntegrityMonitor.ReplicateChunk | master/src/main/java/com/gfs/master/service/IntegrityMonitor.java:404-469 | metadata and fleet become the specified replication step |
| Monitor.IntegrityMonitor.CopyToTargetServers | master/src/main/java/com/gfs/master/service/IntegrityMonitor.java:442-462 | metadata and fleet become the specified copy loop |
| Monitor.IntegrityMonitor.RemoveExcessReplicas | master/src/main/java/com/gfs/master/service/IntegrityMonitor.java:218-254 | metadata and fleet become the eviction of the highest replica indices |
| Monitor.IntegrityMonitor.BalanceIndex | master/src/main/java/com/gfs/master/service/IntegrityMonitor.java:146-190 | one index: replicate exactly when active < min(RF, healthy), evict exactly when active > it |
| Monitor.IntegrityMonitor.BalancePdf | master/src/main/java/com/gfs/master/service/IntegrityMonitor.java:143-191 | the index loop of one blob |
| Monitor.IntegrityMonitor.BalanceAll | master/src/main/java/com/gfs/master/service/IntegrityMonitor.java:142-192 | the blob loop of the pass |
| Monitor.IntegrityMonitor.CheckReplicationFactor | master/src/main/java/com/gfs/master/service/IntegrityMonitor.java:119-213 | no healthy server: nothing changes; otherwise the pass over the snapshot, with the running totals increased by the counts |
| Monitor.IntegrityMonitor.CollectStale | master/src/main/java/com/gfs/master/service/IntegrityMonitor.java:284-294 | the collected list is exactly the stale locations of the blob, in order |
| Monitor.IntegrityMonitor.RemoveStale | master/src/main/java/com/gfs/master/service/IntegrityMonitor.java:297-307 | the store becomes the removal of each collected pair; the count is the number collected |
| Monitor.IntegrityMonitor.CleanPdfs | master/src/main/java/com/gfs/master/service/IntegrityMonitor.java:283-308 | the blob loop of the pass |
| Monitor.IntegrityMonitor.CleanupStaleMetadata | master/src/main/java/com/gfs/master/service/IntegrityMonitor.java:261-317 | every record keeps exactly its fresh locations in order; the count is the number of stale ones; the fleet is untouched |
| Monitor.IntegrityMonitor.CollectValidKeys | master/src/main/java/com/gfs/master/service/IntegrityMonitor.java:338-346 | the key set of every location of the snapshot |
| Monitor.IntegrityMonitor.SweepOrphans | master/src/main/java/com/gfs/master/service/IntegrityMonitor.java:355-387 | the server keeps only valid keys; every orphan found is deleted and counted |
| Monitor.IntegrityMonitor.DeleteOrphans | master/src/main/java/com/gfs/master/service/IntegrityMonitor.java:358-383 | the inventory loop of a reachable node deletes exactly the orphans |
| Monitor.IntegrityMonitor.SweepServers | master/src/main/java/com/gfs/master/service/IntegrityMonitor.java:354-388 | the server loop of the pass |
| Monitor.IntegrityMonitor.GarbageCollection | master/src/main/java/com/gfs/master/service/IntegrityMonitor.java:325-399 | no healthy server: nothing changes; otherwise the sweep of every healthy server against the snapshot's keys; metadata untouched |
| Cleanup.StaleMembers | master/src/main/java/com/gfs/master/service/IntegrityMonitor.java:286-294 | stale locations are exactly those on an unhealthy server that do not confirm the chunk; fresh are the rest |
| Cleanup.RemoveMatchingKeep | master/src/main/java/com/gfs/master/service/IntegrityMonitor.java:297-300 | removing one more pair is filtering by one more pair |
| Cleanup.RemoveAllKeeps | master/src/main/java/com/gfs/master/service/IntegrityMonitor.java:297-307 | the removal loop drops every location sharing a pair with a collected one and nothing else |
| Cleanup.KeepUnlessStale | master/src/main/java/com/gfs/master/service/IntegrityMonitor.java:286-300 | filtering by the stale pairs keeps exactly the fresh locations |
| Cleanup.StalePairs | master/src/main/java/com/gfs/master/service/IntegrityMonitor.java:286-300 | a location's pair is collected exactly when it is stale |
| Cleanup.CleanStoreExact | master/src/main/java/com/gfs/master/service/IntegrityMonitor.java:283-308 | each listed record keeps exactly its fresh locations, in order; nothing else changes |
| Cleanup.CleanStep | master/src/main/java/com/gfs/master/service/IntegrityMonitor.java:283-308 | one blob's removals replace its locations by the fresh ones |
| Cleanup.CleanupKeepsFresh | master/src/main/java/com/gfs/master/service/IntegrityMonitor.java:266-294 | locations on healthy servers, or that confirm their chunk, are kept; with no unhealthy server every location is kept |
| Cleanup.NothingStale | master/src/main/java/com/gfs/master/service/IntegrityMonitor.java:273-276 | with no unhealthy server nothing is removed |
| Collection.ValidKeysMembers | master/src/main/java/com/gfs/master/service/IntegrityMonitor.java:338-346 | a key is valid exactly when some blob lists a location of that index |
| Collection.SweepServerStep | master/src/main/java/com/gfs/master/service/IntegrityMonitor.java:354-388 | sweeping one more server extends the sweep by that server |
| Collection.SweepExact | master/src/main/java/com/gfs/master/service/IntegrityMonitor.java:354-388 | a chunk survives exactly when its node was not visited or its key is valid; payloads and the node set are kept; found = deleted |
| Collection.SweepCountsOrphans | master/src/main/java/com/gfs/master/service/IntegrityMonitor.java:350-376 | over distinct servers the count is the orphans each held before the pass |
| Collection.NeverDeletesListed | master/src/main/java/com/gfs/master/service/IntegrityMonitor.java:338-388 | no chunk that a location of the snapshot names is ever deleted |
| Collection.PartialEnds | master/src/main/java/com/gfs/master/service/IntegrityMonitor.java:358-383 | before the inventory loop nothing is deleted; after it exactly the orphans are |
| Collection.PartialStep | master/src/main/java/com/gfs/master/service/IntegrityMonitor.java:361-376 | visiting an orphan deletes it; visiting a valid key deletes nothing |
| Collection.OrphanCountStep | master/src/main/java/com/gfs/master/service/IntegrityMonitor.java:361-371 | visiting a key adds one to the count exactly when it is an orphan |
| Collection.DeleteVisited | master/src/main/java/com/gfs/master/service/IntegrityMonitor.java:374-376 | deleting a visited orphan keeps the fleet in step with the visit |
| Client.SliceWindow | client/src/main/java/com/gfs/client/service/GfsClientService.java:74-76 | chunk i < ceil(len/CS) is data[i*CS .. min((i+1)*CS, len)], of 1..CS bytes |
| Client.JoinSlicesPrefix | client/src/main/java/com/gfs/client/service/GfsClientService.java:192-197 | the first n windows joined are the first min(n*CS, len) bytes |
| Client.SlicesRoundTrip | client/src/main/java/com/gfs/client/service/GfsClientService.java:74-76 | all windows joined in index order are the payload |
| Client.SendReplicasEffect | client/src/main/java/com/gfs/client/service/GfsClientService.java:80-97 | every replica of a bucket is tried once; a reachable one receives the window; success + fail grows by the bucket size |
| Client.SendReplicasShift | client/src/main/java/com/gfs/client/service/GfsClientService.java:80-97 | the counters only add up |
| Client.SendChunksStep | client/src/main/java/com/gfs/client/service/GfsClientService.java:69-98 | one bucket of the outer loop: an out-of-range index aborts, otherwise the bucket is sent |
| Client.SendChunksAbortSticks | client/src/main/java/com/gfs/client/service/GfsClientService.java:74-76 | after an out-of-range copy the upload sends nothing more |
| Client.SendChunksAborts | client/src/main/java/com/gfs/client/service/GfsClientService.java:69-98 | the upload aborts exactly when some index has no window; otherwise one attempt per location counted |
| Client.SendChunksWrites | client/src/main/java/com/gfs/client/service/GfsClientService.java:69-98 | each node holds its old chunks plus exactly the written keys, each with the window of its index |
| Client.BucketTotalSnoc | client/src/main/java/com/gfs/client/service/GfsClientService.java:58-62 | one more location adds one to the buckets of its index |
| Client.BucketTotalAll | client/src/main/java/com/gfs/client/service/GfsClientService.java:58-97 | every location of the plan gets exactly one write attempt |
| Client.FirstReadable | client/src/main/java/com/gfs/client/service/GfsClientService.java:153-170 | the first replica in list order whose read succeeds, or none |
| Client.FetchChunkCases | client/src/main/java/com/gfs/client/service/GfsClientService.java:143-186 | an index fails as unavailable exactly when no location lists it, as unreadable exactly when no listed replica holds it, else yields a replica's payload |
| Client.FetchAllCases | client/src/main/java/com/gfs/client/service/GfsClientService.java:140-189 | the list succeeds exactly when every index 0..n-1 does and holds their payloads in order; else it fails with the first failing index's error |
| Client.FetchAllFailsFrom | client/src/main/java/com/gfs/client/service/GfsClientService.java:142-189 | once an index fails no partial result is returned |
| Client.ConcatWindows | client/src/main/java/com/gfs/client/service/GfsClientService.java:192-197 | joining the payloads read back gives the joined windows |
| Client.Iota | client/src/main/java/com/gfs/client/service/GfsClientService.java:142 | the indices 0..n-1 in order |
| Client.UploadCompletes | client/src/main/java/com/gfs/client/service/GfsClientService.java:66-98 | a plan naming exactly 0..ceil(len/CS)-1 completes with one attempt per location |
| Client.ReadsBackWindow | client/src/main/java/com/gfs/client/service/GfsClientService.java:142-188 | after such an upload an index listed on a reachable node reads back as its window |
| Client.UploadThenDownload | client/src/main/java/com/gfs/client/service/GfsClientService.java:29-198 | upload then download along any sub-list that names a reachable replica per index returns the payload |
| Client.PlannedRoundTrip | client/src/main/java/com/gfs/client/service/GfsClientService.java:29-198 | a blob uploaded along the master's plan with every healthy node reachable downloads back unchanged along the healthy view |
| Client.GfsClient.constructor | client/src/main/java/com/gfs/client/service/GfsClientService.java:21-22 | the client keeps the fleet and CHUNK_SIZE |
| Client.GfsClient.UploadPdf | client/src/main/java/com/gfs/client/service/GfsClientService.java:29-107 | no plan: error and no writes; otherwise the specified fan-out, its counts, and pdfId unless an index was out of range |
| Client.GfsClient.SendToReplicas | client/src/main/java/com/gfs/client/service/GfsClientService.java:80-97 | the replica loop is the specified bucket send |
| Client.GfsClient.DownloadPdf | client/src/main/java/com/gfs/client/service/GfsClientService.java:112-198 | no metadata: error; otherwise the specified download; nothing changes |
| Client.GfsClient.FetchChunks | client/src/main/java/com/gfs/client/service/GfsClientService.java:140-189 | the index loop visits 0..k-1, k the number of buckets |
| Client.GfsClient.FetchIndex | client/src/main/java/com/gfs/client/service/GfsClientService.java:143-188 | one index: its bucket, then the ordered fallback |
| Client.GfsClient.JoinChunks | client/src/main/java/com/gfs/client/service/GfsClientService.java:192-197 | the output stream is the payloads concatenated in order |
| Client.GfsClient.ReadFromReplicas | client/src/main/java/com/gfs/client/service/GfsClientService.java:149-181 | the first successful read is used and no later replica is contacted |
| ChunkNames.NatToStringDigits | chunkserver/src/main/java/com/gfs/chunkserver/service/StorageService.java:210 | the decimal text of n is a non-empty ASCII digit string whose value is n |
| ChunkNames.ParseIntToString | chunkserver/src/main/java/com/gfs/chunkserver/service/StorageService.java:138-140 | parseInt reads back the decimal text of every int |
| ChunkNames.IndexOf | chunkserver/src/main/java/com/gfs/chunkserver/service/StorageService.java:136 | the leftmost occurrence of the separator, or none at all |
| ChunkNames.SplitAll | chunkserver/src/main/java/com/gfs/chunkserver/service/StorageService.java:136 | splitting yields at least one piece |
| ChunkNames.TrailingDigits | chunkserver/src/main/java/com/gfs/chunkserver/service/StorageService.java:134 | the longest run of digits that ends the text |
| ChunkNames.PatternDigits | chunkserver/src/main/java/com/gfs/chunkserver/service/StorageService.java:134 | the `\d+` part of a matching name is a non-empty digit string |
| ChunkNames.MatchesGivesParts | chunkserver/src/main/java/com/gfs/chunkserver/service/StorageService.java:134 | an accepted name reads as text, `_chunk_`, digits, `.bin` |
| ChunkNames.PartsGiveMatch | chunkserver/src/main/java/com/gfs/chunkserver/service/StorageService.java:134 | a name of that shape is accepted, with those parts |
| ChunkNames.MatchesIffParts | chunkserver/src/main/java/com/gfs/chunkserver/service/StorageService.java:134 | the decision agrees with `.*_chunk_\d+\.bin` in both directions |
| ChunkNames.ParseChunkName | chunkserver/src/main/java/com/gfs/chunkserver/service/StorageService.java:134-143 | a key exactly for matching names whose index fits an int, and then a well-formed one |
| ChunkNames.GeneratedNameMatches | chunkserver/src/main/java/com/gfs/chunkserver/service/StorageService.java:209-211 | a generated name matches the pattern exactly when its index is non-negative |
| ChunkNames.ChunkNameRoundTrip | chunkserver/src/main/java/com/gfs/chunkserver/service/StorageService.java:209-211 | the name of a well-formed key reads back as that key |
| ChunkNames.FileNameInjective | chunkserver/src/main/java/com/gfs/chunkserver/service/StorageService.java:209-211 | distinct well-formed keys get distinct file names |
| ChunkNames.FirstInfix | chunkserver/src/main/java/com/gfs/chunkserver/service/StorageService.java:136 | the first `_chunk_` is the one after the blob id when the id holds none and does not end in `_chunk` |
| ChunkNames.NoInfixAfterDigits | chunkserver/src/main/java/com/gfs/chunkserver/service/StorageService.java:136 | digits followed by `.bin` hold no separator |
| ChunkNames.SplitOnce | chunkserver/src/main/java/com/gfs/chunkserver/service/StorageService.java:136 | a name with one separator and a non-empty rest splits in two |
| ChunkNames.RemoveSuffix | chunkserver/src/main/java/com/gfs/chunkserver/service/StorageService.java:139 | removing `.bin` from digits + `.bin` leaves the digits |
| ChunkNames.RemoveAllKeepsHead | chunkserver/src/main/java/com/gfs/chunkserver/service/StorageService.java:139 | `replace` keeps a first character that cannot start the removed text |
| ChunkNames.AsWrittenRoundTrip | chunkserver/src/main/java/com/gfs/chunkserver/service/StorageService.java:136-143 | the split-based parser reads back a key whose id holds no `_chunk_` and does not end in `_chunk` |
| ChunkNames.DropTrailingEmptyPrefix | chunkserver/src/main/java/com/gfs/chunkserver/service/StorageService.java:136 | dropping trailing empty pieces leaves a prefix of the pieces |
| ChunkNames.SplitFirstPiece | chunkserver/src/main/java/com/gfs/chunkserver/service/StorageService.java:136-137 | parts[0] is the text before the first separator |
| ChunkNames.BeforeFirstOccurrence | chunkserver/src/main/java/com/gfs/chunkserver/service/StorageService.java:136-137 | the text before the first separator holds none |
| ChunkNames.MatchHoldsInfix | chunkserver/src/main/java/com/gfs/chunkserver/service/StorageService.java:134-136 | an accepted name holds the separator |
| ChunkNames.AsWrittenIdIsFirstPiece | chunkserver/src/main/java/com/gfs/chunkserver/service/StorageService.java:136-137 | the reported id is the text before the first `_chunk_` and never holds `_chunk_` |
| ChunkNames.NoInfixWithoutUnderscore | chunkserver/src/main/java/com/gfs/chunkserver/service/StorageService.java:136 | no separator starts where there is no `_` |
| ChunkNames.ChunkSuffixId | chunkserver/src/main/java/com/gfs/chunkserver/service/StorageService.java:209-211 | "a_chunk" holds no separator |
| ChunkNames.ChunkSuffixFileName | chunkserver/src/main/java/com/gfs/chunkserver/service/StorageService.java:209-211 | the name of ("a_chunk", 3) is "a" + `_chunk_` + "chunk_3.bin" |
| ChunkNames.ChunkSuffixSplit | chunkserver/src/main/java/com/gfs/chunkserver/service/StorageService.java:136 | that name splits into "a" and "chunk_3.bin" |
| ChunkNames.AsWrittenSkipsChunkSuffix | chunkserver/src/main/java/com/gfs/chunkserver/service/StorageService.java:134-147 | ("a_chunk", 3) is well formed and its name matches, yet the split-based parser skips it while the corrected parser reads it back |
| Storage.InsertAscSorted | chunkserver/src/main/java/com/gfs/chunkserver/service/StorageService.java:153 | insertion keeps a list sorted ascending |
| Storage.InsertAscMultiset | chunkserver/src/main/java/com/gfs/chunkserver/service/StorageService.java:153 | insertion adds exactly the element |
| Storage.SortAscCorrect | chunkserver/src/main/java/com/gfs/chunkserver/service/StorageService.java:153 | `Collections.sort` yields an ascending permutation |
| Storage.BuildInventory | chunkserver/src/main/java/com/gfs/chunkserver/service/StorageService.java:120-161 | the same blobs as collected, each list sorted ascending with the same elements |
| Storage.AddIndexReports | chunkserver/src/main/java/com/gfs/chunkserver/service/StorageService.java:142-143 | `computeIfAbsent(...).add` reports the new key and keeps the others |
| Storage.ListedInSnoc | chunkserver/src/main/java/com/gfs/chunkserver/service/StorageService.java:129-148 | one more entry reports what it parses to |
| Storage.CollectMembers | chunkserver/src/main/java/com/gfs/chunkserver/service/StorageService.java:128-150 | an index is collected exactly when some listed entry reports that key; no blob without an index |
| Storage.CollectSnoc | chunkserver/src/main/java/com/gfs/chunkserver/service/StorageService.java:130-148 | one more entry adds its key, or nothing when it is skipped |
| Storage.SortedReports | chunkserver/src/main/java/com/gfs/chunkserver/service/StorageService.java:153 | sorting changes nothing the inventory reports |
| Storage.ListedIffStored | chunkserver/src/main/java/com/gfs/chunkserver/service/StorageService.java:128-131 | over a full listing, an entry reports a key exactly when a regular file reads back as it |
| Storage.InventoryMembers | chunkserver/src/main/java/com/gfs/chunkserver/service/StorageService.java:120-161 | the inventory reports exactly the keys stored under a regular file, indices in 0..2^31-1, no empty list |
| Storage.InventoryOfGeneratedNames | chunkserver/src/main/java/com/gfs/chunkserver/service/StorageService.java:120-161 | with only generated names, the inventory reports exactly the well-formed keys that have a regular file |
| Storage.ReadAfterWrite | chunkserver/src/main/java/com/gfs/chunkserver/service/StorageService.java:52-87 | a read after a write returns what was written and other keys are unaffected |
| Storage.ReadAfterDelete | chunkserver/src/main/java/com/gfs/chunkserver/service/StorageService.java:71-114 | after a delete the chunk reads as not found, others are unaffected, and deleting again is a no-op |
| Storage.InventoryAfterWrite | chunkserver/src/main/java/com/gfs/chunkserver/service/StorageService.java:52-66 | a chunk written under a well-formed key shows in the next inventory |
| Storage.StorageService.constructor | chunkserver/src/main/java/com/gfs/chunkserver/service/StorageService.java:26-47 | the service starts over the directory found at start-up |
| Storage.StorageService.WriteChunk | chunkserver/src/main/java/com/gfs/chunkserver/service/StorageService.java:52-66 | stores the data under the generated name or fails with the directory unchanged |
| Storage.StorageService.ReadChunk | chunkserver/src/main/java/com/gfs/chunkserver/service/StorageService.java:71-87 | reads the generated name: the file, or not found |
| Storage.StorageService.ChunkExists | chunkserver/src/main/java/com/gfs/chunkserver/service/StorageService.java:92-96 | true exactly when something has the generated name |
| Storage.StorageService.DeleteChunk | chunkserver/src/main/java/com/gfs/chunkserver/service/StorageService.java:101-114 | removes the generated name; an absent chunk is no error |
| Storage.StorageService.GetInventory | chunkserver/src/main/java/com/gfs/chunkserver/service/StorageService.java:120-161 | the inventory of the listing, sorted |
| Storage.StorageService.SortLists | chunkserver/src/main/java/com/gfs/chunkserver/service/StorageService.java:153 | every list of the inventory is sorted |
| Heartbeat.FailuresSinceDelivery | chunkserver/src/main/java/com/gfs/chunkserver/service/HeartbeatService.java:110-113 | the number of failed sends after the last delivered one |
| Heartbeat.RunCountsFailures | chunkserver/src/main/java/com/gfs/chunkserver/service/HeartbeatService.java:96-124 | from the start the count is the failures since the last delivery and the node is disconnected exactly when that is at least 3 |
| Heartbeat.NextConsistent | chunkserver/src/main/java/com/gfs/chunkserver/service/HeartbeatService.java:107-123 | every send keeps "disconnected iff at least 3 failures" |
| Heartbeat.ReregistersAfterOutage | chunkserver/src/main/java/com/gfs/chunkserver/service/HeartbeatService.java:96-105 | a delivered send re-registers exactly after at least 3 failures in a row |
| Heartbeat.StaysDisconnected | chunkserver/src/main/java/com/gfs/chunkserver/service/HeartbeatService.java:122-123 | once disconnected the node stays so through failures, each adding exactly one |
| Heartbeat.ThreeFailuresDisconnect | chunkserver/src/main/java/com/gfs/chunkserver/service/HeartbeatService.java:113-123 | three failures in a row disconnect the node from any state |
| Heartbeat.FailuresAdd | chunkserver/src/main/java/com/gfs/chunkserver/service/HeartbeatService.java:113 | each failure adds exactly one to the count |
| Heartbeat.HeartbeatService.constructor | chunkserver/src/main/java/com/gfs/chunkserver/service/HeartbeatService.java:40-65 | starts at (0, false) and sends at once |
| Heartbeat.HeartbeatService.SendHeartbeat | chunkserver/src/main/java/com/gfs/chunkserver/service/HeartbeatService.java:72-131 | the payload carries the current inventory; the state takes one step; re-registration happens exactly when delivered after a disconnection |
| Registration.Backoffs | chunkserver/src/main/java/com/gfs/chunkserver/service/RegistrationService.java:76-77 | the pause after attempt i is min(5, i) |
| Registration.LastAttempt | chunkserver/src/main/java/com/gfs/chunkserver/service/RegistrationService.java:51-87 | the loop ends within the ten attempts |
| Registration.AutoRegister | chunkserver/src/main/java/com/gfs/chunkserver/service/RegistrationService.java:36-106 | the loop returns exactly the registration outcome of its attempts |
| Registration.BeforeLast | chunkserver/src/main/java/com/gfs/chunkserver/service/RegistrationService.java:51-86 | every attempt before the last failed with an uninterrupted pause |
| Registration.Attempts | chunkserver/src/main/java/com/gfs/chunkserver/service/RegistrationService.java:47-71 | 1..10 attempts; registered exactly when some attempt succeeded, and then it was the last one |
| Registration.NotRegistered | chunkserver/src/main/java/com/gfs/chunkserver/service/RegistrationService.java:76-89 | not registered means ten attempts or an interrupted pause; an interrupted pause ends the loop |
| Registration.Waits | chunkserver/src/main/java/com/gfs/chunkserver/service/RegistrationService.java:76-80 | the pauses are min(5, attempt), none after the last attempt, at most 35 s in all and exactly 35 s after ten attempts |
| Registration.BackoffsTotal | chunkserver/src/main/java/com/gfs/chunkserver/service/RegistrationService.java:76-80 | the pauses add up to at most 35 s |

## Left out

- HTTP, JSON and Base64. Each call is a lookup or an update on `Nodes`, and failure is the node's absence from the map. Payloads are plain bytes, since Base64 is taken as the identity.
- The master's reply to the client's plan and metadata requests is an `Option` parameter of `UploadPdf` and `DownloadPdf`.
- Concurrency: the `@Scheduled` timers and `ConcurrentHashMap`. Each pass is one sequential method call. `Thread.sleep` becomes a recorded wait.
- The wall clock is a `now` parameter. `PdfMetadata.timestamp` and the heartbeat's own timestamp are plain values.
- Persistence is not modelled: `saveMetadata`, `loadMetadata` and the `init` methods that create directories. The master starts empty. The storage service starts over a given directory and its listing.
- The order of `HashMap` and `ConcurrentHashMap` iteration is not modelled.
  - The master keeps registration and insertion order lists (`serverOrder`, `pdfOrder`) beside its maps.
  - Index groups are visited in order of first appearance (`DistinctIndices`).
  - The storage listing is a given sequence.
  - Any fixed order satisfies the proved properties.
- The master's views of a node's chunks, `exists` and `inventory`, are the key set of its map in `Nodes`. `Storage.InventoryOfGeneratedNames` shows that this agrees with the chunkserver's inventory as the model computes it, with the corrected parser, for the files the chunkserver writes. It does not agree with the inventory of StorageService.java:134-143 as written, which skips or misnames some files (see Findings).
- Monitor.IntegrityMonitor.GarbageCollection: the pass sweeps each node's full key set, so it can differ from the program for blob ids that contain `_chunk_` or end in `_chunk`, the ids excluded by the precondition of `ChunkNames.AsWrittenRoundTrip`. The program never sees a file of an id ending in `_chunk` (`ChunkNames.AsWrittenSkipsChunkSuffix`), so it never deletes it even when it is an orphan; the model does. The program reports a file of an id such as `a_chunk_7` with index 3 under the key (`a`, 7), so it can delete a listed chunk or keep an orphan that the model treats the other way. The model does not capture either difference.
- Logging and console output are not modelled, including the log every fourth failure in `sendHeartbeat`, the final messages of `autoRegister` and the issue summaries of the monitor passes.
- `getStats` of the storage service is not modelled, nor the `totalChunks` and `storageUsedMB` fields of the heartbeat that it feeds (floating point).
- `IntegrityMonitor.getStats` and `GfsClientService.listPdfs` or `getSystemStatus` are not modelled: they only relay values.
- `getInventory` of a missing storage directory, and the outer catch that turns any I/O error into an empty inventory. The directory always exists in the model and listing it does not fail.
- I/O errors of `writeChunk`, `readChunk` and `deleteChunk` other than the directory cases are not modelled, nor a Base64 decoding error.
- A blob id holding a path separator, which would resolve to another directory, is not modelled.
- The reregistration call in `sendHeartbeat` is recorded as attempted; its outcome is swallowed by the source and is not modelled.
- The registration outcomes are an input sequence, one `Attempt` per try.
- Master.MasterService.PlanUpload: the chunk count is the exact integer ceiling of `size / CHUNK_SIZE`. The Java `Math.ceil` on a double and its `(int)` cast differ only beyond 2^53 bytes or 2^31 chunks.
- Client.GfsClient.UploadPdf: `chunkIndex * CHUNK_SIZE` is exact. The Java `int` product wraps past 2^31 bytes.
- Heartbeat.HeartbeatService.SendHeartbeat: `consecutiveFailures` is unbounded. The Java `int` wraps after 2^31 failures. A failure of `getStats` inside the send is also not modelled.
- Storage.StorageService.GetInventory: reads names with the corrected parser `ChunkNames.ParseChunkName`, not with the split-based one (see Findings). `ChunkNames.AsWrittenRoundTrip` shows that the two agree for every blob id that holds no `_chunk_` and does not end in `_chunk`.
- ChunkNames.ParseInt: accepts ASCII digits only. Java's `Integer.parseInt` also accepts other Unicode decimal digits. The split-based parser can meet those only in the second piece of a name whose blob id holds `_chunk_`. The pattern's `\d` matches ASCII digits only, so the corrected parser never does.
- `String.split` and `String.replace` are modelled for the literal separators used here, without the general regular-expression semantics of `split`.

## Findings

| source | as written | input that shows it | evidently intended | confidence | as-written member | corrected member |
|---|---|---|---|---|---|---|
| chunkserver/src/main/java/com/gfs/chunkserver/service/StorageService.java:136-143 | the inventory splits the file name at the first `_chunk_` and parses the second piece, minus `.bin`, as the index | blob id `a_chunk`, index 3: the file `a_chunk_chunk_3.bin` matches the pattern but splits into `a` and `chunk_3.bin`; `chunk_3` is no number, so the chunk is skipped and never inventoried or garbage-collected | every file written by `generateFilename` (lines 209-211) shows in the inventory under its own key | not executed | ChunkNames.AsWrittenSkipsChunkSuffix | ChunkNames.ChunkNameRoundTrip |
