# LogMind daemon: verified core

A Dafny model of the five stateful components of the LogMind daemon, with proofs of what each of them
promises. `dafny verify dfyconfig.toml` verifies the whole project.

| files | component |
|---|---|
| `Candidates`, `ProximityGraph`, `HnswIndex` | the HNSW nearest-neighbour index of `src/daemon/vector_store.cpp` |
| `LiveTable`, `VectorStore` | the vector store on top of it: id tables, tombstones, trimming, the mirrored SQL table |
| `WorkerQueues`, `WorkerTheorems` | the sharded worker queues of `src/daemon/pipeline.cpp` |
| `AlertKey`, `AlertSelector`, `AlertHistory`, `AlertGuarantees`, `AlertExactness` | the alert selector of `src/daemon/pipeline.cpp` |
| `PluginHeap`, `PluginRuntime` | the plugin loader's snapshots and the pipeline's collector cache |
| `LogText`, `LogIndex`, `LogBuffer` | the ring buffer with its segmented inverted index |
| `LineAssembly`, `FileWatcher` | assembling lines from a followed file |
| `Basics` | shared helpers |

Components whose methods update fields are classes with those fields; each method is proved against a
function or predicate of the old and new state, and what the component promises is proved about those.
The worker queues, whose difficulty is the interleaving of threads, are a transition system whose steps
are the critical sections and the notifications between them; its theorems hold for every run.

The main results:

* A beam search returns a locally optimal beam: exactly min(ef, reachable) reachable nodes in ascending
  (distance, id) order, every neighbour of a member a member too or no closer than the last one. Adding
  a point with any level keeps every link in bounds, distinct and within the degree caps, and each new
  neighbour links back unless its list is full of closer nodes. A search answers from where greedy
  descent from the entry ends, and with the k nearest live nodes reachable from there whenever the
  candidate pool covers what can be reached.
* The vector store refines an ordered map with eviction of the oldest. Memory and table stay equal row by
  row through insertion, batches, removal, trimming, clearing and rebuilding; after loading a table they
  agree if and only if no row of it had to be skipped. Whatever is inserted and removed, the store holds
  the newest part of the untrimmed map, and its newest rows up to the threshold if and only if it has as
  many; a removal and trimming can change places if and only if nothing had been trimmed away or the row
  is not among those kept.
* No interleaving of producers, workers, flushers and a stop loses a wake-up, a line or a source's order;
  a flush covers everything accepted before it and comes to its end, a stop drains everything accepted
  before it and comes to its end.
* Over every run of the alert selector any span of time holds at most max alerts for each rate window
  that can have a share in it, two for a minute. For every rule, whatever its limits: the overflow clear
  is reachable if and only if the table is not roomy for the rule; equal fingerprints always stay a dedup
  window apart if and only if the table is roomy, or one short of it while the rate limit makes up for
  that; and purging can never be observed under exactly the same rules, for which an entry is selected
  exactly when the history of selections says so. The defaults are roomy.
* In every run of loading, unloading, enabling, taking and releasing snapshots and picking collectors,
  with addresses reused freely, whatever a holder can reach is alive and as it was when taken, no plugin
  is destroyed twice, outlives its holders or is destroyed under the loader's lock, and the cached
  collector is the first best one of the snapshot that the caller took, whatever happened since.
* Searching the log buffer through the index answers exactly like a linear scan over the newest entries,
  and exchanging a letter of query or entry for its other case changes no answer.
* Lines do not depend on how the bytes arrive in reads of up to 64 KiB if and only if every complete
  line is within the limit and the tail at most one byte over it; whatever the lines, no byte is lost,
  repeated or reordered. After a rotation or truncation exactly the lines of the new text come through.

Where code and documentation differ the code is followed: `src/daemon/log_buffer.cpp:10` speaks of about
eight segments, the bound proved for the code is ten.

## Model

| member | source | states |
|---|---|---|
| Candidates.DistanceSq | src/daemon/vector_store.cpp:132-141 | the loop computes the squared Euclidean distance |
| Candidates.DistanceSign | src/daemon/vector_store.cpp:132-141 | a distance is never negative, and zero exactly between equal vectors |
| Candidates.CoordinateCounts | src/daemon/vector_store.cpp:132-141 | every coordinate contributes the square of its difference |
| ProximityGraph.BeamSize | src/daemon/vector_store.cpp:161-199 | a beam holds exactly min(ef, number of reachable nodes) nodes; with ef at least that number it is exactly the reachable set |
| ProximityGraph.PartialBeamIsComplete | src/daemon/vector_store.cpp:161-199 | a beam that is not full contains every node reachable from the entry point on the layer |
| ProximityGraph.BeamMembers | src/daemon/vector_store.cpp:161-199 | every member of a beam exists, reaches up to the layer and is reachable from the entry point |
| ProximityGraph.BeamIdsDistinct | src/daemon/vector_store.cpp:161-199 | no node occurs twice in a beam |
| ProximityGraph.BeamNeighbours | src/daemon/vector_store.cpp:173-189 | every neighbour of a member of a beam is a member too, or the beam has ef members and none is farther from the query than that neighbour |
| ProximityGraph.OfferKeepsCovered | src/daemon/vector_store.cpp:178-188 | after a candidate is offered to a bounded beam every node seen so far is in it, or it is full and the node no closer than its last member |
| ProximityGraph.NearestKeepsClosest | src/daemon/vector_store.cpp:211-227 | shrinking a list keeps distinct members of it, and every kept one is before every dropped one by (distance, id) |
| ProximityGraph.BackLinkPrunes | src/daemon/vector_store.cpp:70-75 | a neighbour's list stays well formed and within its cap, and a node is dropped only from a full list and only if all kept ones are closer |
| HnswIndex.LinksBackOrFull | src/daemon/vector_store.cpp:66-77 | each neighbour chosen for a new node links back to it or has a full list of nodes that are all closer |
| HnswIndex.RoomKeepsLinks | src/daemon/vector_store.cpp:70-75 | a neighbour with fewer than 2 * m links on the ground layer, or m above, keeps them all and adds the new one |
| HnswIndex.NewNodeLinks | src/daemon/vector_store.cpp:65-77 | on each of its layers a new node links to the first m of a beam around where the layer above ended, or to all of it |
| HnswIndex.DescentOn | src/daemon/vector_store.cpp:59-62 | a descent has one walk on every layer above its target, each along links from where the layer above ended to a node that no neighbour there is closer than |
| HnswIndex.LiveCutIsNearest | src/daemon/vector_store.cpp:101-108 | the first k live members of a beam are exactly the k nearest live ones, nearest first |
| HnswIndex.NearestInNumbers | src/daemon/vector_store.cpp:87-109 | the k nearest are min(k, size) members with their distances, and every other member is at least as far as each of them |
| HnswIndex.KnnExact | src/daemon/vector_store.cpp:87-109 | with a pool at least as large as what can be reached on the ground layer the answer is exactly the k nearest live reachable nodes |
| HnswIndex.LiveHits | src/daemon/vector_store.cpp:87-109 | whatever the pool, the answer has at most k distinct existing nodes, ascending, with true distances and no tombstone |
| HnswIndex.Discover | src/daemon/vector_store.cpp:178-188 | stamping an unseen neighbour and offering it to both queues keeps the whole invariant of the search loop |
| HnswIndex.BeamExpanded | src/daemon/vector_store.cpp:174-176 | when the search breaks off or runs dry every member of the beam has been expanded, so the beam is locally optimal |
| HnswIndex.LinkNextLayer | src/daemon/vector_store.cpp:65-77 | linking a node on one more layer leaves the layers above linked as they were and all other lists untouched |
| HnswIndex.DescendedTransfers | src/daemon/vector_store.cpp:58-62 | the descent looks at no layer at or below its target |
| HnswIndex.Index.constructor | src/daemon/vector_store.cpp:27-37 | an empty well-formed index, M at least 2 and ef_construction at least M |
| HnswIndex.Index.LinksInBounds | src/daemon/vector_store.cpp:39-84 | every list has at most 2 * m links on the ground layer and m above, all different, to other existing nodes that reach up to the layer |
| HnswIndex.Index.EntryIsTop | src/daemon/vector_store.cpp:79-82 | the entry node reaches the highest layer |
| HnswIndex.Index.NextVisitStamp | src/daemon/vector_store.cpp:240-246 | the stamp differs from every stored one, also when the 32-bit counter wraps |
| HnswIndex.Index.EnsureCapacity | src/daemon/vector_store.cpp:229-237 | all per-node vectors grow together, old contents stay, new nodes are blank and unstamped |
| HnswIndex.Index.GreedyDescend | src/daemon/vector_store.cpp:143-158 | terminates at a reachable node that no layer neighbour is closer than, no farther than the start |
| HnswIndex.Index.CloserShrinks | src/daemon/vector_store.cpp:143-158 | each improving pass leaves strictly fewer nodes that are closer still |
| HnswIndex.Index.SearchLayer | src/daemon/vector_store.cpp:161-199 | terminates with a locally optimal beam of at most ef reachable nodes in ascending order; the graph is unchanged |
| HnswIndex.Index.ScanNeighbors | src/daemon/vector_store.cpp:177-189 | scanning the popped node keeps the search invariant, and either a node is newly seen or the queue gets shorter |
| HnswIndex.Index.Visit | src/daemon/vector_store.cpp:179-187 | the stamp array marks exactly the nodes this search has seen, each of which is offered once |
| HnswIndex.Index.Drain | src/daemon/vector_store.cpp:191-198 | emptying the max-heap and reversing gives the beam in ascending order |
| HnswIndex.Index.MarkDeleted | src/daemon/vector_store.cpp:111-116 | sets one flag once and keeps the tombstone count exact |
| HnswIndex.Index.Descend | src/daemon/vector_store.cpp:59-62 | descending layer by layer, each walk starts where the one above ended, goes along links and ends in a local minimum of its layer |
| HnswIndex.Index.SearchKnn | src/daemon/vector_store.cpp:87-109 | the answer is the live cut at k of a locally optimal ground-layer beam from where the descent from the entry ends; empty for an empty index or k = 0 |
| HnswIndex.Index.KeepLive | src/daemon/vector_store.cpp:101-108 | the filtering loop stops at k and skips exactly the tombstones |
| HnswIndex.Index.TakeNearest | src/daemon/vector_store.cpp:201-209 | the first min(m, length) candidate ids |
| HnswIndex.Index.ShrinkLinks | src/daemon/vector_store.cpp:211-227 | keeps the cap nearest members of the list |
| HnswIndex.Index.LinkLayer | src/daemon/vector_store.cpp:69-75 | the new node gets its list, exactly its neighbours' lists take it up, pruned to the cap, and nothing else changes |
| HnswIndex.Index.LinkNode | src/daemon/vector_store.cpp:71-74 | one neighbour's list with the new node appended and, past the cap, shrunk |
| HnswIndex.Index.LinkOneLayer | src/daemon/vector_store.cpp:66-76 | one layer: the beam ignores the new node, its nearest M are linked, the next layer starts at its front |
| HnswIndex.Index.LinkLayers | src/daemon/vector_store.cpp:65-77 | all layers from min(level, max level) down to 0 are linked, each starting where the one above ended |
| HnswIndex.Index.AddPoint | src/daemon/vector_store.cpp:39-84 | for any level: well-formedness, degree caps and entry on the top level are kept, the node is linked on exactly its layers, starting where the descent from the old entry ended |
| HnswIndex.Index.LinkIn | src/daemon/vector_store.cpp:58-77 | the descent over the old graph decides where the linking of the new node starts |
| HnswIndex.Index.AppendUnlinked | src/daemon/vector_store.cpp:40-47 | the new node is stored without links and no list changes |
| LiveTable.WithoutAt | src/daemon/vector_store.cpp:376-388 | deleting a log_id from a table with unique ids removes exactly its row |
| LiveTable.TombstoneRemoves | src/daemon/vector_store.cpp:449-455 | emptying a live slot removes exactly its row from the live rows, in place |
| LiveTable.EvictedRest | src/daemon/vector_store.cpp:457-473 | removing the evicted ids leaves exactly the newest rows; no id is both evicted and kept |
| LiveTable.JustInsertedStays | src/daemon/vector_store.cpp:457-519 | trimming after an insertion never evicts the row just inserted |
| LiveTable.TrimEarly | src/daemon/vector_store.cpp:457-519 | trimming before an insertion does not show after the trimming that follows it |
| LiveTable.TrimOnceAtEnd | src/daemon/vector_store.cpp:457-519 | a run of insertions with trimming after each ends where trimming once at the end does |
| LiveTable.RemovalKeepsEvicted | src/daemon/vector_store.cpp:457-473 | a removal and trimming can change places if and only if nothing is trimmed away or the removed row is not among those kept |
| LiveTable.RunIsSuffix | src/daemon/vector_store.cpp:457-519 | over any run of insertions and removals the store holds the newest part of the untrimmed map, and its newest rows up to the threshold if and only if it has as many |
| VectorStore.AgreeForget | src/daemon/vector_store.cpp:501-506 | tombstoning a live id and erasing it keeps the two id tables inverse and deletes exactly its row |
| VectorStore.AgreeAppend | src/daemon/vector_store.cpp:508-512 | appending a slot for an absent id keeps the two id tables inverse and appends its row |
| VectorStore.EvictionStep | src/daemon/vector_store.cpp:461-472 | the first live slot is the oldest live row, and without it the others remain in order |
| VectorStore.MirrorKept | src/daemon/vector_store.cpp:475-519 | a table that mirrors memory still does after INSERT OR REPLACE and the evictions |
| VectorStore.LoadableRun | src/daemon/vector_store.cpp:404-447 | every row of a table is accepted if and only if the table is loadable, and then memory holds its newest rows |
| VectorStore.LoadRow | src/daemon/vector_store.cpp:417-437 | reading one more row keeps each read id in exactly one place: live, evicted from both, or only in the table |
| VectorStore.LoadedAgrees | src/daemon/vector_store.cpp:404-447 | memory and table agree after loading if and only if the table is loadable |
| VectorStore.DeadCount | src/daemon/vector_store.cpp:118 | nodes minus tombstones is the number of live rows |
| VectorStore.Store.Tombstone | src/daemon/vector_store.cpp:449-455 | flag and strings of one slot change together, the graph and all other slots stay |
| VectorStore.Store.Forget | src/daemon/vector_store.cpp:501-506 | a live log_id leaves the id tables and the live rows, all tables staying consistent |
| VectorStore.Store.EvictAt | src/daemon/vector_store.cpp:462-471 | one step of trimming takes the oldest live row from memory and its row from the table |
| VectorStore.Store.Trim | src/daemon/vector_store.cpp:457-473 | exactly the oldest rows beyond the threshold go, from memory and from the table, and the live count ends within the threshold |
| VectorStore.Store.EvictOldest | src/daemon/vector_store.cpp:461-472 | the cursor passes tombstones and takes exactly the n oldest rows; it never runs out before that |
| VectorStore.Store.AppendSlot | src/daemon/vector_store.cpp:508-512 | the new entry is last in id order and the index, the id tables and the slots agree |
| VectorStore.Store.InsertLocked | src/daemon/vector_store.cpp:475-519 | accepted exactly when id and vector are non-empty, dimensions match and capacity is left; the live rows then become the newest of the old ones with the row replaced and moved last; on rejection nothing but a fixed dimension changes |
| VectorStore.Store.Insert | src/daemon/vector_store.cpp:580-585 | accepted exactly when id and vector are non-empty, dimensions match and capacity is left; insertion on the ordered map, and memory and table stay equal if they were |
| VectorStore.Store.InsertBatch | src/daemon/vector_store.cpp:587-606 | the same as inserting the zipped rows one by one, the count being those accepted |
| VectorStore.Store.Remove | src/daemon/vector_store.cpp:653-668 | the id goes from memory and table, nothing else does, and the result says whether either had it |
| VectorStore.Store.DeleteRow | src/daemon/vector_store.cpp:376-388 | removes the rows of the id and says whether there was one |
| VectorStore.Store.ResetIndex | src/daemon/vector_store.cpp:390-399 | empty consistent tables and a new index if the dimension is known |
| VectorStore.Store.Clear | src/daemon/vector_store.cpp:641-645 | memory and table are empty, the dimension stays |
| VectorStore.Store.LoadAll | src/daemon/vector_store.cpp:404-447 | for any table: memory is what inserting its rows one by one gives, rows are evicted from both or skipped and kept, and memory agrees with the table if and only if the table is loadable |
| VectorStore.Store.Open | src/daemon/vector_store.cpp:532-559 | opening on any table with unique ids; the same if and only if |
| VectorStore.Store.RebuildIndex | src/daemon/vector_store.cpp:647-651 | when memory and table agree, rebuilding keeps every live row and their order and leaves no tombstone |
| VectorStore.Store.SizeIsLive | src/daemon/vector_store.cpp:118 | the index's size, the id table's size and the number of live rows are the same |
| VectorStore.Store.Search | src/daemon/vector_store.cpp:608-634 | hits are live rows under distinct log_ids with true distances, in ascending (distance, id) order, none nearer than a row whose embedding is the query, which has distance zero: the live cut of a locally optimal beam from where the descent from the entry ends |
| VectorStore.Store.HitsAreNearest | src/daemon/vector_store.cpp:608-634 | when the pool covers what can be reached there are min(k, live reachable rows) hits, and every live reachable row that is not hit is at least as far from the query as each hit |
| VectorStore.Store.NearestLive | src/daemon/vector_store.cpp:619-622 | what is found is the live cut of that beam: distinct live slots with true distances in ascending order |
| VectorStore.Store.ToHits | src/daemon/vector_store.cpp:624-632 | each hit carries the log_id and metadata of its own slot |
| WorkerQueues.StartWorkers | src/daemon/pipeline.cpp:105-120 | asynchronous mode starts exactly with at least one thread, with as many shards, the capacity given if positive, and a state that satisfies the invariant |
| WorkerQueues.SubmitQueues | src/daemon/pipeline.cpp:64-79 | a line goes to the end of the queue that its source hashes to if that is below the capacity given, and is counted as dropped otherwise; no other queue changes |
| WorkerQueues.NotifyReachesWorker | src/daemon/pipeline.cpp:69-77 | when a job arrives at a sleeping worker no flusher sleeps on the same condition variable, so notify_one can only wake the worker |
| WorkerQueues.StepInv | src/daemon/pipeline.cpp:63-170 | every step of every thread keeps the invariant |
| WorkerQueues.RunInv | src/daemon/pipeline.cpp:63-170 | so does every run, spurious wake-ups included |
| WorkerTheorems.NoLostWakeup | src/daemon/pipeline.cpp:122-170 | a sleeping worker has an empty queue and no un-notified stop; a sleeping flusher has a worker that is awake and will notify; so both never sleep together |
| WorkerTheorems.WorkEnabled | src/daemon/pipeline.cpp:147-170 | where work is left and no producer raced with a stop, the worker's own next step is enabled |
| WorkerTheorems.StepWorks | src/daemon/pipeline.cpp:147-170 | each step of the worker's own thread lowers its work, and without submissions no step raises it |
| WorkerTheorems.FlushProgress | src/daemon/pipeline.cpp:138-170 | once a worker has taken that many steps its queue is drained, nobody sleeps in flush there and every flush moves on |
| WorkerTheorems.FlushCompletes | src/daemon/pipeline.cpp:138-145 | after every worker has worked off what it had, each check of a flush takes it one worker further, a check is always possible, and the flush has returned after as many as workers were left |
| WorkerTheorems.StopEnabled | src/daemon/pipeline.cpp:122-136 | while workers are joined none sleeps and each that has not left can take a step; the stopper waits for nothing else |
| WorkerTheorems.StopTerminates | src/daemon/pipeline.cpp:122-136 | with no new submissions a worker being joined takes at most a fixed number of steps, can take one until it has left, and has left after that many |
| WorkerTheorems.StepLog | src/daemon/pipeline.cpp:70-78 | a line is accepted exactly when it finds room in its shard's queue, and no other step accepts or forgets one |
| WorkerTheorems.SourceOrder | src/daemon/pipeline.cpp:63-81 | for every source, processed then in-flight then queued lines are exactly its accepted lines in submission order |
| WorkerTheorems.Conservation | src/daemon/pipeline.cpp:63-81 | submitted = dropped + queued + in flight + processed, and no queue exceeds its capacity |
| WorkerTheorems.FlushCovers | src/daemon/pipeline.cpp:138-145 | when a flush not cut short by a stop returns, everything accepted before it began is processed, even while producers go on |
| WorkerTheorems.StopDrains | src/daemon/pipeline.cpp:122-160 | with producers quiesced before the stop, nothing accepted is unprocessed once the workers have left |
| AlertKey.Fingerprint | src/daemon/pipeline.cpp:409-429 | the loop renders module, level and message with every maximal run of digits as one token |
| AlertKey.DigitsDoNotMatter | src/daemon/pipeline.cpp:409-429 | replacing a run of digits by any other run leaves the fingerprint the same |
| AlertKey.KeyBegins | src/daemon/pipeline.cpp:409-413 | the key begins with the whole module and the name of the level |
| AlertKey.LevelsDiffer | src/daemon/pipeline.cpp:409-413 | entries of one module with different levels never have the same key |
| AlertKey.KeyGrows | src/daemon/pipeline.cpp:415-427 | below the limit a digit after a digit adds nothing to the key, the first digit of a number adds '#', any other character adds itself |
| AlertKey.KeyIsPrefix | src/daemon/pipeline.cpp:409-429 | the key is module, level and the message with its numbers replaced, cut off only once the limit is reached |
| AlertKey.KeyBound | src/daemon/pipeline.cpp:409-429 | a key has at most 193 characters, or two more than an over-long module and level |
| AlertSelector.Selector.SetAlertRule | src/daemon/pipeline.cpp:52-56 | the fingerprints are forgotten, the rate window is not |
| AlertSelector.LevelsThatPass | src/daemon/pipeline.cpp:302 | the levels that reach each threshold, one by one |
| AlertSelector.SelectedOrSuppressed | src/daemon/pipeline.cpp:301-319 | every entry that reaches the threshold is either selected or counted as suppressed |
| AlertSelector.ChosenInOrder | src/daemon/pipeline.cpp:301-319 | an entry is in the selection, in its turn, exactly when it is judged so |
| AlertSelector.Selector.SelectAlerting | src/daemon/pipeline.cpp:289-335 | selected entries, suppression count and new memory are those of the specification that the guarantees are about; every selected entry reaches the threshold, and every entry that does is selected or counted |
| AlertSelector.Selector.Decide | src/daemon/pipeline.cpp:301-319 | an entry below the threshold, by the set of levels that reach it, is passed over before rate limit and deduplication; only a selected entry changes the memory |
| AlertSelector.Selector.DropExpired | src/daemon/pipeline.cpp:323-326 | exactly the expired fingerprints go |
| AlertSelector.Selector.PurgeIfFull | src/daemon/pipeline.cpp:321-328 | an over-full table loses its expired keys and, if still over-full, all keys |
| AlertHistory.CallRecords | src/daemon/pipeline.cpp:289-335 | the history that the guarantees speak of is exactly what the calls select |
| AlertHistory.RateLimit | src/daemon/pipeline.cpp:296-308 | over every run any span of time holds at most max selected entries for each rate window that can have a share in it; two for a minute |
| AlertGuarantees.DedupGuarantee | src/daemon/pipeline.cpp:310-316 | over every run, under a rule that keeps repeats apart, two selected entries with one fingerprint are at least the window apart |
| AlertGuarantees.SelectedExactly | src/daemon/pipeline.cpp:289-335 | in every run under such a rule an entry is selected if and only if its level is one that reaches the threshold, the running window has room, and its history has no equal fingerprint within the dedup window |
| AlertGuarantees.NeverOverfull | src/daemon/pipeline.cpp:321-328 | at most as many fingerprints are unexpired at a time as the rate limit lets through within the dedup window |
| AlertGuarantees.RoomyNeverClears | src/daemon/pipeline.cpp:321-328 | with a roomy table no call of any run finds more unexpired fingerprints than fit |
| AlertGuarantees.GuardedApart | src/daemon/pipeline.cpp:301-316 | with a table one too small the rate limit keeps a forgotten fingerprint out until its window is over |
| AlertGuarantees.PurgeUnobservable | src/daemon/pipeline.cpp:321-328 | under a rule that keeps repeats apart every call selects what it would with a table that is never purged |
| AlertExactness.ClearsExactly | src/daemon/pipeline.cpp:321-328 | for every rule the overflow clear is reachable if and only if the table is not roomy |
| AlertExactness.SpacedExactly | src/daemon/pipeline.cpp:289-335 | for every rule repeats are a dedup window apart in all runs if and only if the table is roomy, or one too small with a window short enough for the rate limit |
| AlertExactness.UnobservableExactly | src/daemon/pipeline.cpp:321-328 | for every rule purging changes no selection in any run if and only if the same condition holds |
| AlertExactness.OverflowRun | src/daemon/pipeline.cpp:321-328 | when the table is not roomy a run of alarms fills it within the dedup window and has it cleared |
| AlertGuarantees.DefaultsAreRoomy | include/logmind/pipeline.h:34-39 | the default rule is roomy |
| PluginHeap.SetOfMembers | src/daemon/plugin_loader.cpp:201-217 | a snapshot keeps alive exactly the loaded plugins of the records, and its raw pointers are among them |
| PluginHeap.SetOfHandsOut | src/daemon/plugin_loader.cpp:205-215 | under each interface a snapshot hands out exactly the enabled plugins that have it, in record order |
| PluginHeap.SnapshotHandsOut | src/daemon/plugin_loader.cpp:205-215 | a plugin is handed out as collector, analyzer or alert exactly when an enabled record has it and it has that interface |
| PluginHeap.FailureNotPublished | src/daemon/plugin_loader.cpp:59-67 | a failed load does not change what the snapshot should be, so not rebuilding it is right |
| PluginHeap.FirstNamedIsFirst | src/daemon/plugin_loader.cpp:174-178 | the record found by name is of a loaded plugin with that name, and no record before it is |
| PluginHeap.BestIsFirstHighest | src/daemon/pipeline.cpp:204-212 | the scoring loop settles on the first collector with the highest score, or on none exactly when no score is positive |
| PluginHeap.BestInScores | src/daemon/pipeline.cpp:204-212 | in match scores: the collector picked has a positive one, at least every other and more than every earlier one; none is picked exactly when no score is positive |
| PluginHeap.BestRecord | src/daemon/pipeline.cpp:204-212 | the same for the records that a snapshot is made of |
| PluginHeap.PublishExact | src/daemon/plugin_loader.cpp:201-217 | publishing a set adds exactly its references to the plugins |
| PluginHeap.MoveExact | src/daemon/plugin_loader.cpp:179-181 | unloading moves a reference from the records to the caller without the count passing through zero |
| PluginHeap.MoveCacheExact | src/daemon/pipeline.cpp:196-199 | the cache takes its new set before it lets go of the old one |
| PluginRuntime.CacheSurvives | src/daemon/pipeline.cpp:194-202 | destroying what nobody holds does not change any cached answer |
| PluginRuntime.Runtime.constructor | src/daemon/plugin_loader.cpp:45-48 | an empty snapshot is published from the start |
| PluginRuntime.Runtime.ReleasePlugin | src/daemon/plugin_loader.cpp:32-42 | a plugin is destroyed exactly when its last reference goes |
| PluginRuntime.Runtime.ReleaseSet | src/daemon/plugin_loader.cpp:201-217 | a set and its references to plugins go exactly when its last holder lets go |
| PluginRuntime.Runtime.BuildSet | src/daemon/plugin_loader.cpp:201-217 | the loop builds the snapshot of the records, disabled plugins kept alive but not handed out |
| PluginRuntime.Runtime.Publish | src/daemon/plugin_loader.cpp:201-217 | the published set is the snapshot of the current records at a fresh address; the old one is let go, every other set stays as it is, and nothing is destroyed if its plugins are still held |
| PluginRuntime.Runtime.RecordFailure | src/daemon/plugin_loader.cpp:59-67 | a failure is recorded and the published set is still up to date |
| PluginRuntime.Runtime.LoadPlugin | src/daemon/plugin_loader.cpp:147-161 | the new plugin is recorded last and published; other plugins, held sets and the cache are as they were and nothing is destroyed |
| PluginRuntime.Runtime.AlreadyLoaded | src/daemon/plugin_loader.cpp:86-92 | true exactly when a loaded record has that path |
| PluginRuntime.Runtime.Find | src/daemon/plugin_loader.cpp:175-178 | the index of the first loaded record with the name |
| PluginRuntime.Runtime.SetEnabled | src/daemon/plugin_loader.cpp:262-272 | exactly the first record with the name changes and a new snapshot is published, nothing happens otherwise; held sets stay as they are and nothing is destroyed |
| PluginRuntime.Runtime.UnloadPlugin | src/daemon/plugin_loader.cpp:170-186 | exactly the first record with the name goes and a new snapshot is published; its reference is still held by the caller, held sets stay as they are and nothing is destroyed under the lock |
| PluginRuntime.Runtime.UnloadAll | src/daemon/plugin_loader.cpp:188-199 | all records go and an empty snapshot is published; their plugins are still held by the caller, held sets stay as they are and nothing is destroyed under the lock |
| PluginRuntime.Runtime.FinishUnload | src/daemon/plugin_loader.cpp:185-186 | dropping the caller's references keeps everything that is still held, and what has been destroyed stays so |
| PluginRuntime.Runtime.TakeSnapshot | src/daemon/plugin_loader.cpp:219-222 | the thread holds the published set from then on |
| PluginRuntime.Runtime.ReleaseSnapshot | src/daemon/pipeline.cpp:83-103 | a thread letting go of its snapshot keeps every set and plugin that is still held as it is |
| PluginRuntime.Runtime.PickCollector | src/daemon/pipeline.cpp:191-216 | with the cache or without, the answer is the first collector with the highest match score of the snapshot the caller holds, if that is positive, and it is alive |
| PluginRuntime.Runtime.MoveCache | src/daemon/pipeline.cpp:196-199 | a new generation empties the cache and keeps the set it is keyed on alive |
| PluginRuntime.Runtime.ScoreAll | src/daemon/pipeline.cpp:204-212 | the scoring loop computes the best collector, whose match score BestInScores describes |
| PluginRuntime.Runtime.NothingHeldIsDestroyed | src/daemon/plugin_loader.cpp:32-42 | whatever a snapshot, the cache or an unload call can reach is alive, and no plugin is in the destruction history twice |
| PluginRuntime.Runtime.NothingOutlivesItsHolders | src/daemon/plugin_loader.cpp:32-42 | every plugin that exists has a holder |
| PluginRuntime.Runtime.Perform | src/daemon/plugin_loader.cpp:32-222 | any operation of any thread leaves what existed and still exists as it was, only adds to the destruction history, and takes a snapshot from no thread but its own |
| PluginRuntime.Runtime.PerformAll | src/daemon/plugin_loader.cpp:32-222 | over any run of operations a snapshot that its thread does not let go of keeps its contents, and none of its plugins is destroyed |
| PluginRuntime.Runtime.TakeThenPick | src/daemon/pipeline.cpp:191-216 | after taking a snapshot and any run of operations a thread is given the collector of the first enabled record with the highest match score when the snapshot was taken, if that is positive, still the same object |
| LogText.ToLower | src/daemon/log_buffer.cpp:198-204 | every character is folded in place; LettersFold and OnlyLettersFold say how |
| LogText.LettersFold | src/daemon/log_buffer.cpp:198-204 | the i-th capital and the i-th small letter fold to the small one |
| LogText.OnlyLettersFold | src/daemon/log_buffer.cpp:198-204 | different characters that fold to the same are the two cases of one letter |
| LogText.NoCapitals | src/daemon/log_buffer.cpp:198-204 | a folded text has no capital letter |
| LogText.TokenChars | src/daemon/log_buffer.cpp:182-196 | tokens consist of letters, digits, '_' and '-' |
| LogText.RunIsToken | src/daemon/log_buffer.cpp:182-196 | every maximal run of those is a token, folded |
| LogText.TokenHasRun | src/daemon/log_buffer.cpp:182-196 | every token comes from such a run |
| LogText.Tokenize | src/daemon/log_buffer.cpp:182-196 | the loop computes the token list |
| LogText.TokensAreRuns | src/daemon/log_buffer.cpp:182-196 | the tokens are exactly the lower-cased maximal runs of token characters |
| LogText.TokensOfLower | src/daemon/log_buffer.cpp:182-204 | lower-casing a text does not change its tokens |
| LogText.ContainsCi | src/daemon/log_buffer.cpp:208-220 | found exactly when some position matches without regard to case |
| LogText.ContainedAt | src/daemon/log_buffer.cpp:208-220 | a text contains another exactly where all its characters fold to the same |
| LogText.SameFold | src/daemon/log_buffer.cpp:182-220 | texts that fold to the same have the same tokens, contain the same and are contained in the same |
| LogIndex.CaseDoesNotMatter | src/daemon/log_buffer.cpp:102-138 | a query and its lower-cased form have the same answer |
| LogIndex.NewestLive | src/daemon/log_buffer.cpp:102-138 | the reference scan contains exactly the live entries that satisfy the criterion |
| LogIndex.AnswerInWords | src/daemon/log_buffer.cpp:102-138 | the answer is at most limit ids from new to old of entries asked for: every one for an empty query, else those with all its tokens, else, if there are none, those that contain it; when one is missing the answer is full of newer ones |
| LogIndex.QueryCase | src/daemon/log_buffer.cpp:102-138 | exchanging a letter of the query for its other case finds the same entries |
| LogIndex.EntryCase | src/daemon/log_buffer.cpp:102-138 | so does exchanging a letter of an entry |
| LogIndex.MatchingMembers | src/daemon/log_buffer.cpp:61-67 | a posting list is strictly ascending and has exactly the ids of its range that contain the token |
| LogIndex.Intersect | src/daemon/log_buffer.cpp:152-163 | filtering one match list by a further token's posting list gives the matches of both |
| LogIndex.FetchIsNewest | src/daemon/log_buffer.cpp:119-126 | reading a segment's matches backwards gives the linear scan over its live part, evicted ids left out |
| LogBuffer.LogBuffer.constructor | src/daemon/log_buffer.cpp:8-14 | an empty valid buffer, capacity at least 1, span at least 1024 |
| LogBuffer.LogBuffer.Push | src/daemon/log_buffer.cpp:16-38 | the entry is appended to the history; the live entries are its newest up to the capacity and the index is exact for them |
| LogBuffer.LogBuffer.IndexEntry | src/daemon/log_buffer.cpp:51-68 | segments keep tiling the ids, all but the last full, and posting lists stay exact |
| LogBuffer.LogBuffer.PostTokens | src/daemon/log_buffer.cpp:63-67 | the id enters the list of each of its tokens once, however often a token occurs |
| LogBuffer.LogBuffer.EvictSegments | src/daemon/log_buffer.cpp:70-75 | the segments left tile a range that covers every live id, and if there are several the first has a live id |
| LogBuffer.LogBuffer.Discard | src/daemon/log_buffer.cpp:32-36 | the oldest entries go until the capacity is met |
| LogBuffer.LogBuffer.IndexIsBounded | src/daemon/log_buffer.cpp:8-14 | the indexed range is shorter than capacity plus span and has at most ten segments |
| LogBuffer.LogBuffer.LookupSegment | src/daemon/log_buffer.cpp:140-165 | exactly the ids of the segment whose entries have all tokens, ascending |
| LogBuffer.LogBuffer.EntryFor | src/daemon/log_buffer.cpp:77-81 | finds the entry exactly for live ids |
| LogBuffer.LogBuffer.Search | src/daemon/log_buffer.cpp:102-138 | the entries of exactly the ids that the reference answer has, in its order, all of them live |
| LogBuffer.LogBuffer.ScanNewest | src/daemon/log_buffer.cpp:133-137 | the backward scan finds the newest matches up to the limit |
| LogBuffer.LogBuffer.SearchIndex | src/daemon/log_buffer.cpp:117-127 | the walk over segments and posting lists answers like one scan over the live entries |
| LineAssembly.SplitJoins | src/daemon/file_watcher.cpp:127-137 | splitting a stream into lines loses nothing and leaves no newline in a piece |
| LineAssembly.SplitConcat | src/daemon/file_watcher.cpp:127-137 | the carried tail is all that later bytes need |
| LineAssembly.ChunkingDoesNotMatter | src/daemon/file_watcher.cpp:127-145 | every cutting of a stream into reads of 1 to 65536 bytes gives the same lines and pending part if and only if complete lines are within the limit and the tail at most one byte over it |
| LineAssembly.LinesAreSplit | src/daemon/file_watcher.cpp:127-145 | within the limit the emitted lines are the stream split at newlines, one trailing carriage return removed, and pending is the tail |
| LineAssembly.LinesComeThrough | src/daemon/file_watcher.cpp:127-145 | of a text whose lines end in "\n" or "\r\n" in any mixture exactly the lines are handed on, however it is cut into reads, and what follows the last of them is pending |
| LineAssembly.FeedConserves | src/daemon/file_watcher.cpp:173-184 | one read: emissions with their terminators and the pending part are exactly the bytes that came in |
| LineAssembly.FeedEmits | src/daemon/file_watcher.cpp:127-145 | one read: each emission is a piece without its terminator and pending stays within the limit |
| LineAssembly.RunConserves | src/daemon/file_watcher.cpp:173-184 | over all reads, over-long lines included, no byte is lost, repeated or reordered |
| LineAssembly.RunEmits | src/daemon/file_watcher.cpp:127-145 | over all reads the lines are the pieces without terminators, and pending is within the limit |
| LineAssembly.LineBound | src/daemon/file_watcher.cpp:127-145 | no emitted line is longer than the limit plus one read |
| FileWatcher.FileState.constructor | src/daemon/file_watcher.cpp:115-121 | a file found at start-up is followed from its end, a later one from its beginning |
| FileWatcher.FileState.FlushPending | src/daemon/file_watcher.cpp:127-145 | the in-place loop hands on what the reference does with the same bytes |
| FileWatcher.FileState.Take | src/daemon/file_watcher.cpp:177-183 | one read advances the offset by its length and feeds exactly its bytes |
| FileWatcher.FileState.DrainFile | src/daemon/file_watcher.cpp:147-185 | when the inode has changed or the size is below the offset, everything is read anew from the start, and otherwise exactly the bytes after the offset, once |
| FileWatcher.FileState.DrainReplaced | src/daemon/file_watcher.cpp:156-167 | after a rotation exactly the lines of the new file are handed on, nothing of the old one joined to them |
| FileWatcher.FileState.DrainTruncated | src/daemon/file_watcher.cpp:160-164 | the same after a truncation |
| FileWatcher.FileState.DrainGrown | src/daemon/file_watcher.cpp:167-184 | of a grown file exactly the lines of what was added are handed on |
| FileWatcher.FileState.ReadToEnd | src/daemon/file_watcher.cpp:172-184 | the read loop takes in exactly the bytes from the offset to the end |
| FileWatcher.FileState.PendingIsTheEnd | src/daemon/file_watcher.cpp:147-185 | the pending part is exactly the file's bytes that end at the offset |
| FileWatcher.FileState.LinesOfFile | src/daemon/file_watcher.cpp:147-185 | when its lines fit, what has been handed on for a file is its bytes split into lines, however it grew |

## Left out

- Vectors are over the reals and compared by squared distance: rounding, NaN, the square root and the similarity score are not modelled.
- The random level is an arbitrary number; recall and link symmetry are not claimed, since pruning may cut a node off.
- HnswIndex.Index.AddPoint: takes the next free id only, which is the one its only caller passes; the reserved id 0xFFFFFFFF bounds the number of nodes, and the store's capacity must not exceed it.
- The two priority queues and the partial sort are ordered sequences with the same order of (distance, id).
- log_ids and metadata have no NUL characters, which the SQL reader would cut at.
- SQL writes succeed, persistence is on and the database open; failed transactions and close() are not modelled.
- VectorStore.Store.LoadAll: needs unique log_ids, which the table's UNIQUE column guarantees; a row whose blob does not have its declared dimension, which the code skips, is a row without embedding, which is skipped too.
- Worker threads are steps of a transition system, not running code; memory order, the synchronous mode and the use of the worker list after stop_workers has cleared it are not modelled.
- WorkerTheorems.StopDrains: producers racing with the stop are part of the transition system, but the theorem is about those that stopped before it.
- WorkerTheorems.FlushProgress: like FlushCompletes and StopTerminates it says that a thread's own steps suffice and are possible, not that the scheduler grants them.
- Analyzers, alert delivery, the output callback, statistics and query_by_time have no invariants of their own.
- The alert selector's clock is an argument that does not go back from call to call; digits are ASCII digits.
- dlopen, ABI checks, configuration, exceptions thrown by plugins and PluginLoader::find, which hands out an unprotected pointer, are not modelled; a plugin's match score is a function of the plugin and the source.
- Critical sections of the loader lock and the cache lock are atomic; addresses are chosen by the allocator among those not in use.
- Log entry ids are unbounded numbers, without 64-bit wrap-around; the entry callback runs outside the lock and is left out; characters are classified as in the "C" locale.
- The watcher's notifications, directory scans and stat races are left out; an inode number that is reused and a truncation followed by regrowth are not detected by the code, and not by the model.
- The Qt client, the D-Bus adaptor and DaemonCore are not part of this model.
