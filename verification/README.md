# CCOS: a verified model of its stores, its sync protocol and its analysis algorithms

CCOS is a deterministic, replayable memory for coding agents. This project models the parts of it that
other parts rely on without being able to check them, and proves what they promise.

**The cold store** (`src/cold_index.rs`). An immutable sorted segment is a byte string: records, a sparse
index over every 64th record, a footer. `SegmentFormat` says what the bytes are and what reading them
gives; `SegmentFile` holds the loops that write and read them; `LruCache` is the bounded read cache;
`HuskLayers` stacks the segments of a directory into one map; `ColdStore` is the store itself, a class
over a disk that remembers every state it passed through; `StoreRuns` runs arbitrary sequences of
operations, re-opens included, against a plain last-write-wins map. So bytes refine segment maps, segment
maps refine the layered map, and the layered map with its memtable and cache refines one finite map, at
every moment at which the process may die.

**The session and the exchange between agents** (`src/agent_session.rs`). `Timeline` is the hash-chained
op-log and what a link commits to; `Replay` is deferred against eager resolution; `SyncBundles` is what an
import checks and changes; `AgentSession` is the session as a class; `SyncProtocol` is the exchange as a
state machine over honest agents and a network that loses, duplicates and reorders. The memory a session
drives is a parameter, `Replay.Kernel`, known only by the laws in `Replay.ResolutionLaws`; `CallGraph` is a
small concrete memory that obeys them, and `LawfulHasher` a concrete hasher that meets the premises of the
chain. SHA-256 is never assumed to be injective: a theorem says that two histories agree, or names two
distinct texts, hashed by these very histories, that collide.

**The algorithms.** `TimeWarp` (`src/dtw.rs`), `Conformal` (`src/conformal.rs`), `Drift`
(`src/drift.rs`), `EventLog` (`src/distributed_event_log.rs`), `CausalCone`, `DependencyWalks`,
`ConeRelevance` and `ConeWindow` (`src/causal_flash.rs`), `CcrStore`, `Crusher`, `JsonStrings` and
`CrushedText` (`src/compressor.rs`). `Options`, `Bytes`, `OrderedMap`, `Names`, `Sorting` and `DecimalText` are shared
vocabulary.

Code that works step by step is a method with its loops, proved against a specification function or a
stated property; what the source promises is then proved of that function as a lemma.

## Where the code falls short of its word

Each of these is a proved statement, with the condition under which the promise does hold.

- A lookup decodes up to 65 records, not the 64 the comment promises (`src/cold_index.rs:7-8`): it stays
  within 64 exactly when the key does not fall between the last record of a block and the first of the next,
  and costs exactly 65 when it does (`SegmentFormat.WithinStrideExactly`).
- `compact` ignores a deletion that fails. If what survives is not an oldest-first suffix, a deleted key
  can come back (`StoreRuns.FailedDeletionRevives`). Failing deletions are harmless, whichever they are,
  exactly when no file to be deleted holds a value for a key that is no longer live, which can be seen before
  compacting (`StoreRuns.FailuresHarmlessExactly`); for given survivors, exactly when they bring no key to
  life by themselves (`StoreRuns.SurvivorsExact`).
- `compact` promises to drop tombstones (`src/cold_index.rs:443-445`) and leaves a single segment alone: they
  are gone exactly when two segments were there after the flush, or no tombstone was
  (`ColdStore.HuskStore.Compact`); a key deleted in an empty store keeps its tombstone
  (`StoreRuns.LoneTombstoneStays`).
- Replay is promised to reproduce the live memory, and an assertion to force no resolution because it reads no
  cross-file edge (`src/agent_session.rs:1860-1863`). But an assertion makes nodes of ids not seen yet
  (`src/external_memory.rs:616-655`), and resolution reads nodes: after an ingest, the replay resolves with the
  new node and the live memory has resolved without it (`CallGraph.AssertionPartsReplay`). The two are equal at
  every step exactly when each assertion settles, which means that no ingest is pending in the replay or that
  resolution comes out the same (`Replay.DeferredIsEager`); in the call-graph memory that is, that no awaited
  name gains its only definer or loses it (`CallGraph.TimelineReproducesExactly`). The next ingest brings the
  two together again, unless something read the edges in between (`Replay.NextIngestHeals`).
- A session compaction stores a snapshot without the calls that await resolution, which are runtime-only
  (`src/memory.rs:2976-2981`, `src/external_memory.rs:678-697`). Replays from the new floor on are
  unchanged exactly when the snapshot loads as the memory at the floor, or does not load and that memory is the
  empty one, and the assertions after the floor, up to the next ingest or reader, settle there
  (`AgentSession.CompactionReplays`). In the call-graph
  memory the snapshot replays like the memory, for whatever is recorded later, exactly when no call awaits
  resolution (`CallGraph.SnapshotReplaysExactly`). After a file with an
  outgoing call was folded, a later ingest can part replay from live. The chain does not suffer: head, length
  and validity survive any interleaving of recording, compacting and forking, in sync or not
  (`AgentSession.AgentSession.Compact`, `AgentSession.AgentSession.ForkAt`).
- `export_bundle` accepts a start beyond the end of the log. In any reachable state a receiver that knows that
  far then reports the honest author as divergent, and with a start within the log it never does; a receiver
  that does not know that far reports a gap (`SyncProtocol.PastEndAccuses`).
- `Diverged` is documented to report the first step whose link disagrees (`src/agent_session.rs:270-273`).
  Links before the anchor are not compared, so an earlier disagreement is reported at the start of the
  bundle: the reported step is the first exactly when the histories agree before the anchor's step
  (`SyncBundles.DivergedAtExactly`).
- The conformal guard flags at the threshold, where its documentation says above it. The bound on false
  alarms holds exactly when no tie straddles the cut (`Conformal.BoundHoldsExactly`); two equal scores
  break it (`Conformal.TiesBreakTheBound`); the documented comparison would always keep it
  (`Conformal.StrictComparisonBounded`).
- A cone of horizon zero always counts as complete (`CausalCone.HorizonZeroClaimsTooMuch`).
- Relevance is called the decayed mass within the cone. On every graph it is the decayed sum over the walks
  from the seeds whose parents come in the order in which the traversal processes them
  (`ConeRelevance.RelevanceSumsCounted`, `ConeRelevance.CountedWalksAre`). These are the walks within the
  horizon, which is what the mass would be, exactly when edges lead on in that order and no walk in that order
  overruns the horizon (`ConeRelevance.SameWalksExactly`, `ConeRelevance.CountsAllExactly`); a cone whose edges
  all lead one layer out is such a case (`ConeRelevance.RelevanceSumsWalks`). A single loop, gone around
  twice, already makes the sums differ (`ConeRelevance.LoopBreaksTheSum`).
- A near-duplicate item that was too small or too plain to be stored is replaced by a note and lost, though
  the comment promises it stays retrievable (`CcrStore.LostExactly`; `src/compressor.rs:295-298`).
- `verify_integrity` does not look at timestamps, sources, the ids in links, or events past the end of the
  chain (`EventLog.NotCovered`).

What the crusher writes is reversible only through the store (`src/compressor.rs:553-556`), so it breaks no
promise that its text alone does not determine the value: keys are not escaped
(`CrushedText.KeysAreNotEscaped`), columns look like fields (`CrushedText.ColumnsLookLikeFields`) and nullish
fields leave no trace (`CrushedText.NullishLeavesNoTrace`). What the text does determine is the string values,
in order, for every value whose written keys have neither a quote nor a tilde
(`CrushedText.CrushedStringsDecode`), and of the strings in the value only empty ones are not among them
(`CrushedText.NoStringLost`). As a condition on the keys allowed it is exact
(`CrushedText.KeysReadBackExactly`): a key with a quote can hide a string (`CrushedText.KeysHideStrings`),
though a single value may read back by chance (`CrushedText.QuotedKeysMayReadBack`).

## Model

| member | source | states |
|---|---|---|
| Bytes.PastThePrefix | src/cold_index.rs:189-196 | past the keys that start with a prefix, no key starts with it again, so a sorted scan may stop |
| Bytes.LessExactly | src/cold_index.rs:189-196 | one key is below another exactly if it is a proper prefix or has the smaller byte where the two first differ |
| OrderedMap.CanonicalMap | src/cold_index.rs:248 | a sorted map is determined by the finite map it stands for, which is why listings can be compared |
| OrderedMap.InsertIsUpdate | src/cold_index.rs:378 | inserting in order is updating the finite map, and keeps the order |
| OrderedMap.RemoveIsMinus | src/cold_index.rs:464 | removing in order is removing from the finite map |
| SegmentFormat.LittleEndianRoundTrip | src/cold_index.rs:33-35 | a number that fits its width reads back from its little-endian bytes |
| SegmentFormat.SparseEntry | src/cold_index.rs:54-57 | the index has one entry per 64 records, rounded up, and entry j is record 64j with its true byte offset |
| SegmentFormat.OpenRecovers | src/cold_index.rs:83-111 | opening the bytes written for a list of records recovers the index and the end of the records |
| SegmentFormat.FooterAlone | src/cold_index.rs:86-98 | a file too short for a footer is refused; a footer alone that points at its own start opens as an empty segment |
| SegmentFormat.RecordsRoundTrip | src/cold_index.rs:153-164 | a full scan of the written bytes returns exactly the records written |
| SegmentFormat.GetIsLookup | src/cold_index.rs:120-149 | binary search and scan over the bytes is lookup in the records, for every key, decoding at most 65 records |
| SegmentFormat.MissAtBlockEnd | src/cold_index.rs:120-149 | a key missing between a full block and the next costs exactly 65 records |
| SegmentFormat.WithinStrideExactly | src/cold_index.rs:7-9 | a lookup stays within 64 decoded records if and only if its key does not fall between two blocks, and costs 65 if and only if it does |
| SegmentFormat.ScanPrefixIsFilter | src/cold_index.rs:169-199 | a prefix scan over the bytes returns exactly the records with the prefix, in order, the empty prefix and an empty segment included |
| SegmentFile.WriteSegment | src/cold_index.rs:43-70 | refuses records that are not strictly ascending and otherwise produces the segment's bytes |
| SegmentFile.OpenSegment | src/cold_index.rs:83-111 | agrees with the specified reader on every byte string, errors included, and recovers what was written |
| SegmentFile.Get | src/cold_index.rs:120-132 | on a written segment, returns what lookup in the written records gives and how many records it decoded: at most 64 exactly when the key does not fall between two blocks, otherwise 65 |
| SegmentFile.Records | src/cold_index.rs:153-164 | on a written segment, returns what was written |
| SegmentFile.ScanPrefix | src/cold_index.rs:169-199 | on a written segment, returns the records with the prefix |
| LruCache.Lru.constructor | src/cold_index.rs:270-276 | an empty cache of the given capacity |
| LruCache.Lru.Get | src/cold_index.rs:277-284 | returns the cached value and makes the key the most recently used; no value changes |
| LruCache.Lru.Insert | src/cold_index.rs:285-301 | never outgrows the capacity; a full cache drops exactly its least recently used key; capacity zero stores nothing |
| LruCache.Lru.EvictOldest | src/cold_index.rs:291-298 | the entry with the smallest stamp is the least recently used one, and is the one that goes |
| LruCache.Lru.Remove | src/cold_index.rs:302-304 | the key and nothing else leaves the cache |
| HuskLayers.ValueRoundTrip | src/cold_index.rs:315-335 | a value or a tombstone decodes to itself |
| HuskLayers.DecodesExactly | src/cold_index.rs:329-335 | nothing but an encoded value decodes to a value, nothing but what starts like a tombstone to a tombstone |
| HuskLayers.MergedNewest | src/cold_index.rs:408-416 | the newest segment that has a key decides its slot |
| HuskLayers.RecoveredPush | src/cold_index.rs:346-365 | a file with a higher number than all others shadows them in what a re-open recovers |
| HuskLayers.DropIsSuffix | src/cold_index.rs:491-493 | after deleting the files below a cut, only slots last set below it change |
| HuskLayers.MergeShadows | src/cold_index.rs:443-449 | a top layer with every live key and no tombstone hides any newest-last remainder of the files it was merged from |
| HuskLayers.DropKeepsEmpty | src/cold_index.rs:476 | if no key is live, none comes alive by deleting oldest files first |
| ColdStore.HuskStore.Put | src/cold_index.rs:377-381 | the map gains the binding, the memtable goes to disk exactly when full, every disk state passed through recovers to a map before or after the write, and the cache stays coherent |
| ColdStore.HuskStore.Delete | src/cold_index.rs:384-388 | the map loses the key, with the same guarantees |
| ColdStore.HuskStore.Write | src/cold_index.rs:378-396 | the newest slot of a key is the one just written; the key leaves the cache |
| ColdStore.HuskStore.Flush | src/cold_index.rs:422-441 | the map and every slot are unchanged, the memtable empty, and one segment more exists exactly when there was something to write |
| ColdStore.HuskStore.WriteNewest | src/cold_index.rs:431-438 | the written file is the newest layer, tombstones included |
| ColdStore.HuskStore.Get | src/cold_index.rs:401-418 | returns the map's value for the key whatever memtable, cache and segments hold, and caches a value found in a segment |
| ColdStore.HuskStore.FromSegments | src/cold_index.rs:408-417 | the segments searched newest first give the value in their merged map |
| ColdStore.HuskStore.Compact | src/cold_index.rs:449-495 | the map is unchanged, at most one segment remains, no tombstone remains if and only if two segments were there after the flush or there was none to drop, and every disk state passed through recovers to the same map |
| ColdStore.HuskStore.MergeAll | src/cold_index.rs:456-469 | replaying segments oldest first gives the live entries of the merged map |
| ColdStore.HuskStore.RemoveMerged | src/cold_index.rs:491-493 | after each single deletion the disk still recovers to the same map |
| ColdStore.HuskStore.ReplaceBy | src/cold_index.rs:470-494 | write the merged segment, then delete: the live map never changes on the way |
| ColdStore.CrashPoint | src/cold_index.rs:446-448 | after the merged write and any oldest-first part of the deletions, no key live included, the remaining files recover to the same live map |
| ColdStore.HuskStore.Open | src/cold_index.rs:341-374 | succeeds exactly when every file is a segment, and then stands for the recovered map |
| ColdStore.HuskStore.LiveEntries | src/cold_index.rs:512-529 | the map, in key order |
| ColdStore.HuskStore.ScanPrefix | src/cold_index.rs:535-554 | the part of the map under the prefix, in key order |
| StoreRuns.Run | src/cold_index.rs:337-554 | over every sequence of put, delete, flush, compact, re-open, get, prefix scan and listing, each answer is the last-write-wins map's; a crash at any disk state recovers the map after some prefix of the operations, never an earlier one than before; and after each flush, compaction and re-open the disk recovers the map as of then |
| StoreRuns.Step | src/cold_index.rs:376-554 | one operation answers and changes the map as the plain map would |
| StoreRuns.SurvivorsExact | src/cold_index.rs:491-493 | if deletions fail, what is left recovers to the same map exactly when the survivors bring no key to life by themselves |
| StoreRuns.FailuresHarmlessExactly | src/cold_index.rs:491-493 | whatever subset of the merged files survives, the same map is recovered, if and only if none of them holds a value for a key that is no longer live |
| StoreRuns.FailedDeletionRevives | src/cold_index.rs:491-493 | a concrete directory in which a failed deletion revives a deleted key |
| StoreRuns.LoneTombstoneStays | src/cold_index.rs:451-453 | a key deleted in an empty store: compaction keeps the tombstone |
| Timeline.ComputeChain | src/agent_session.rs:355-364 | the loop computes the specified chain |
| Timeline.LinksHold | src/agent_session.rs:402-411 | every stored link recomputes exactly when the stored chain is the one the ops have |
| Timeline.VerifyTimelineParts | src/agent_session.rs:370-417 | valid exactly for a pre-chain sidecar, or when the baseline matches its commitment and the chain is the one the ops have; each broken link is named |
| Timeline.PreimageTells | src/agent_session.rs:343-346 | the text of a link determines predecessor, step and op |
| Timeline.LinkBinds | src/agent_session.rs:343-364 | equal links at one step mean equal histories up to it, or two texts of these histories collide |
| Timeline.HeadBinds | src/agent_session.rs:846-849 | two timelines from genesis with one head recorded the same ops, or two texts they hashed collide |
| Timeline.TamperEvident | src/agent_session.rs:831-834 | a chain that still verifies for changed ops exhibits a collision |
| Replay.ApplyOp | src/agent_session.rs:1805-1875 | one replayed op is the specified deferred step: resolve first for ops that read resolved edges, and only if needed |
| Replay.ApplyAll | src/agent_session.rs:1425-1429 | the replay loop is the fold of the deferred steps |
| Replay.SignalsInTurn | src/agent_session.rs:1825-1840 | a page fault signals its files one after another, each under its file id |
| Replay.OneOp | src/agent_session.rs:1805-1875 | what replaying one op of each kind does to a settled memory |
| Replay.StepInSync | src/agent_session.rs:1805-1875 | settling after a deferred step is the eager step on the settled memory, if and only if the op is no assertion or one that settles |
| Replay.DeferredIsEager | src/agent_session.rs:1417-1439 | replay with deferred resolution gives what resolving after every ingest gives, at every step of an op sequence, if and only if every assertion settles where it is recorded |
| Replay.NextIngestHeals | src/agent_session.rs:1417-1439 | from a run in sync, after any ops that read no resolved edges, the next ingest makes replay and live memory equal again, whatever was asserted |
| Replay.ReplaySplit | src/agent_session.rs:775-792 | settling at a cut and replaying the rest gives the same memory at every later step, if and only if the assertions up to the next ingest or reader settle |
| Replay.IngestAbsorbs | src/memory.rs:2950-2966 | resolving before a further ingest and resolution changes nothing |
| Replay.BatchIsEager | src/agent_session.rs:1137-1171 | a batch of ingests with one resolution at the end is ingesting one by one |
| AgentSession.AgentSession.constructor | src/agent_session.rs:595-633 | a fresh session verifies and its live memory is its replay |
| AgentSession.AgentSession.Record | src/agent_session.rs:820-829 | appends one op and keeps the chain the one the ops have |
| AgentSession.AgentSession.Ingest | src/agent_session.rs:1129-1135 | the live memory takes the eager step; the chain stays valid, a session in sync stays so, and one that an assertion parted from its replay is in sync again |
| AgentSession.AgentSession.IngestBatch | src/agent_session.rs:1151-1171 | records every file and leaves the live memory as ingesting them one by one would; a session in sync stays equal to its replay |
| AgentSession.AgentSession.SignalFailure | src/agent_session.rs:1259-1265 | the chain stays valid, and a live memory equal to the replay stays so |
| AgentSession.AgentSession.Recalling | src/agent_session.rs:1272-1282 | a recall around a node pages it in, and the replay of a session in sync reproduces it |
| AgentSession.AgentSession.FaultOn | src/agent_session.rs:1349-1379 | pressure on every file and page-in of the first, and the replay of a session in sync reproduces it |
| AgentSession.AgentSession.AssertEvidence | src/agent_session.rs:1218-1244 | a session in sync stays so if and only if the assertion settles in its replay; otherwise the two differ at most in edges that resolution owns |
| AgentSession.AgentSession.AdoptWeights | src/agent_session.rs:1643-1644 | the retune commutes with pending resolution, so the replay of a session in sync reproduces it |
| AgentSession.AgentSession.ReplayTo | src/agent_session.rs:1410-1439 | the memory after the first steps, clamped to floor and length |
| AgentSession.ReplayedSteps | src/agent_session.rs:1410-1439 | a replay to the floor or below gives what the baseline loads as, past the floor that memory with as many ops replayed as lie between, past the end all of them |
| AgentSession.AgentSession.Compact | src/agent_session.rs:775-792 | head, length and validity of the chain never change, in sync or not; replays from the new floor on are unchanged if and only if the snapshot loads as the floor memory, or does not load and that memory is empty, and the assertions after the floor settle there, and then a session in sync stays so; where settled memories load as they were written, the assertions alone decide |
| AgentSession.AgentSession.FoldInto | src/agent_session.rs:782-791 | the folded prefix's last link becomes the anchor and the remaining chain continues it, in sync or not |
| AgentSession.CompactionReplays | src/agent_session.rs:771-774 | replacing a prefix by a snapshot keeps every replay from the floor on if and only if the snapshot loads as the memory at the floor, or does not load and that memory is empty, and the assertions after it, up to the next ingest or reader, settle there |
| AgentSession.CompactedChain | src/agent_session.rs:783-787 | dropping a prefix of a chain leaves the chain of the rest from the last dropped link, with the same head |
| AgentSession.AgentSession.VerifyTimeline | src/agent_session.rs:835-844 | a session's own timeline always verifies, and one that verifies is a legacy sidecar or has the chain of its ops |
| AgentSession.AgentSession.ForkAt | src/agent_session.rs:1739-1759 | the branch of any session with a valid chain has the history up to the step, the memory replayed to it, a valid chain and the same peers; given the memory's laws it is in sync even if the session was not |
| AgentSession.AgentSession.ExportBundle | src/agent_session.rs:900-942 | the specified bundle, or the refusal for a missing id or compacted history |
| SyncBundles.ExportAfterFold | src/agent_session.rs:900-942 | compaction changes no export from the floor on, and there is none from before it |
| AgentSession.AgentSession.ImportBundle | src/agent_session.rs:957-1066 | behaves as the specified import and touches nothing but peers and keys; which bundles it accepts and what they leave is SyncBundles.ImportAcceptsExactly and ImportAppends |
| AgentSession.AgentSession.BrokenLink | src/agent_session.rs:998-1021 | reports lengths, anchor or the first link that does not recompute |
| AgentSession.AgentSession.Discontinuity | src/agent_session.rs:1022-1049 | reports the gap or the first contradicted link |
| AgentSession.AgentSession.MergedMemory | src/agent_session.rs:1103-1126 | the merged view of all known streams, whose contents are AgentSession.StreamsHold, MergedInOrder and MergedAlone |
| AgentSession.StreamsHold | src/agent_session.rs:1103-1114 | the streams merged are the own timeline and every foreign one as it is |
| AgentSession.MergedInOrder | src/agent_session.rs:1115-1121 | the stream of the last agent in id order is replayed in full on top of the merge of the others, so every op of every stream is replayed once, in ascending id order |
| AgentSession.MergedAlone | src/agent_session.rs:1115-1126 | one stream alone merges to its own replay |
| Names.BeforeExactly | src/agent_session.rs:1103-1126 | one id is before another exactly if it is a proper prefix or has the smaller character where the two first differ |
| SyncBundles.CheckedLinks | src/agent_session.rs:998-1021 | a bundle passes integrity exactly when its chain is the one its ops have after its anchor |
| SyncBundles.ExtendVerified | src/agent_session.rs:1050-1061 | appending the new suffix of an accepted bundle continues the verified chain and only extends the log |
| SyncBundles.ImportKeeps | src/agent_session.rs:957-1066 | every foreign log stays a verified chain from genesis, logs only grow, the count is exact, a pinned key never changes, and a refusal changes nothing |
| SyncBundles.ImportAcceptsExactly | src/agent_session.rs:957-1049 | whoever sent it, a bundle is accepted if and only if its agent is named and foreign, key and signature come together and check, a pinned agent signed with the pinned key, the links are those of the ops, and it starts within the known log and contradicts no known link |
| SyncBundles.ImportAppends | src/agent_session.rs:1050-1066 | an accepted bundle leaves the known log followed by what is new, its key pinned, and everything else as it was |
| SyncBundles.KeyRefusals | src/agent_session.rs:971-997 | half a signature, a signature that does not check, another key than the pinned one, and no signature from a pinned agent are each refused for that reason |
| SyncBundles.ContentRefusals | src/agent_session.rs:998-1029 | a genuine bundle is refused for its lengths, its anchor or a link exactly as its content has it, and an intact one that starts past what is known as a gap with both positions |
| SyncBundles.BadLinkNamed | src/agent_session.rs:1011-1021 | the step named is the first at which the chain is not that of the ops |
| SyncBundles.EquivocationExact | src/agent_session.rs:1022-1049 | a bundle cut from any self-consistent history passes continuity when it agrees with the known log on their whole shared prefix, is otherwise divergent up to a collision, and is never divergent without a real disagreement |
| SyncBundles.DivergedAtExactly | src/agent_session.rs:1031-1049 | the reported step is never before the cut, and is the first disagreeing one exactly when the histories agree before the anchor's step, up to a collision |
| SyncBundles.ImportDetects | src/agent_session.rs:946-953 | so an import of it, unsigned from an unpinned agent or signed by the pinned key, succeeds with the exact count or is refused as divergent |
| SyncProtocol.SentIsExported | src/agent_session.rs:900-942 | what the protocol's agents send is what the session exports |
| SyncProtocol.HonestDelivery | src/agent_session.rs:957-1066 | a delivery between honest agents gives a gap exactly when it starts past what is known, and otherwise leaves the longer of known and bundle |
| SyncProtocol.NextKeeps | src/agent_session.rs:856-866 | recording, sending and delivering keep every known log a verified prefix of its author's and every message authentic |
| SyncProtocol.RunKeeps | src/agent_session.rs:856-866 | that holds over every run from any start, under loss, duplication and reordering |
| SyncProtocol.RunRecords | src/agent_session.rs:820-829 | after any run each own log is what it was, then what its agent recorded, in order |
| SyncProtocol.NoFalseAccusation | src/agent_session.rs:944-953 | over every run, every delivery to another agent is accepted or reports a gap |
| SyncProtocol.Converges | src/agent_session.rs:1095-1102 | in any reachable state, two agents that know the same agents to the same lengths materialise the same merged memory |
| SyncProtocol.MergesHistories | src/agent_session.rs:1095-1114 | in any reachable state, what an agent merges is its whole own log and, of every agent it knows, a prefix of what that agent recorded |
| SyncProtocol.CatchUp | src/agent_session.rs:895-899 | one export from a step the receiver reaches, delivered once, leaves it with the author's whole log |
| SyncProtocol.PastEndAccuses | src/agent_session.rs:907-920 | in any reachable state, importing a bundle its author exported at any earlier length: a gap if the receiver does not know as far as its start, otherwise accepted with the exact count if the start was within the log, and divergent if it was past its end, up to a collision |
| CallGraph.LawsHold | src/agent_session.rs:1417-1426 | the laws assumed of the memory are met by a memory that prunes and rebuilds its call edges and whose assertions add nodes that resolution reads |
| CallGraph.AssertionSettlesExactly | src/external_memory.rs:616-655 | asserting before resolution is asserting after it if and only if no awaited name gains a definer, apart from names that had two or go from none to two |
| CallGraph.TimelineReproducesExactly | src/agent_session.rs:1860-1863 | over every op sequence, replay equals the live memory at every step if and only if no assertion that finds an ingest pending changes the link of an awaited call |
| CallGraph.AssertionPartsReplay | src/agent_session.rs:1854-1873 | a call, then an assertion about a symbol of that name in a file not ingested: replay and live memory differ, and so do the replays cut between the two and not cut |
| CallGraph.AwaitedCallShows | src/memory.rs:2976-2981 | with a call awaiting resolution, some continuation tells a snapshot from the memory it was taken of |
| CallGraph.SnapshotReplaysExactly | src/external_memory.rs:678-697 | a snapshot replays like its memory under every continuation if and only if no call awaits resolution, for every memory with no ingest pending |
| CallGraph.ReachableMemory | src/agent_session.rs:782 | every memory a timeline replays to, and every live one, has no ingest pending |
| CallGraph.RunNoted | src/agent_session.rs:1805-1875 | after any run, every belief asserted, every pressure signalled and every node paged in on the way is still there |
| LawfulHasher.PremisesHold | src/agent_session.rs:343-346 | the premises of the chain theorems can be met |
| TimeWarp.NoPathIsCheaper | src/dtw.rs:50-58 | no alignment costs less than the table's cell |
| TimeWarp.TracedIsOptimal | src/dtw.rs:59-75 | the traceback is an alignment from the first pair to the last and costs exactly the table's cell |
| TimeWarp.FillTable | src/dtw.rs:47-58 | the loops fill the specified table |
| TimeWarp.TrackedWithin | src/dtw.rs:50-58 | series that stay within a bound of each other, step for step, are within that bound a sample |
| TimeWarp.TraceBack | src/dtw.rs:59-76 | the loop takes the diagonal on ties, then up, then left |
| TimeWarp.Align | src/dtw.rs:39-86 | empty inputs as documented; otherwise a cheapest alignment over all monotone ones, its cost, and the first pair past the threshold |
| TimeWarp.ZeroDistance | src/dtw.rs:23-24 | distance zero exactly when the series differ only in how long they hold each value; zero on identical series; symmetric |
| TimeWarp.LcsIsLongest | src/dtw.rs:88-90 | some common subsequence has that length and none is longer |
| TimeWarp.LcsLen | src/dtw.rs:91-107 | the loops compute that length |
| Conformal.SortedOthers | src/conformal.rs:39-41 | calibrating on all but one score sorts like taking it out of the sorted whole |
| Conformal.FlaggedByOthers | src/conformal.rs:58-79 | a score is flagged by a guard calibrated on the others exactly when it reaches the score of the guard's rank among all |
| Conformal.FlaggedExactly | src/conformal.rs:24-79 | of N scores, each judged by the others, exactly those from the first one tied with the rank on are flagged |
| Conformal.BoundHoldsExactly | src/conformal.rs:44-49 | the share flagged is within alpha if and only if no tie straddles the cut, and then is as close to it as a whole number can be |
| Conformal.AlphaBounds | src/conformal.rs:24-49 | stated for the given alpha between zero and one, the share flagged is at most alpha if and only if no tie straddles the cut |
| Conformal.DistinctScoresBounded | src/conformal.rs:5-9 | for pairwise distinct scores the count is N - ceil(N(1 - alpha)), within the bound |
| Conformal.StrictComparisonBounded | src/conformal.rs:18-21 | with the documented comparison, above the threshold, the bound holds for all scores |
| Conformal.TiesBreakTheBound | src/conformal.rs:77-79 | two equal scores at alpha one half are both flagged |
| Drift.DeviationIsShift | src/drift.rs:46-61 | the cumulative deviation at a split is the shift of the mean there, weighted by the sizes of both sides |
| Drift.FlatIsConstant | src/drift.rs:50-52 | the deviation is zero throughout exactly for a constant series |
| Drift.FindChangepoint | src/drift.rs:34-63 | none exactly for fewer than two points or a constant series; otherwise an interior split, the first that weighs heaviest, with its shift and its peak |
| EventLog.DistributedEventLog.constructor | src/distributed_event_log.rs:28-34 | an empty log is intact |
| EventLog.DistributedEventLog.Append | src/distributed_event_log.rs:36-65 | appends one event under the next id and keeps the log intact, so every sequence of appends verifies |
| EventLog.DistributedEventLog.VerifyIntegrity | src/distributed_event_log.rs:71-127 | on any log, valid exactly when every link has its event, continues the link before it and recomputes; each failing position is named |
| EventLog.LinkBytesTell | src/distributed_event_log.rs:145-151 | the hashed bytes determine id, payload and previous hash |
| EventLog.HashBinds | src/distributed_event_log.rs:140-151 | equal hashes at two positions mean one position and equal histories up to it, or a collision |
| EventLog.LastHashBinds | src/distributed_event_log.rs:71-151 | two logs that verify and end in one hash have chains of one length and the same ids and payloads along them, or a collision |
| EventLog.NotCovered | src/distributed_event_log.rs:140-144 | timestamps, sources, link ids and unchained events may change without verification noticing |
| CausalCone.CausalAdjacency | src/causal_flash.rs:160-182 | the index holds exactly the dependency edges, both ways, repeats included |
| CausalCone.OutEdgesCount | src/causal_flash.rs:163-170 | a child stands under its parent as often as there are dependency edges between the two of that weight |
| CausalCone.InEdgesCount | src/causal_flash.rs:171-174 | a caller stands under its callee as often as there are dependency edges between the two |
| CausalCone.BallIsReach | src/causal_flash.rs:251-273 | a node is within k steps exactly when some path of at most k dependency edges, through nodes that are not dead, leads to it from a seed |
| CausalCone.Expand | src/causal_flash.rs:255-272 | one parent: accumulate on every live child, discover the new ones at this depth |
| CausalCone.ExpandLayer | src/causal_flash.rs:252-273 | one layer: depth holds one step more and the frontier is exactly the next layer |
| CausalCone.Traverse | src/causal_flash.rs:244-295 | depth holds exactly the nodes within the horizon, each at its shortest distance; the cut is the next layer; nothing is cut exactly when the horizon is zero or the cone is closed |
| CausalCone.CompleteMeansClosed | src/causal_flash.rs:14-16 | nothing lies past the cone exactly when it is closed under dependencies |
| CausalCone.HorizonZeroClaimsTooMuch | src/causal_flash.rs:281 | at horizon zero a cone that is not closed counts as complete |
| DependencyWalks.WalksAreAll | src/causal_flash.rs:55-56 | the enumeration of walks holds every walk of at most k dependency edges from a seed and nothing else |
| ConeRelevance.RelevanceSumsCounted | src/causal_flash.rs:251-278 | on every graph, relevance is the sum over the counted walks of the product of decay times weight |
| ConeRelevance.CountedWalksAre | src/causal_flash.rs:251-273 | the counted walks are those from the seeds whose parents lie in the layers processed and come in processing order, each once for every choice of edges |
| ConeRelevance.SameWalksExactly | src/causal_flash.rs:14-16 | the counted walks are the walks within the horizon if and only if being counted and being that short mean the same, and then relevance is the sum over them |
| ConeRelevance.CountsAllExactly | src/causal_flash.rs:14-16 | that is so if and only if every edge before the last leads on in processing order and no walk in that order overruns the horizon |
| ConeRelevance.RelevanceSumsWalks | src/causal_flash.rs:14-16 | in a cone whose edges lead one layer out, relevance is the sum over all walks from the seeds within the horizon |
| ConeRelevance.LoopBreaksTheSum | src/causal_flash.rs:265-267 | a working node that calls itself, at horizon two: relevance counts the loop once, the walks go around twice |
| ConeWindow.Assemble | src/causal_flash.rs:297-348 | an entry for every resident cone node and every live resident caller outside the cone, each once; what the entries say is ConeWindow.EntriesCarry |
| ConeWindow.ReadingOrders | src/causal_flash.rs:350-365 | the reading order is a total preorder, so sorting by it is well defined |
| ConeWindow.Budget | src/causal_flash.rs:369-398 | seeds and dependencies are never dropped; callers go cheapest first, no more than needed; the order stays |
| ConeWindow.ConeCore | src/causal_flash.rs:235-408 | the whole window: exact cone, exact ring, reading order, budget, and an honest count of what was left out; the next rows say what it shows |
| ConeWindow.ConeNodesShown | src/causal_flash.rs:60-63 | whatever the budget, every resident node within the horizon is shown at its distance |
| ConeWindow.EntriesCarry | src/causal_flash.rs:297-348 | every entry has the state and trust of its node; a cone node its distance, the decayed sum over the counted walks to it, and the role of a seed exactly if it is one; a caller is live, outside the cone, and takes its distance and decay times the relevance from the first cone node it calls |
| ConeWindow.CallersShown | src/causal_flash.rs:320-348 | if callers are asked for, every live resident one outside the cone has an entry |
| ConeWindow.ReadInOrder | src/causal_flash.rs:350-365 | seeds, then dependencies, then callers; nearer first, then the more relevant, then by id |
| ConeWindow.DroppedFirst | src/causal_flash.rs:371-398 | what the budget drops is a caller no more relevant than any caller kept, by id on ties |
| CcrStore.CausalCompressor.Store | src/compressor.rs:262-266 | the original is stored under its reference |
| CcrStore.CausalCompressor.CompressItemInner | src/compressor.rs:205-256 | the routed form, the reference exactly when the original was stored, and the statistics |
| CcrStore.RouteTaken | src/compressor.rs:205-256 | which items pass through unstored, and for the others which compressor is taken, that its output is the form, and that the original is stored under its own reference |
| CcrStore.StoredElse | src/compressor.rs:262-266 | a window stores nothing under references its items do not have |
| CcrStore.CausalCompressor.EnforceCapacity | src/compressor.rs:274-290 | kept references stay, the lowest others go, no more than needed, until the capacity is met or only kept ones are left |
| CcrStore.CausalCompressor.CompressItem | src/compressor.rs:186-200 | the reference handed back retrieves the original whatever the capacity |
| CcrStore.CausalCompressor.Leaders | src/compressor.rs:316-338 | leaders are pairwise below the threshold, and every duplicate points to the first earlier leader at or above it, never to a duplicate |
| CcrStore.LeadersApart | src/compressor.rs:316-338 | items kept are pairwise below the threshold, and a suppressed one points to the first earlier kept item at or above it |
| CcrStore.SuppressionUnique | src/compressor.rs:320-338 | that determines the suppression |
| CcrStore.CausalCompressor.CompressAll | src/compressor.rs:307-313 | every original is stored in order, a later one under the same reference winning |
| CcrStore.CausalCompressor.CompressWindow | src/compressor.rs:302-377 | each output is the compressed form or the note of its leader, with its reference and statistics, and eviction spares every reference handed back |
| CcrStore.RefsRetrieve | src/compressor.rs:268-273 | every reference handed back is in the store, and retrieves its own original exactly when the last item of the window stored under it has the same content |
| CcrStore.CapacityMet | src/compressor.rs:274-290 | afterwards the store meets a nonzero capacity or holds exactly this window's references |
| CcrStore.LostExactly | src/compressor.rs:292-301 | without collisions, an item's original can be had back exactly when it has a reference or was not suppressed, or reads like the note |
| Crusher.CrushValue | src/compressor.rs:576-657 | appends the layout of the value with its strings coded by the dictionary so far |
| Crusher.CrushFields | src/compressor.rs:578-592 | an object without its nullish fields |
| Crusher.CrushColumns | src/compressor.rs:594-626 | an array of objects as columns, one cell an item |
| Crusher.CrushCells | src/compressor.rs:613-622 | a column leaves the cell of a missing or nullish field empty |
| Crusher.CrushItems | src/compressor.rs:628-635 | any other array, item by item |
| Crusher.CrushString | src/compressor.rs:637-648 | the first occurrence quoted and numbered, later ones as its number |
| Crusher.EscapeJson | src/compressor.rs:659-671 | the loop appends the escaped text |
| Crusher.Crush | src/compressor.rs:566-574 | the whole value from an empty dictionary; text that does not parse unchanged |
| Crusher.DictionaryRoundTrip | src/compressor.rs:637-648 | as chunks, literals and references decode to the original strings in order, and no string is written out twice |
| Crusher.EscapeRoundTrip | src/compressor.rs:659-671 | parsing the escaped text, a quote and any tail gives the string and the tail |
| JsonStrings.TraversedIsWritten | src/compressor.rs:576-657 | the layout writes the strings of the fields and items that are not nullish, an array of objects column by column, in this order and no others |
| JsonStrings.TraversedIsKept | src/compressor.rs:576-657 | for a value with distinct keys these are, each as often, the strings anywhere in it that are under no nullish field |
| JsonStrings.OnlyEmptyStringsLost | src/compressor.rs:579-582 | leaving out nullish fields loses no string but empty ones |
| CrushedText.CrushedStringsDecode | src/compressor.rs:553-574 | reading the text written for a value gives the strings read off the value itself, in traversal order, when no written key has a quote or a tilde |
| CrushedText.NoStringLost | src/compressor.rs:553-574 | what is read are the strings under no nullish field, each as often, and of any string but the empty one as many as the value holds anywhere |
| CrushedText.ColumnsExactly | src/compressor.rs:594-635 | an array is written in columns exactly if it has items, all of them objects, one with a field to write; any other goes in brackets |
| CrushedText.SameTextSameStrings | src/compressor.rs:553-574 | two such values written alike hold the same strings |
| CrushedText.KeysReadBackExactly | src/compressor.rs:588-589 | every value over a set of keys reads back if and only if none of the keys has a quote or a tilde |
| CrushedText.KeysHideStrings | src/compressor.rs:588-589 | a key with a quote is written like a field with a string and the next key, and hides the string |
| CrushedText.QuotedKeysMayReadBack | src/compressor.rs:588-589 | one value reads back in spite of quotes in its keys, so no condition on a single value's keys is exact |
| CrushedText.KeysAreNotEscaped | src/compressor.rs:588-589 | two different objects are written alike, for every choice of keys and numbers |
| CrushedText.ColumnsLookLikeFields | src/compressor.rs:594-626 | an array of one-field objects is written like an object with one array, for every key and all values that are written |
| CrushedText.NullishLeavesNoTrace | src/compressor.rs:579-582 | an object of nullish fields is written like an empty one |
| CrushedText.OmittedExactly | src/compressor.rs:579-582 | a field leaves no trace exactly if it is null or an empty string, array or object |

## Left out

- Real files: an atomic durable write is one step on a map from sequence number to bytes, and I/O errors,
  directories, paths and fsync are not modelled. `util::write_durable` is not part of this model.
- Lengths: keys and values of 2^32 bytes or more, which the `as u32` casts would cut short, are excluded by
  preconditions, as are memtables and stores of 2^30 records or more.
- Keys are byte strings under the order of `str`; the check that a key read back is UTF-8 is not modelled,
  nor are segment records with an invalid tag byte (every raw value comes from `encode_value`).
- `binary_search_by` is the rank in the sparse index; on an index that is not sorted, which no written
  segment has, its result is not modelled.
- The store's `Clone`, its size estimates and the cold-tier code that uses it.
- `CcosMemory` is a parameter with laws; its graph, scoring, recall windows and caches are not modelled, nor
  are the results of a recall, `retrieval_reward`, weight tuning, trajectories and drift attribution.
- SyncBundles: SHA-256, ed25519 and JSON are functions with explicit premises; that a snapshot or a bundle
  reads back from its text as it was is part of those premises, except where `CallGraph` looks into it. The
  premise that JSON tells ops apart leaves out weights that are NaN, infinite or negative zero.
- SyncProtocol: the agents of the state machine are values; they record, export and import by the functions
  that the session's methods are proved against.
- `open`, `checkpoint`, sidecar files, licensing, custom authorities and automatic compaction thresholds.
- Foreign logs restored from disk are taken to be verified chains; a foreign id equal to the session's own or
  to `local`, which would replace the own stream in the merged view, does not arise in the protocol.
- SyncProtocol.RunKeeps: the agents of the protocol do not compact, which is what the source asks of
  federated agents; a session's own compaction is proved about `AgentSession`.
- Widths of `usize`, `u64` clocks and step counters, and the crusher's 32-bit string numbers, are unbounded
  here, except the eight-byte ids of the event log.
- Floating point: distances, scores, weights and series are real numbers, with infinities as values of their
  own where the code uses them; there is no NaN and no rounding.
- CausalCone: the choice of seeds from node states, the adjacency cache and the graph around it. Child lists
  are sorted as in the source, but no result depends on their order.
- CcrStore: the router, the code skeletonizer, the summarizer, the similarity estimate and the auto-tuner are
  functions, and the reference of a content is any function of it.
- Crusher: parsing JSON; a value arrives parsed, with its numbers as text and its object keys distinct and
  ascending. The string reader used to decode does not read surrogate pairs, which escaping never writes.
- CrushedText.CrushedStringsDecode: the condition is on a set of keys; which single values with a quote or a
  tilde in some key happen to read back is not characterised.
- `consensus`, `context_policy`, `context_region`, `eviction_policy`, `agents`, `adversarial`, `egress` and
  `bounded_file`: small modules whose claims are easy or about I/O.
