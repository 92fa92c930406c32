# CCOS working memory: a verified model

CCOS gives an agent a working memory that is meant to be deterministic, replayable and
tamper-evident. This project models the engines behind that claim and proves what each of
them keeps, over every input, every call sequence and, where it matters, every crash point
or every delivery order.

- **Cold store** (`SegmentFile`, `SegmentRoundTrip`, `SegmentLookup`, `ReadCache`, `Layers`,
  `CompactionCrash`, `HuskStores`, `StoreRuns`, `CrashRuns`). Bytes, records, layers and the map they stand
  for: three refinements, each proved. Segments are byte sequences in the source's format, the
  directory is an object whose ghost `trace` lists every disk state a crash could leave, and a
  store is a last-write-wins map whatever the mix of writes, flushes, compactions and reads. A
  run's ledger says how much of the stream each disk state on the way recovers, and runs are
  chained through any number of crashes and reopenings.
- **Session and exchange** (`Replay`, `ReplayExactness`, `Snapshots`, `NameResolution`, `HashChain`, `Sync`,
  `SyncVerdicts`, `Federation`, `CatchUp`, `OwnStreams`, `AgentSessions`, `EventLog`). A
  hash-chained op log with a compaction floor, deferred replay against live execution, forks,
  and bundles exchanged by many sessions over a network that loses, repeats and reorders. The
  causal memory is a `Kernel`: a base that ops write, the cross-file edges, and the references
  that resolution reads, which a snapshot does not hold. The link hash, the signature, its key
  and its check are parameters. No hash
  is assumed collision-free everywhere: where a result needs it, it asks only that no two of the
  finitely many inputs hashed in the two chains at hand collide, and such hashes are exhibited
  (`HashChain.CollisionFreeHashExists`, `EventLog.DigestExists`).
- **Series** (`Dtw`, `Conformal`, `Drift`). Warping distance with its traceback, longest common
  subsequence, the conformal false-alarm bound, the CUSUM change-point. Samples are `real`;
  infinity is a constructor.
- **Causal window** (`CausalCone`, `CausalRelevance`, `CausalWindow`, `CausalLocality`,
  `CausalFlash`). The layered search against shortest dependency distance, the meaning of
  relevance, the cut and its flag, the caller ring, the reading order, the budget, and
  independence from the rest of the graph.
- **Compressor store** (`Compressor`, `CausalCompressors`). Filing, eviction, near-duplicate
  suppression and tuning, for arbitrary text transforms, hash and similarity.
- **Candidate audit** (`CandidateAudit`, `CandidateAudits`, `PromotionVeto`). What every sequence of
  calls keeps, and exactly how far the counterexample veto reaches.
- **Claim codes** (`ClaimCode`). The 5-bit encoder through its 32-bit accumulator and the
  tolerant parser that undoes it.

`Keys`, `Results`, `Numbers` and `Sorting` hold the byte order of keys, result types, small
arithmetic and the stable sort.

Operations that change state are classes with the source's fields; their methods are proved
against functions of the old state, and the theorems are about those functions.

## Where the code and its own description differ

Each of these is proved as stated, with the condition under which the description holds.

- `Segment::get` is described as scanning at most `STRIDE` records. It can read one more; it
  does so exactly when the key falls strictly between the last record of one stride and the
  first of the next (`SegmentLookup.Get`).
- Compaction is described as safe because the merged segment shadows the old ones. The merged
  segment drops tombstones, so it is safe because files are deleted oldest first; a failed
  deletion (its error is ignored) that leaves an older file behind a deleted newer one can
  bring a deleted key back (`CompactionCrash.DeletionOrderIsExact`).
- Deferred replay is said to equal live execution. An evidence assertion while an ingest awaits
  resolution can change what resolution sees. From an unfolded history a log replays exactly at
  every step if and only if it is quiet: no edit made while an ingest is pending changes what
  resolution makes of the memory (`ReplayExactness.ReplaysExactlyWhenQuiet`). With a resolver that
  counts names, as the call resolver does, an assertion about another file's symbol of the same
  name breaks it (`NameResolution.AssertionsCanBreakReplay`).
- Compaction is said to keep every replay at or above its floor, and the references that resolution
  reads to be rebuilt by the replay. Those of folded files are not: a snapshot does not hold them,
  and a folded file keeps its call edges as they stood. Two ingests and no edit suffice: fold the
  file that calls, retain the file that defines, and the replay loses the edge that the live memory
  keeps (`NameResolution.SnapshotsForgetCalls`). The replays are kept, and a session that replays to
  its live memory stays one, if and only if every retained ingest resolves to the same edges with
  the references of the retained files as with those of all files, and no edit tells the two apart
  while a resolution is due (`AgentSessions.AgentSession.Compact`, `Snapshots.SnapshotSufficesExactly`);
  file by file in `Snapshots.IngestAgreesExactly`. Without a retained ingest a quiet log is always safe.
- `export_bundle` does not clamp `first_seq` to the log. An export from beyond the end carries
  the current head as its anchor, so a receiver that holds the log past that step calls the
  honest sender divergent unless that head recurs there (`SyncVerdicts.ExportIsJudgedByItsAnchor`,
  `SyncVerdicts.HonestExportExactly`).
- `merged_view` inserts the foreign logs under their ids after its own, so a foreign log under
  the session's own id (or `local` for an unnamed session) replaces its own stream. A fresh
  session gets there by accepting a bundle under `local`, or by taking an id after accepting a
  bundle under it; one that takes its id first never does (`OwnStreams.OwnStreamSurvivesExactly`,
  `OwnStreams.LocalBundleReplacesOwnStream`, `OwnStreams.NamingAfterImportReplacesOwnStream`,
  `OwnStreams.NamedFirstKeepsItsStream`).
- `verify_integrity` does not compare the number of events with the number of links: events
  after the last link are not covered (`EventLog.VerificationCovers`,
  `EventLog.ExtraEventsUnnoticed`). An empty session chain with no anchor and no commitment is
  accepted unverified (`HashChain.VerifyTimelineParts`).
- The conformal guard flags `score >= threshold`. With `>` the promised bound always holds;
  with `>=` it holds exactly when the scores have no tie at the rank of the threshold
  (`Conformal.StrictAlarmBound`, `Conformal.AlarmBoundExactly`).
- The cone's `complete` flag is said to hold if and only if nothing was cut. At horizon 0 it is
  always set (`CausalCone.CompleteFlagExactly`).
- A deduplicated item is said to stay retrievable. An item below `min_chars`, or passed through
  unchanged, was never filed, so its text is lost when it is near an earlier item that is shown
  (`Compressor.LostExactly`, `Compressor.ShortDuplicateIsLost`). The configurations that never
  lose a text are those without deduplication and those under which nothing unfiled can be near
  anything (`Compressor.NothingLostExactly`). A threshold of 0.0 is
  documented as "never dedup"; it suppresses every item but the first
  (`Compressor.ZeroThresholdSuppressesAll`). "Lower-scored" is "later": the pass never looks at
  the scores.
- A counterexample is called an unconditional promotion veto. `decide_repeated_seed` honours it;
  `record_adoption`, also public, does not look at counterexamples. Any promotion that the policy
  decides can be taken apart and recorded behind a counterexample for its candidate, although the
  gate vetoes it (`PromotionVeto.PromotionBehindCounterexample`). Over every run no promotion follows
  a counterexample if and only if no call records one directly while one is on file
  (`PromotionVeto.VetoKeptExactly`).
- `canonical_code` tests a character by its low byte, so some characters outside ASCII pass:
  the result can be ill-formed text, or the slicing can panic
  (`ClaimCode.AcceptedIsWellFormedExactly`, `ClaimCode.NonAsciiSlipsThrough`,
  `ClaimCode.NonAsciiCanPanic`). A bare body that starts with CC0S loses its start to the brand
  stripping and is rejected (`ClaimCode.BareBodyExactly`).

## Model

| member | source | states |
|---|---|---|
| `SegmentFile.WriteSegment` | src/cold_index.rs:43-70 | refuses records that are not strictly ascending; otherwise produces exactly the segment encoding (records, sparse index, footer) |
| `SegmentFile.PutRecords` | src/cold_index.rs:52-60 | the record bytes, with a sparse entry at every 64th record holding its key and byte offset |
| `SegmentFile.PutSparse` | src/cold_index.rs:61-66 | the sparse count and entries follow the records |
| `SegmentFile.OpenSegment` | src/cold_index.rs:83-111 | every footer check in order, then the sparse index, on arbitrary bytes |
| `SegmentFile.LoadSparse` | src/cold_index.rs:100-105 | reads the stated number of entries or fails where the bytes end |
| `SegmentFile.Records` | src/cold_index.rs:153-164 | the full scan, on arbitrary bytes |
| `SegmentRoundTrip.OpenAfterWrite` | src/cold_index.rs:83-111 | opening what was written recovers the sparse index and record end, and the file then holds those records |
| `SegmentRoundTrip.RoundTrip` | src/cold_index.rs:33-70 | the written records read back as the same list if and only if every length is below 2^32 and every key is UTF-8 |
| `SegmentRoundTrip.EncodingIsInjective` | src/cold_index.rs:43-70 | two record lists with the same segment bytes are the same list |
| `SegmentRoundTrip.RecordAt` | src/cold_index.rs:134-147 | a read at a record's offset gives that record and ends at the next offset |
| `SegmentRoundTrip.SparseLength` | src/cold_index.rs:55-57 | one sparse entry per 64 records, rounded up |
| `SegmentRoundTrip.SparseIndex` | src/cold_index.rs:55-57 | sparse entry j names record 64 j and its offset |
| `SegmentLookup.BinarySearch` | src/cold_index.rs:126-130 | a hit is the key; a miss is the insertion point: all keys before are smaller, all after are larger |
| `SegmentLookup.ReadAt` | src/cold_index.rs:134-151 | the scan from an offset, with the number of records it reads |
| `SegmentLookup.Get` | src/cold_index.rs:120-132 | equals linear search of the record list; reads at most 65 records, and more than 64 exactly when the key falls between strides |
| `SegmentLookup.GetFrom` | src/cold_index.rs:126-151 | scanning from the largest sparse key at or below the key finds what linear search finds |
| `SegmentLookup.ScanLoop` | src/cold_index.rs:181-198 | the prefix scan from an offset, on arbitrary bytes |
| `SegmentLookup.ScanPrefix` | src/cold_index.rs:169-199 | equals filtering the record list by the prefix, in key order |
| `Keys.PrefixRangeIsConvex` | src/cold_index.rs:189-196 | once past the keys with a prefix the scan never meets another: why it may stop |
| `ReadCache.Lru.Get` | src/cold_index.rs:277-284 | answers from the cache and makes the key the most recent |
| `ReadCache.Lru.LeastRecent` | src/cold_index.rs:291-295 | the entry with the smallest clock is the head of the recency list |
| `ReadCache.Lru.Insert` | src/cold_index.rs:285-301 | the recency list becomes the newest `cap` of the old list without the key, then the key; other values unchanged |
| `ReadCache.Lru.Remove` | src/cold_index.rs:302-304 | the recency list without the key |
| `Layers.ValueRoundTrip` | src/cold_index.rs:315-335 | tagged values and tombstones decode to what was encoded |
| `Layers.StackedAppend` | src/cold_index.rs:408-416 | merging two runs of segments in turn is merging them together |
| `Layers.OverlayLayer` | src/cold_index.rs:514-521 | replaying a segment's records over a map is overriding it by that layer |
| `Layers.OverlayPrefix` | src/cold_index.rs:537-543 | the same for the records with a prefix |
| `CompactionCrash.MergedMeaning` | src/cold_index.rs:454-489 | the merged segment on top of any segments that show only newest slots means what all the layers meant |
| `CompactionCrash.OldestFirstIsSafe` | src/cold_index.rs:490-493 | if the files still present are a newest run, the store means the same, with or without a merged file |
| `CompactionCrash.DeletedPrefixIsSafe` | src/cold_index.rs:491-493 | after any number of oldest-first deletions the contents are unchanged, also when nothing is live |
| `CompactionCrash.SkippedDeletionResurrects` | src/cold_index.rs:491-493 | for any surviving older file behind a deleted newer one there are layers for which a deleted key comes back |
| `CompactionCrash.DeletionOrderIsExact` | src/cold_index.rs:443-495 | a set of survivors is safe for all contents if and only if it keeps every file newer than any it keeps |
| `HuskStores.HuskStore.Flush` | src/cold_index.rs:422-441 | contents unchanged, memtable empty and all of it durable; every disk state on the way recovers the contents |
| `HuskStores.HuskStore.Put` | src/cold_index.rs:377-382 | contents updated at the key; memtable kept under its limit; every disk state on the way recovers the new contents |
| `HuskStores.HuskStore.Delete` | src/cold_index.rs:384-388 | contents without the key, also when older segments hold it |
| `HuskStores.HuskStore.MaybeFlush` | src/cold_index.rs:390-396 | afterwards the memtable is below its limit |
| `HuskStores.HuskStore.FindInSegments` | src/cold_index.rs:408-417 | the first segment from the newest that has the key decides |
| `HuskStores.HuskStore.Get` | src/cold_index.rs:401-418 | answers what the map holds, through memtable, cache and segments |
| `HuskStores.HuskStore.LiveEntries` | src/cold_index.rs:512-529 | exactly the map's entries in key order |
| `HuskStores.HuskStore.ScanPrefix` | src/cold_index.rs:535-554 | exactly the map's entries with the prefix, in key order |
| `HuskStores.HuskStore.MergeLive` | src/cold_index.rs:456-469 | the oldest-to-newest replay computes the meaning of the segments |
| `HuskStores.HuskStore.WriteMerged` | src/cold_index.rs:475-489 | writes one segment of live values under the highest number, or none when nothing is live; every disk state recovers |
| `HuskStores.HuskStore.MergeAll` | src/cold_index.rs:451-494 | at most one segment left, same contents; every disk state through the deletions recovers them |
| `HuskStores.HuskStore.Compact` | src/cold_index.rs:449-495 | contents unchanged and durable in at most one segment; a crash at any point recovers exactly the contents held before |
| `HuskStores.Open` | src/cold_index.rs:341-374 | reopening a directory that recovers a map gives a store with exactly that map; any unreadable segment is an error |
| `StoreRuns.Step` | src/cold_index.rs:377-495 | each operation does to the store what it does to the map; what is durable stays or becomes the new contents, and does become it at a successful flush or compaction |
| `StoreRuns.Run` | src/cold_index.rs:377-554 | over every operation stream the answers and final contents are those of a last-write-wins map; a ledger gives, also when a step fails, the operations recovered by every disk state on the way and by the final one, a number that never falls and is past every successful flush or compaction |
| `StoreRuns.FlushedIsNeverLost` | src/cold_index.rs:422-495 | after a successful flush or compaction at step k every later disk state, written or left between steps, recovers the stream to beyond k |
| `CrashRuns.RecoversOneMap` | src/cold_index.rs:341-374 | a directory recovers at most one map |
| `CrashRuns.OneLife` | src/cold_index.rs:341-495 | opening a recoverable directory and running any operations is a life: whatever disk state a crash leaves, also in the middle of the last operation, is accounted for |
| `CrashRuns.CrashesLoseOnlySuffixes` | src/cold_index.rs:341-495 | over any number of crashes and reopenings each life loses at most a suffix of its operations, never one up to a successful flush or compaction, and each reopening holds exactly what the surviving operations make |
| `ReplayExactness.AgreeExactly` | src/agent_session.rs:1774-1832 | two runs that start by showing the same memory, deferred or eager, show the same throughout if and only if each ingest resolves alike with the references of either and no edit tells them apart while a resolution is due |
| `ReplayExactness.ReplaysExactlyWhenQuiet` | src/agent_session.rs:1774-1832 | for every memory: a log replays to its live memory at every step if and only if no edit in it, made while an ingest is pending, changes what resolution makes of the memory |
| `ReplayExactness.ReplayEqualsLive` | src/agent_session.rs:1393-1422 | so deferred replay of a quiet log is the live state |
| `ReplayExactness.ReplayIsLiveExactly` | src/agent_session.rs:1774-1832 | a memory replays every log exactly if and only if no edit ever changes what a base awaiting resolution derives |
| `NameResolution.AssertionsCanBreakReplay` | src/agent_session.rs:1815-1830 | with calls resolved in their own file or else by unique name, asserting about a third file's symbol of that name after the ingests leaves live with the call edge and replay without it |
| `NameResolution.SnapshotsCanChangeReplay` | src/agent_session.rs:775-792 | and folding those ingests into a snapshot changes what the log replays to |
| `NameResolution.SnapshotsForgetCalls` | src/memory.rs:2805-2821 | without any edit: after folding the caller, ingesting its callee gives the replay no edge, while live and full replay have it |
| `NameResolution.RivalUnresolves` | src/memory.rs:3110-3218 | the call resolves while one symbol has the name and to nothing once two have |
| `Snapshots.SnapshotSufficesExactly` | src/agent_session.rs:775-792 | for every log and every cut: replay from the loaded snapshot shows what the full replay shows, at every later step, if and only if every retained ingest resolves alike with the references of the retained files and with all, and no edit tells the two apart |
| `Snapshots.IngestAgreesExactly` | src/memory.rs:2805-2821 | file by file: an ingest resolves alike if and only if every forgotten file has exactly the edges its references would give now, and the retained files resolve without the forgotten ones as with them |
| `Snapshots.KeepsReplaysWithoutIngests` | src/agent_session.rs:775-792 | when no ingest is retained: if and only if the edits right after the cut leave the pending resolution alone |
| `Snapshots.SnapshotReplaysAs` | src/agent_session.rs:775-816 | for a log whose replays show what was live: taking a snapshot leaves that so if and only if the snapshot keeps the replays, and always when no ingest is retained |
| `Snapshots.ReplaysAsExactly` | src/agent_session.rs:812-816 | a replay that starts from a snapshot shows the live memories throughout if and only if it starts like them and every step agrees |
| `Replay.RedoAbsorbs` | src/external_memory.rs:1581-1593 | edges that an earlier resolution rebuilt do not matter to the one after a further ingest |
| `Replay.BatchEqualsLoop` | src/agent_session.rs:1151-1171 | resolving once after a batch of ingests equals resolving after each |
| `HashChain.ChainIsUnique` | src/agent_session.rs:355-364 | the links that verify from an anchor are exactly the recomputed chain |
| `HashChain.RebuildChain` | src/agent_session.rs:355-364 | the loop produces a chain that verifies |
| `HashChain.VerifyTimelineParts` | src/agent_session.rs:370-417 | valid if and only if the commitment matches and every link holds, or the parts are the empty legacy form; each broken step is reported and the good links counted |
| `HashChain.SharedLink` | src/agent_session.rs:343-347 | without a collision between two chains, one shared link fixes step, op and predecessor |
| `HashChain.ChainsAgree` | src/agent_session.rs:343-417 | two verified chains that share the link at step i hold identical ops, links and anchor up to i |
| `HashChain.HeadsShareTheTail` | src/agent_session.rs:775-792 | two verified timelines with the same head, whatever their floors, end at the same step and share every op and link both retain, down to the link before: what compaction relies on |
| `HashChain.HeadCommits` | src/agent_session.rs:846-854 | at the same floor they are the same timeline: no mutation, reorder, insertion or deletion keeps the head |
| `HashChain.CollisionFreeHashExists` | src/agent_session.rs:343-347 | for any finite pool of ops some link hash has no collision over them at all |
| `HashChain.LinkedSuffix` | src/agent_session.rs:781-790 | dropping folded links keeps the rest verifying from the last folded link, with the same head |
| `HashChain.LinkedAppend` | src/agent_session.rs:820-829 | verified links that continue a verified chain extend it |
| `Sync.ExtendedIsLinked` | src/agent_session.rs:1031-1066 | whatever the hash, an import leaves a verified chain from genesis that extends the known one |
| `Sync.ExtendedIsLog` | src/agent_session.rs:1031-1066 | and without a collision between known log and bundle it contains the bundle |
| `Sync.OverlapAgrees` | src/agent_session.rs:1031-1060 | overlapping ops, which the code never compares, are equal because their links are |
| `Sync.ImportIsSafe` | src/agent_session.rs:957-1066 | for arbitrary bundles and any hash: foreign logs stay verified and only grow, other agents are untouched, a refusal changes nothing, a pinned key never changes, the own id never enters |
| `SyncVerdicts.Verdict` | src/agent_session.rs:998-1066 | without a collision between known log and bundle: tampered, gap, divergent or accepted, each exactly when: ill-formed, starts past the known end, no single history explains both, one does |
| `SyncVerdicts.OneHistoryIsAdmitted` | src/agent_session.rs:998-1066 | whatever the hash, a bundle of one history with what is known is accepted, or a gap if it starts past the end |
| `SyncVerdicts.ExportIsSegment` | src/agent_session.rs:900-942 | an export within the log is a verified stretch of it |
| `SyncVerdicts.LateExport` | src/agent_session.rs:907-921 | an export from past the end is empty and anchored at the current head |
| `SyncVerdicts.ExportIsJudgedByItsAnchor` | src/agent_session.rs:900-1060 | whatever the hash: a receiver that holds the sender's log to at least `since` accepts an honest export if and only if `since` was within the log at export, or the head then is the link before `since`; it otherwise calls it divergent |
| `SyncVerdicts.HonestExportExactly` | src/agent_session.rs:900-942 | so where the links of the log are all different: if and only if `since` is at most the length at export |
| `Federation.NextKeepsInv` | src/agent_session.rs:820-1066 | every recording, export and delivery keeps: each copy of another's log is a prefix of it, pins are the agents' own keys, bundles in flight are stretches of their sender's log |
| `Federation.RunKeepsInv` | src/agent_session.rs:820-1066 | the same over every run, with bundles lost, repeated and reordered |
| `Federation.HonestVerdict` | src/agent_session.rs:957-1066 | an honest bundle is accepted if and only if it starts within what is known, and is otherwise a gap; never tampered, divergent or forged |
| `Federation.RunGrows` | src/agent_session.rs:957-1066 | over every run logs, copies and pins only grow |
| `Federation.CaughtUpSessionsConverge` | src/agent_session.rs:1103-1126 | in every reachable state two sessions that hold all logs have the same merged view |
| `Federation.FullExportCatchesUp` | src/agent_session.rs:900-1066 | delivering an export from step 0 leaves the receiver with the sender's whole log |
| `CatchUp.EveryRunCanCatchUp` | src/agent_session.rs:900-1066 | every reachable state has a continuation in which every session holds every log |
| `CatchUp.EveryRunCanConverge` | src/agent_session.rs:1103-1126 | and in which all merged views are equal |
| `OwnStreams.ForeignExactly` | src/agent_session.rs:957-1066 | over every history of a fresh session, an id has a foreign log if and only if a bundle carrying it was accepted |
| `OwnStreams.OwnStreamSurvivesExactly` | src/agent_session.rs:1103-1126 | over every history the merged view keeps the own stream if and only if no accepted bundle carried the stream's id, or the log it left there is the own one |
| `OwnStreams.NamedFirstKeepsItsStream` | src/agent_session.rs:870-872 | a session named before anything else, and not again, always keeps its stream |
| `OwnStreams.LocalBundleReplacesOwnStream` | src/agent_session.rs:1103-1109 | an unnamed session that accepts a bundle under `local` merges to that bundle alone |
| `OwnStreams.NamingAfterImportReplacesOwnStream` | src/agent_session.rs:870-872 | and so does a session that takes an id after accepting a bundle under it |
| `AgentSessions.AgentSession.Record` | src/agent_session.rs:820-829 | the op and a link that verifies are appended, nothing else changes |
| `AgentSessions.AgentSession.IngestFile` | src/agent_session.rs:1129-1135 | logs the op and resolves; a session whose replays show its live memories stays so if and only if the references of the retained files resolve to the same edges, and always when nothing was folded away |
| `AgentSessions.AgentSession.IngestBatch` | src/agent_session.rs:1151-1171 | equals the loop of single ingests, in log and in live memory; stays reproducible under the same condition for each file in turn |
| `AgentSessions.AgentSession.SignalFailure` | src/agent_session.rs:1259-1265 | logs the op and applies it to the memory; stays reproducible |
| `AgentSessions.AgentSession.RunRecall` | src/agent_session.rs:1272-1282 | logs the recall with its page-in; stays reproducible |
| `AgentSessions.AgentSession.FaultIn` | src/agent_session.rs:1349-1362 | logs one op for all faulting files and propagates each; stays reproducible |
| `AgentSessions.AgentSession.AssertEvidence` | src/agent_session.rs:1218-1244 | logs the weight actually used, custom authority first; stays reproducible if and only if no ingest is pending in the log or resolving again with the retained files leaves the edges |
| `AgentSessions.AgentSession.AdoptWeights` | src/agent_session.rs:1611-1614 | an adopted weight vector is in the log; stays reproducible under the same condition |
| `AgentSessions.AgentSession.VerifyTimeline` | src/agent_session.rs:835-844 | a session's own timeline always verifies |
| `AgentSessions.AgentSession.ReplayTo` | src/agent_session.rs:1393-1422 | the replay of the retained ops on the loaded baseline; in a reproducible session it shows what was live at that step, and at or past the end the live memory, references included when nothing was folded |
| `AgentSessions.AgentSession.Compact` | src/agent_session.rs:775-792 | length, head and validity unchanged; every replay at or above the new floor shows what it showed if and only if the snapshot keeps the replays, and exactly then a reproducible session stays one; always when no ingest is retained; lower steps collapse to the floor |
| `AgentSessions.AgentSession.Fold` | src/agent_session.rs:779-790 | the folded ops give way to a snapshot of their replay, which loads without references, and to the last folded link |
| `AgentSessions.AgentSession.ForkAt` | src/agent_session.rs:1708-1728 | the branch has a verified prefix chain and its live memory is the replay of that step; reproducible if the trunk is; the trunk is untouched |
| `AgentSessions.AgentSession.ExportBundle` | src/agent_session.rs:900-942 | refuses without an id or into folded history; otherwise the ops and links from the step on, signed under the verifying key when the workspace has a seed |
| `AgentSessions.AgentSession.AdmitBundle` | src/agent_session.rs:957-1060 | every check in the source's order, changing nothing |
| `AgentSessions.AgentSession.ImportBundle` | src/agent_session.rs:957-1066 | the import, with its safety on the session's own state |
| `AgentSessions.AgentSession.MergeAll` | src/agent_session.rs:1103-1126 | one replay of all streams in agent order |
| `EventLog.DistributedEventLog.Append` | src/distributed_event_log.rs:36-65 | appends the event and one link; the log stays intact |
| `EventLog.DistributedEventLog.VerifyIntegrity` | src/distributed_event_log.rs:71-127 | valid if and only if every link has its event, its predecessor and its hash |
| `EventLog.SharedHashAgrees` | src/distributed_event_log.rs:71-127 | two intact logs without a collision between them that share a link hash agree on position, and on id and payload up to it |
| `EventLog.PreimageInjective` | src/distributed_event_log.rs:145-151 | id, payload and previous hash are recovered from the hashed bytes |
| `EventLog.VerificationCovers` | src/distributed_event_log.rs:71-127 | without a collision between the two, replaced events still verify if and only if there are enough of them and they agree in id and payload up to the last link |
| `EventLog.DigestExists` | src/distributed_event_log.rs:145-151 | for any finite pool of inputs some digest of 64 hex digits has no collision among them |
| `EventLog.ExtraEventsUnnoticed` | src/distributed_event_log.rs:71-127 | events after the last link do not affect verification |
| `Dtw.FillTable` | src/dtw.rs:48-58 | the loops fill exactly the recurrence's table |
| `Dtw.TraceBack` | src/dtw.rs:59-76 | the walk back yields the tie-broken path |
| `Dtw.Align` | src/dtw.rs:39-86 | the minimum cost over all warping paths, a path of exactly that cost, the diagonal for identical series, the first pair over threshold |
| `Dtw.TableIsLowerBound` | src/dtw.rs:48-58 | no monotone contiguous path is cheaper than the table |
| `Dtw.TracedIsOptimal` | src/dtw.rs:59-76 | the traceback is such a path and costs what the table says |
| `Dtw.TableIsDistance` | src/dtw.rs:39-86 | the last entry is the minimum: a lower bound that is attained |
| `Dtw.IdenticalIsDiagonal` | src/dtw.rs:59-76 | identical series align on the pure diagonal at cost 0 |
| `Dtw.LcsLen` | src/dtw.rs:91-107 | some common subsequence has this length and none is longer |
| `Dtw.NoLongerMatching` | src/dtw.rs:96-107 | no matching beats the table |
| `Conformal.OrderStatistic` | src/conformal.rs:24-42 | the r-th sorted score has fewer than r scores below it and at least r at most it |
| `Conformal.FlaggedMeans` | src/conformal.rs:58-79 | a score flagged by a guard calibrated on the others is one at least the next order statistic of all |
| `Conformal.StrictAlarmBound` | src/conformal.rs:44-79 | flagging strictly above the threshold flags at most alpha of any n+1 scores |
| `Conformal.AlarmBoundExactly` | src/conformal.rs:58-79 | for the code's test the bound holds if and only if there is no tie at the rank |
| `Conformal.AlarmBoundForDistinctScores` | src/conformal.rs:58-79 | so it holds for all pairwise distinct scores and every alpha |
| `Conformal.TiesBreakTheBound` | src/conformal.rs:77-79 | four equal scores at one half are all flagged |
| `Drift.FindChangepoint` | src/drift.rs:34-63 | none if and only if fewer than two points or all equal; otherwise the first maximiser of the absolute cumulative deviation, strictly inside, with its shift |
| `Drift.FlatExactly` | src/drift.rs:34-63 | all deviations vanish if and only if all samples are equal |
| `Drift.CusumIdentity` | src/drift.rs:34-63 | shift times left length times right length is minus length times deviation, at every split |
| `Drift.ReportedShift` | src/drift.rs:56-62 | the reported delta and cusum satisfy that identity, with opposite signs |
| `Drift.StepIsRecovered` | src/drift.rs:34-63 | a pure step series gives back its break and its height |
| `CausalFlash.CausalAdjacency` | src/causal_flash.rs:160-182 | the index lists each node's dependency edges sorted by target, and its dependents sorted |
| `CausalFlash.CausalFlashWindow` | src/causal_flash.rs:196-209 | the window rooted at working nodes and, when asked, low-trust nodes, never orphans |
| `CausalFlash.CausalFlashWindowWith` | src/causal_flash.rs:218-231 | the window rooted at the given ids that are resident non-orphans |
| `CausalFlash.VisitParent` | src/causal_flash.rs:256-273 | one parent's dependencies gain mass, the new ones a depth |
| `CausalFlash.SearchLayers` | src/causal_flash.rs:251-278 | the loop, with its early stop, computes all layers to the horizon |
| `CausalFlash.CutDeps` | src/causal_flash.rs:279-294 | the cut loop collects what the last frontier leads to outside the cone |
| `CausalFlash.AssembleCone` | src/causal_flash.rs:297-316 | resident cone nodes with their role and depth |
| `CausalFlash.AssembleRing` | src/causal_flash.rs:318-348 | the caller ring, each caller once |
| `CausalFlash.Trim` | src/causal_flash.rs:369-398 | the budget and its count |
| `CausalFlash.ConeCore` | src/causal_flash.rs:235-405 | the whole computation, as the window function the theorems below are about |
| `CausalCone.LeadsExactly` | src/causal_flash.rs:129-182 | over an index of a graph the cone follows exactly the dependency edges to non-orphans |
| `CausalCone.ConeIsExact` | src/causal_flash.rs:251-278 | a node is in the cone if and only if its shortest dependency path from a seed is within the horizon, and its depth is that length; the frontier is the nodes at the horizon |
| `CausalCone.EmptyFrontierStays` | src/causal_flash.rs:274-278 | stopping at an empty frontier loses nothing |
| `CausalCone.BeyondExactly` | src/causal_flash.rs:279-294 | the cut set is exactly the nodes at distance horizon + 1 |
| `CausalCone.NothingBeyondExactly` | src/causal_flash.rs:279-295 | it is empty if and only if nothing is reachable beyond the horizon |
| `CausalCone.CompleteFlagExactly` | src/causal_flash.rs:279-295 | the flag tells the truth if and only if the horizon is positive or the seeds lead nowhere |
| `CausalCone.HorizonZeroMisreports` | src/causal_flash.rs:280-295 | a concrete graph, with its index, reported complete at horizon 0 although a dependency was cut |
| `CausalCone.DistancesHaveNoGaps` | src/causal_flash.rs:251-278 | every node at a distance has nodes at all smaller distances behind it |
| `CausalRelevance.LayerIsSimultaneous` | src/causal_flash.rs:256-273 | when no edge stays inside a layer, visiting its nodes in turn, in any order, adds to each node exactly the decayed mass of the frontier nodes that depend on it |
| `CausalRelevance.RelevanceStep` | src/causal_flash.rs:254-278 | so each layer adds to a node's relevance the inflow from the frontier before it |
| `CausalRelevance.InnerEdgeMakesOrderMatter` | src/causal_flash.rs:256-273 | two seeds with an edge between them pass on 0.75 or 0.5 depending on which is visited first |
| `CausalWindow.RingExactly` | src/causal_flash.rs:318-348 | the ring is exactly the resident non-orphan callers outside the cone, each once, at the first cone node it depends on |
| `CausalWindow.ReadExactly` | src/causal_flash.rs:297-364 | before the budget: exactly the cone's residents and the ring, distinct ids, in reading order |
| `CausalWindow.SurplusExactly` | src/causal_flash.rs:369-386 | what is dropped are callers only, as many as the cap asks for or all, each no heavier than any caller kept |
| `CausalWindow.BudgetExactly` | src/causal_flash.rs:369-398 | seeds and dependencies all stay; the length is the cap or the number that are not callers, whichever is larger |
| `CausalWindow.WindowShowsTheCone` | src/causal_flash.rs:235-405 | whatever the budget, a node is shown as seed or dependency at depth d if and only if it is resident, d is its distance and within the horizon |
| `CausalWindow.WindowShowsTheRing` | src/causal_flash.rs:318-348 | every caller shown depends on a cone node; without a cap every eligible caller is shown |
| `CausalWindow.WindowShape` | src/causal_flash.rs:350-405 | sorted, free of duplicates, of the stated length; `omitted` is the cut plus the dropped |
| `CausalLocality.WindowAgrees` | src/causal_flash.rs:8-18 | two graphs that look the same from the cone's nodes give the same window |
| `CausalLocality.WindowIsLocal` | src/causal_flash.rs:235-405 | nodes and edges added away from the cone and its ring leave the window unchanged |
| `Sorting.SortInOrder` | src/causal_flash.rs:359-365 | sorting by a total order puts the elements in that order |
| `Sorting.SortMembers` | src/causal_flash.rs:359-365 | and keeps them with their multiplicity |
| `CausalCompressors.CausalCompressor.Retrieve` | src/compressor.rs:178-180 | whatever comes back was filed under this very reference; for a text no stored text collides with, it is that text |
| `CausalCompressors.CausalCompressor.Store` | src/compressor.rs:262-266 | files an original under its content reference |
| `CausalCompressors.CausalCompressor.EnforceCcrCapacity` | src/compressor.rs:274-289 | evicts down to the capacity or to the kept entries, only the least other keys |
| `CausalCompressors.CausalCompressor.CompressItemInner` | src/compressor.rs:205-257 | routing, transform and filing of one item |
| `CausalCompressors.CausalCompressor.CompressItem` | src/compressor.rs:186-200 | the reference handed back resolves to the item for any capacity |
| `CausalCompressors.CausalCompressor.MarkDuplicates` | src/compressor.rs:324-339 | the marking loop computes a sound and complete suppression |
| `CausalCompressors.CausalCompressor.CompressWindow` | src/compressor.rs:302-377 | output, statistics and store after a window; references resolve if and only if none collide; the store is bounded |
| `CausalCompressors.CausalCompressor.EvalConfig` | src/compressor.rs:460-464 | the token count of a configuration on a sample |
| `CausalCompressors.CausalCompressor.AutoTune` | src/compressor.rs:395-455 | never worse than the original configuration or any it tried, with the same capacity |
| `Compressor.EvictionIsUnique` | src/compressor.rs:274-289 | which entries survive an eviction is determined |
| `Compressor.StoreIsBounded` | src/compressor.rs:369-375 | the store holds at most the capacity or the window's references, whichever is larger; above the capacity it holds exactly those references |
| `Compressor.ReferencesResolveExactly` | src/compressor.rs:302-377 | for any capacity every reference of a window resolves to its own original if and only if no two filed contents share a reference |
| `Compressor.DupsSuppress` | src/compressor.rs:321-339 | each duplicate names the first kept item it is close to; kept items are close to none before |
| `Compressor.SuppressionIsUnique` | src/compressor.rs:321-339 | only one suppression has that property |
| `Compressor.NothingSuppressedExactly` | src/compressor.rs:324-339 | nothing is suppressed if and only if no two items are close |
| `Compressor.ZeroThresholdSuppressesAll` | src/compressor.rs:128-129 | at threshold 0.0 every item but the first is a duplicate of the first |
| `Compressor.PlaceholdersNeverChain` | src/compressor.rs:340-361 | a placeholder names an earlier item at or above the threshold that is itself shown in full, and keeps its own reference |
| `Compressor.KeptItemsAreApart` | src/compressor.rs:324-339 | items shown in full are pairwise below the threshold |
| `Compressor.SuppressedExactly` | src/compressor.rs:321-339 | an item is suppressed if and only if it is near an earlier item that is not, and points at the first such item |
| `Compressor.LostExactly` | src/compressor.rs:340-361 | an item's text is lost if and only if it goes unfiled (too short, its route disabled, or no shorter summary) and is near an earlier item shown in full whose pointer differs from the text |
| `Compressor.NothingLostExactly` | src/compressor.rs:302-361 | no window whose references resolve ever loses a text if and only if deduplication is off or no unfiled text is near anything that can be shown |
| `Compressor.DedupCanLoseText` | src/compressor.rs:212-214 | so with deduplication, a minimum length and the empty text near itself, some window loses one |
| `Compressor.ShortDuplicateIsLost` | src/compressor.rs:212-214 | the second of two equal texts below the minimum is replaced and cannot be retrieved |
| `Compressor.TunedIsCheapest` | src/compressor.rs:444-455 | the greedy search returns the original or a tried configuration, and none of them is cheaper |
| `CandidateAudit.EveryRunKeepsInv` | src/candidate_bridge.rs:19-288 | over every call sequence: no record twice, log and sets agree, each evaluation, counterexample, evidence bundle, veto and adoption comes after what it depends on, and a promotion names earlier evidence |
| `CandidateAudit.ApplyKeepsInv` | src/candidate_bridge.rs:50-288 | each call keeps that invariant, whatever its arguments |
| `CandidateAudit.EveryRunJournals` | src/candidate_bridge.rs:19-288 | the log only grows and is as long as the six sets together |
| `CandidateAudit.RepeatAddsNothing` | src/candidate_bridge.rs:136-288 | the same call again changes nothing |
| `CandidateAudit.LaterRepeatAddsNothing` | src/candidate_bridge.rs:136-288 | once recorded, recording again at any later time succeeds and adds nothing |
| `CandidateAudit.VetoBlocksPromotion` | src/candidate_bridge.rs:98-119 | a repeated-seed promotion is returned only for a candidate without counterexamples |
| `CandidateAudit.VetoHoldsForever` | src/candidate_bridge.rs:82-133 | over every run, after a counterexample no later repeated-seed decision promotes that candidate |
| `CandidateAudit.AdoptionIgnoresCounterexamples` | src/candidate_bridge.rs:255-288 | `record_adoption` answers and records the same with any counterexamples on file |
| `PromotionVeto.PromotionBehindCounterexample` | src/candidate_bridge.rs:223-288 | for every promotion the policy decides: after its evaluations and a counterexample for the challenger, recording its evidence and its adoption one by one journals the promotion behind the counterexample; the gate vetoes the same decision |
| `PromotionVeto.SuchPromotionsExist` | crates/ccos-rsi/src/candidate_policy.rs:653-717 | such decisions exist |
| `PromotionVeto.PromotesExactly` | src/candidate_bridge.rs:50-288 | with a counterexample on file, a call appends a promotion of its candidate if and only if it records one directly, with its own guards met and a new fingerprint |
| `PromotionVeto.VetoKeptExactly` | src/candidate_bridge.rs:82-288 | over every run: no promotion follows a counterexample for its candidate if and only if no call records one directly while one is on file |
| `PromotionVeto.GatedRunsKeepVeto` | src/candidate_bridge.rs:82-134 | so when all promotions come through the repeated-seed gate the veto holds |
| `PromotionVeto.DecisionsAreFromPolicy` | crates/ccos-rsi/src/candidate_policy.rs:653-717 | every decision of the policy is anchored at an evaluation of the challenger its evidence names |
| `CandidateAudit.CounterexampleIsJournaled` | src/candidate_bridge.rs:217-221 | over every run a candidate has a counterexample on file if and only if the log holds one for it |
| `CandidateAudits.CcosCandidateAudit.RecordCandidate` | src/candidate_bridge.rs:136-153 | the new state is the transition's; a refusal changes nothing |
| `CandidateAudits.CcosCandidateAudit.RecordEvaluation` | src/candidate_bridge.rs:155-178 | the same |
| `CandidateAudits.CcosCandidateAudit.RecordCounterexample` | src/candidate_bridge.rs:183-215 | the same, indexed by candidate id |
| `CandidateAudits.CcosCandidateAudit.HasCounterexample` | src/candidate_bridge.rs:217-221 | tells from the index whether the log holds a counterexample entry for the id |
| `CandidateAudits.CcosCandidateAudit.RecordPromotionEvidence` | src/candidate_bridge.rs:223-253 | refused if and only if some row names an evaluation not on record |
| `CandidateAudits.CcosCandidateAudit.RecordAdoption` | src/candidate_bridge.rs:255-288 | a promotion needs recorded evidence named in its reason |
| `CandidateAudits.CcosCandidateAudit.Evaluate` | src/candidate_bridge.rs:50-59 | a failing evaluator leaves the candidate recorded and no evaluation |
| `CandidateAudits.CcosCandidateAudit.DecideChampionChallenger` | src/candidate_bridge.rs:64-79 | refused unless the challenger's evaluation is on record |
| `CandidateAudits.CcosCandidateAudit.DecideRepeatedSeed` | src/candidate_bridge.rs:88-134 | evidence, then the veto by the least counterexample, then the adoption at its anchor |
| `ClaimCode.CodeFromEntropy` | src/claim.rs:72-96 | the 20 symbols are the base-32 digits of the first 100 bits, laid out in groups behind the brand |
| `ClaimCode.DrainSymbols` | src/claim.rs:80-83 | the inner loop emits the next digits and leaves fewer than five bits |
| `ClaimCode.TruncationKeepsDigit` | src/claim.rs:75-83 | what the 32-bit accumulator drops never reaches a symbol |
| `ClaimCode.DigitFromPrefix` | src/claim.rs:75-83 | the digit read after n bytes is the digit of all the entropy |
| `ClaimCode.CodesCoincideExactly` | src/claim.rs:72-96 | two codes are equal if and only if the first 100 bits are |
| `ClaimCode.CanonicalCode` | src/claim.rs:102-132 | the parser, with its refusals and its panic |
| `ClaimCode.AsciiAcceptedExactly` | src/claim.rs:102-132 | ASCII input is accepted if and only if its folded symbols are in the alphabet and 20 remain after the brand; the result is well formed and never a panic |
| `ClaimCode.VariantsParseBack` | src/claim.rs:102-132 | any case, separator or O, I, L spelling of a branded code parses to that code |
| `ClaimCode.EntropyRoundTrip` | src/claim.rs:72-132 | so every such spelling of a generated code parses back to it |
| `ClaimCode.CanonicalIsFixed` | src/claim.rs:102-132 | a canonical code is its own canonical form |
| `ClaimCode.CanonicalIsIdempotent` | src/claim.rs:102-132 | parsing twice is parsing once, on ASCII input |
| `ClaimCode.BareBodyExactly` | src/claim.rs:120-124 | an unbranded body parses if and only if it does not start with CC0S |
| `ClaimCode.AcceptedIsWellFormedExactly` | src/claim.rs:104-131 | an input that is not refused gives well-formed text, and no panic, if and only if its symbols are ASCII |
| `ClaimCode.NonAsciiSlipsThrough` | src/claim.rs:107-117 | a concrete non-ASCII input that is accepted as ill-formed text |
| `ClaimCode.NonAsciiCanPanic` | src/claim.rs:120-131 | a concrete non-ASCII input on which slicing the body panics |
| `ClaimCode.LayoutIsInjective` | src/claim.rs:88-96 | different bodies are laid out differently |

## Left out

- I/O errors, temporary files and partial writes: a segment write is atomic and deletions succeed; a skipped deletion is covered only by `CompactionCrash`.
- Lengths past `u64`, `usize` and `u32`: writes whose buffer would exceed the allocator's limit end in `CapacityOverflow`, standing for the panic; sizes are otherwise unbounded integers.
- StoreRuns.Run: asks that keys and values fit the format's 32-bit lengths and that the store never holds more records than its 32-bit sparse count can index; beyond that the source truncates the counts silently.
- Segments with a bad tag byte: `get` treats such a record as deleted while `live_entries` skips it; the store's theorems are about segments it wrote.
- `resident_bytes`, `resident_index_len`, `segment_count`: counters for observability.
- SHA-256 and ed25519: arbitrary hash, signature and check functions. Where collisions matter a result asks for none among the inputs it compares, and `SyncVerdicts.HonestExportExactly` for links that differ from each other and from the genesis marker. The exact preimage text of `op_link_hash` is not modelled.
- Resolution beyond what `NameResolution` needs: imports, aliases, qualified paths and methods; a module is a file there.
- JSON snapshots are taken to round-trip what they hold, so the `if let Ok` around compaction always succeeds; `open`, `checkpoint`, self-healing and sidecars are not part of this model. Reopening a session drops the references of its live memory as loading a baseline does.
- The resident cap of the graph (5000 nodes by default): above it, adding a node can demote others with their resolved edges. The replay and compaction results are about memories below the cap, where ingests and edits leave the edges of other nodes alone.
- Licensing, embeddings and compressed recall inside `AgentSession`; the key file, so whether a session has a signing key is a constant of it.
- Retrieval reward and weight search: an adopted weight vector is an argument of `AdoptWeights`.
- `memory.rs` beyond base, derived part and resolution; the cached adjacency of the graph is an argument of the window functions.
- `f64` rounding, NaN and signed zero: samples, scores, weights and similarities are reals.
- The exact relevance on cones with edges inside a layer: it follows the code's order of visits (`CausalRelevance.InnerEdgeMakesOrderMatter`), and no independent meaning is claimed for it.
- The text transforms, routing, shingles and MinHash of the compressor are arbitrary functions. `Clone` and `Default` are not modelled.
- The receipt validators, sealed evaluators and policies of the `rsi` crate are arbitrary predicates and arguments; recording calls return nothing where the source returns the log's chain head, and the log is a list of entries rather than the hash-chained event log, whose chain is the subject of `EventLog` and `HashChain`.
- Hashing of codes, machine fingerprints and the claim request of `claim.rs`: plain expressions.
- `src/egress.rs`, `src/consensus.rs`, `src/context_policy.rs`, `src/context_region.rs`, `src/agents.rs`, `src/persist.rs`: no engine comparable to the above.
