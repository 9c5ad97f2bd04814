# downpipe: a verified model

downpipe reads an encrypted backup format offline: it recombines the recovery key from custodian
shares, verifies a run's signed manifests, restores records, prunes old runs, checks signed reports
and turns database records into SQL. This project models the parts whose correctness rests on loops,
state and arithmetic, and proves what the code promises about them. Hashes, the AEAD, signatures and
the opening of one shard are parameters, so every theorem is about all of them.

The modules follow the program's own components.

| component | files | main results |
|---|---|---|
| Verified shard walk | `Merkle`, `ShardWalk`, `ByteBudget`, `OpenRun`, `Recipients` | The carry frontier, the level loop and the tree hash of RFC 6962 agree. Every interleaving of launcher, fetchers and consumer ends, and ends as the sequential walk does. Streaming open and load-all open accept the same archives with the same outcome, and refuse with one code exactly when the faults they meet first have one. |
| Key recovery | `Gf256`, `Interpolation`, `Shamir`, `Secrecy` | The tables are a field, interpolation at zero holds over it, any qualifying subset of one split recovers the key, and fewer shares than the threshold fit every key. |
| STREAM payload | `Stream`, `Segment` | Four implementations of one format agree; a segment opens on exactly one framing; what a restore returns is exactly what the store holds sealed for the record; buffered and streaming restore yield the same bytes; without forgeries only the sealing itself opens. |
| Prune | `PrunePartition`, `PrunePlan`, `PruneApply`, `PruneSafety` | At every prefix of every pass, for every pattern of accepted, refused and failed deletes, nothing a kept run needs is gone and no segment is stranded, over any number of passes; and when exactly a run tree goes. |
| RUNLOG | `Runlog`, `Freshness`, `RunlogWriter` | The chain check decides an order-free specification, a log a writer leaves passes it exactly when each downpipe's runs were finalised in index order, and exactly one run per downpipe is the latest. |
| Reports | `ReportText`, `ReportGrammar`, `ReportParser`, `ReportWriter`, `ReportRoundTrip` | A file is read as a report exactly when a grammar that shares nothing with the parser spells it; the parser and the canonical writer undo each other; canonical text is the shortest spelling and decides meaning. |
| D1 to SQL | `D1Lexer`, `D1Scan`, `D1Literals`, `D1Inserts`, `D1Transcode` | Under an independent lexer the output is exactly the intended statements, and every cell reads back. |
| Shared | `Common`, `Sorting` | Optional values, lexicographic order, insertion standing in for the library's sorts. |

How the parts are modelled:

- Objects that the program updates in place are classes with the same fields: the accumulator, the
  field tables, the streaming writer, the destination of a prune and the report parser. Loops are
  loops with invariants, proved against a function or a declarative condition. A Go error becomes a
  refusal that carries the exit code.
- The concurrent walk is a machine of interleaved steps. Each critical section is one step, except
  the launcher's wait, where testing the budget and parking are two with the mutex held between
  them. Opening a shard has one outcome until the walk's own context is cancelled; after that it may
  return anything.
- The destination of a prune answers every delete from an arbitrary fixed oracle. It keeps a ghost
  list of all its states, so a claim about every state is a claim about a crash after any step. A
  failed delete may have removed the object; a refused one has not.

Where the code and its own words differ, the model follows the code:

- `internal/format/stream.go:43-49` calls streaming the only difference from the load-all open. The
  two accept the same archives, but they check in a different order, so an archive with two faults
  can be refused under different exit codes (`RefusalsCanDiffer`). `SameRefusal` is the exact
  condition, and an archive with one fault always meets it (`OneFaultOneCode`).
- `internal/format/verify.go:157-159` says that a wrap cannot be added, dropped or retargeted
  relative to the signed recipients. A second wrap for a listed recipient passes
  (`SecondWrapPasses`); `WrapEdits` is the exact condition for each of the three edits.
- `internal/format/freshness.go:289-303` says that concurrent runs legitimately finalise out of the
  order their indices were taken in. For runs of different downpipes the chain rules do not mind.
  With a writer that chains each run to the last one finalised, two overlapping runs of one downpipe
  that finish in the other order leave a log that is refused (`OverlapIsRefused`);
  `LogChainedExactly` is the exact condition.
- `cmd/downpipe/prune.go:187-189` tells the user that running prune again retries the deletes that
  failed. It does so for segments and for a tree whose run still opens. When a pass deletes part of
  a tree, fails on the rest and leaves a run that no longer opens, the rest is never planned again
  (`FailedDeleteIsNotRetried`); `FinishedPassRemovesTree` is the exact condition.
- `internal/restore/d1transcode.go:354-377` says that an accepted entry is exactly one statement.
  White space is what Go trims, which includes spaces that are not ASCII and that SQL does not skip;
  `EntryIsOneStatement` is the exact condition, and `TranscodeFull` has it for a whole body.
- `OpenStream` also accepts a full last chunk followed by an empty one, which no sealer emits;
  `OpenBodyExact` says exactly what it accepts, and the segment layer closes the gap
  (`SegmentOpenExact`).

## Model

| member | source | states |
|---|---|---|
| `Merkle.MerkleRoot` | internal/format/merkle.go:11-32 | The level-by-level loop returns the recursive tree hash of section 2.1 of RFC 6962, for every list of record hashes, the empty one included. |
| `Merkle.NextLevel` | internal/format/merkle.go:20-30 | One pass pairs neighbours and promotes an odd last node. |
| `Merkle.PairUpKeepsTree` | internal/format/merkle.go:19-31 | Pairing a level up never changes its tree hash: why working level by level and splitting at the largest power of two below the size give one root. |
| `Merkle.MerkleAccumulator.Push` | internal/format/merkle.go:66-79 | Pushing extends the ghost leaf sequence by one and keeps the frontier valid: strictly decreasing heights, each entry the tree hash of its own stretch of leaves. |
| `Merkle.MerkleAccumulator.Root` | internal/format/merkle.go:90-102 | The folded frontier is the tree hash of everything pushed, and nothing is changed by asking; the one exception is the counter's wrap after a multiple of 2^64 leaves, when the empty root comes back. |
| `Merkle.FoldFrontier` | internal/format/merkle.go:94-101 | Folding a covering frontier from its newest entry to its oldest gives the tree hash of all leaves. |
| `Merkle.CarryStep` | internal/format/merkle.go:70-76 | Merging two equal heights keeps the pending node the tree hash of the leaves behind it. |
| `Merkle.FrontierIsBinaryCount` | internal/format/merkle.go:51-65 | The frontier's heights sum, as powers of two, to the number of leaves. |
| `Merkle.FrontierIsUnique` | internal/format/merkle.go:51-65 | Strictly decreasing heights are determined by the leaf count: the frontier is the binary count of the leaves. |
| `Merkle.SameRootShowsCollision` | internal/format/merkle.go:104-117 | For any hash of fixed length, two different record lists with one root yield a collision of the hash itself: leaves and inner nodes are hashed apart. |
| `ShardWalk.WalkSequential` | internal/format/stream.go:224-238 | The two nested loops hand over records and stop at the first failing shard or refused record, as the recursive walk does. |
| `ShardWalk.StepKeepsInv` | internal/format/stream.go:274-400 | Every step of launcher, fetchers and consumer keeps the whole pipeline invariant: counts, futures, byte charges and the consumer's place in the sequential walk. |
| `ShardWalk.EveryMoment` | internal/format/stream.go:249-271 | In every state of every interleaving: launched and unconsumed shards stay within the window and within the asked-for concurrency, sending a future never finds its channel full, bufferedBytes is exactly the size of what was added and not released, and until the walk has returned some step can be taken. |
| `ByteBudget.BudgetHolds` | internal/format/stream.go:262-268 | With a budget, a shard is started only after a test that found fewer bytes buffered; from there to the next such test the bytes buffered exceed the budget by no more than the shards under way at the test, at most a window of them, and the one started since. |
| `ShardWalk.NotStuck` | internal/format/stream.go:293-399 | A state that satisfies the invariant and has not returned has an enabled step, wherever the launcher is parked and whether or not the consumer is tearing down. |
| `ShardWalk.RunsEndInReturn` | internal/format/stream.go:293-399 | Every run is bounded by a measure known at the start, and every run that has not returned can go on: no deadlock, no endless run, and the join always ends. |
| `ShardWalk.ConcurrentWalkRefinesSequential` | internal/format/stream.go:241-273 | Whatever the interleaving, a run that returns has handed over the sequential walk's records in the sequential order and ends with the sequential walk's error or none. |
| `ShardWalk.HandedIsPrefix` | internal/format/stream.go:369-395 | At every moment the records handed over are a prefix of the sequential walk's. |
| `ShardWalk.BufferedBytesExact` | internal/format/stream.go:262-268 | The running byte count equals the sizes of the shards whose bytes were added and not yet released. |
| `ShardWalk.WalkReturnsExactly` | internal/format/stream.go:219-239 | With any FetchConcurrency the walk can return the sequential outcome, and nothing else. |
| `OpenRun.CheckRecordStructural` | internal/format/verify.go:283-299 | Passes exactly the records the run-wide rules allow; every refusal is a usage error. |
| `OpenRun.VerifyRootSignatureGate` | internal/format/reader.go:401-442 | Refuses exactly an unacknowledged bad signature; records valid exactly for a file that verifies, wrong-signer for a well-formed one that does not, absent for an unreadable one, invalid for one that is undecodable or too short. |
| `OpenRun.VerifyRecoveryBundleGate` | internal/format/reader.go:449-466 | Runs only when asked for; a failure is recorded even when it is waived. |
| `OpenRun.UpFrontGates` | internal/format/reader.go:271-329 | The gates before the records refuse in their fixed order and leave the outcome they promise. |
| `OpenRun.ClosingGates` | internal/format/reader.go:341-355 | Freshness then bundle: refuses exactly what is not acknowledged and never marks a waived failure complete. |
| `OpenRun.CheckRunFreshness` | internal/format/verify.go:18-34 | The gate passes exactly the newest run of a trusted, fetched RUNLOG, marks exactly the untrusted ones, and keeps the store's own code for one that was not fetched. |
| `OpenRun.StaleWaivesAgeAlone` | internal/format/reader.go:213-234 | With freshness taken from the RUNLOG, allow-stale opens an old run of a trusted log and nothing else; a log that is absent, unsigned, self-contradictory or at odds with the signed root needs one of the other two options. |
| `OpenRun.OpenShards` | internal/format/verify.go:301-319 | Loads the records of all shards in order when every shard opens and every record is well formed, and otherwise fails with the first shard's error or a usage error. |
| `OpenRun.CheckCompleteness` | internal/format/verify.go:321-351 | Shard count, record count, every record hash and the Merkle root, with the code of the first that fails. |
| `OpenRun.Open` | internal/format/reader.go:271-358 | Accepts exactly the archives that satisfy the declared acceptance condition, with an outcome that hides no waived failure and the exact label of the root signature. |
| `OpenRun.AcceptsInFull` | internal/format/reader.go:271-358 | The acceptance condition in the archive's own fields: every gate, every record of every shard, the counts, the root, and each waiver. |
| `OpenRun.HonestInFull` | internal/format/reader.go:330-357 | What the receipt of an accepted run says, in the archive's own fields. |
| `OpenRun.WalkGood` | internal/format/stream.go:141-165 | The streaming walk ends without error exactly when every shard opens and every record passes, and then it has handed over every record in order. |
| `OpenRun.FoldRecords` | internal/format/stream.go:145-165 | Folding the handed records one by one leaves the accumulator holding exactly their hashes, and the count of them. |
| `OpenRun.VerifyRecordsAndRoot` | internal/format/stream.go:141-180 | Over any outcome the walk may return, refuses as the streaming order of checks dictates and counts every record. |
| `OpenRun.StreamOpen` | internal/format/stream.go:59-128 | Accepts exactly the archives the declared acceptance condition accepts, whichever walk fetched the shards, with the exact label of the root signature. |
| `OpenRun.OpenBothWays` | internal/format/stream.go:43-49 | Load-all and streaming open of one archive under one set of options: if either accepts, both do, with the same outcome, freshness result and record count; if they refuse, then with one code whenever `SameFirstFault` holds. |
| `OpenRun.LoadRefusesIncomplete` | internal/format/verify.go:301-351 | The load-all record checks refuse nothing exactly when the archive is complete. |
| `OpenRun.StreamRefusesIncomplete` | internal/format/stream.go:141-180 | The streaming record checks refuse nothing exactly when the archive is complete. |
| `OpenRun.HonestIsExact` | internal/format/reader.go:236-260 | What an accepted run's outcome must record leaves no freedom: two honest outcomes are equal. |
| `OpenRun.WalkFault` | internal/format/stream.go:219-239 | The walk ends in the first failed shard, malformed record or bad hash in shard-list order, under that fault's code, and without an error exactly when there is none. |
| `OpenRun.SameRefusal` | internal/format/stream.go:43-49 | The two readers refuse an archive's records with one and the same code if and only if the fault that loading meets first and the fault that streaming meets first carry one code. |
| `OpenRun.OneFaultOneCode` | internal/format/stream.go:43-49 | An archive with a single fault, a failed shard, a malformed record, a bad hash, a wrong shard count or a wrong record count, is refused by both readers with that fault's code. |
| `OpenRun.RefusalsCanDiffer` | internal/format/stream.go:43-49 | A missing shard under a wrong shard count: load-all answers incomplete, streaming answers unverified, so the records being streamed is not the only difference. |
| `OpenRun.EachRecordAddsNothing` | internal/format/stream.go:188-206 | Over an archive whose records passed, the apply pass hands the caller the verified records in order, as far as the caller lets it. |
| `Recipients.ValidateRecipients` | internal/format/verify.go:120-151 | Accepts exactly lists of genuine fingerprints with one break-glass recipient, and returns their keys and fingerprints. |
| `Recipients.VerifyWrapCoverage` | internal/format/verify.go:156-179 | Comparing sizes after a membership check amounts to comparing the two fingerprint sets. |
| `Recipients.CheckRecipientSet` | internal/format/verify.go:106-115 | The whole gate holds exactly when the recipients, the wraps and the signed hash agree. |
| `Recipients.WrapsChangeDetected` | internal/format/verify.go:157-171 | A changed wrap list is refused exactly when it addresses a different set of fingerprints. |
| `Recipients.WrapEdits` | internal/format/verify.go:157-171 | Adding a wrap passes if and only if it is for a listed recipient, dropping one if and only if its recipient has another, and retargeting one if and only if it stays the same or moves to a listed recipient from one that has another. |
| `Recipients.SecondWrapPasses` | internal/format/verify.go:157-159 | A root with one recipient is accepted with that recipient's wrap once and twice, though the comment says that none can be added. |
| `Shamir.GfXtimeIsXtime` | internal/custody/shamir.go:55-61 | The integer shift and reduction is multiplication by x modulo 0x11b. |
| `Shamir.GfTables.constructor` | internal/custody/shamir.go:42-53 | The table loop fills exp with the powers of the generator and log with their indices. |
| `Shamir.GfTables.ExpIsPower` | internal/custody/shamir.go:42-53 | Every one of the 512 exp entries is that power of the generator. |
| `Shamir.GfTables.LogIsLog` | internal/custody/shamir.go:42-53 | Every nonzero byte's log entry is its discrete logarithm. |
| `Shamir.GfTables.GfMul` | internal/custody/shamir.go:63-68 | Table multiplication is polynomial multiplication modulo 0x11b (section 4.2 of FIPS 197). |
| `Shamir.GfTables.GfInv` | internal/custody/shamir.go:70-74 | Table inversion is the multiplicative inverse. |
| `Gf256.PowersDistinct` | internal/custody/shamir.go:42-53 | The 255 powers of the generator are distinct. |
| `Gf256.LogExists` | internal/custody/shamir.go:42-53 | Every nonzero byte is a power of the generator. |
| `Gf256.LogIsInverse` | internal/custody/shamir.go:42-53 | Logarithm and power undo each other. |
| `Gf256.MulCommutes` | internal/custody/shamir.go:63-68 | The field's multiplication is commutative. |
| `Gf256.MulAssociates` | internal/custody/shamir.go:63-68 | The field's multiplication is associative. |
| `Gf256.MulDistributes` | internal/custody/shamir.go:63-68 | Multiplication distributes over XOR. |
| `Interpolation.WeightsSumToOne` | internal/custody/shamir.go:96-113 | The Lagrange weights at zero of any distinct points sum to one. |
| `Interpolation.InterpolateAtZero` | internal/custody/shamir.go:96-124 | Any m distinct points give back the constant term of any polynomial with at most m coefficients. |
| `Shamir.LagrangeWeight` | internal/custody/shamir.go:101-113 | The loop over the other indices computes the Lagrange weight at zero. |
| `Shamir.CombineByte` | internal/custody/shamir.go:115-122 | One byte of the secret is the weighted sum of the shares' bytes. |
| `Shamir.Combine` | internal/custody/shamir.go:82-125 | Succeeds exactly on two or more well-formed shares with distinct nonzero indices, with every byte interpolated, and otherwise names the first fault. |
| `Shamir.QualifyingSharesRecover` | internal/custody/shamir.go:76-82 | Any qualifying subset of one split, in any order, recovers the same secret. |
| `Secrecy.FitAnySecret` | internal/custody/shamir.go:76-82 | Through fewer distinct nonzero points than coefficients there is a polynomial with any constant term. |
| `Secrecy.TooFewSharesFitAnySecret` | internal/custody/shamir.go:76-82 | Fewer shares than the threshold are shares of some split of that threshold for every secret, so they rule none out. |
| `Shamir.MergeShares` | internal/custody/recombine.go:82-105 | Keeps one of each share and refuses exactly two bodies under one index. |
| `Shamir.AssembleShares` | internal/custody/recombine.go:63-112 | Labelled files must agree, the merged set must not conflict, and it must reach the labelled files' own threshold, or the hint where none is labelled. |
| `Shamir.TwoOfThree` | internal/custody/recombine.go:63-112 | Two different labelled shares of a 3-of-5 set are refused as two of three, whatever the hint. |
| `Shamir.CombineShares` | internal/custody/recombine.go:38-43 | From shares of one split the key is recovered exactly when enough different ones are supplied, and it is the split's secret. |
| `Shamir.Recombine` | internal/custody/recombine.go:26-58 | Nothing is returned that the authenticated decrypt did not open; shares and a wrapping key together are refused; enough shares of one split open what its secret opens, unless the public checksum says otherwise. |
| `Stream.NoncesDistinct` | internal/crypto/stream.go:295-302 | Chunk nonces of one stream are pairwise distinct over index and last flag. |
| `Stream.NonceSpellsIndex` | internal/crypto/stream.go:295-302 | A chunk nonce is its index as an 11-byte big-endian number and then the last-chunk flag. |
| `Stream.SealStream` | internal/crypto/stream.go:38-70 | The whole-value seal is the chunk-by-chunk sealing with exactly the last chunk flagged, within the counter's range. |
| `Stream.StreamWriter.Write` | internal/crypto/stream.go:153-172 | Takes in every byte, holds back a full buffer until more follows, and refuses only when closed or out of counter. |
| `Stream.StreamWriter.FlushFull` | internal/crypto/stream.go:174-193 | Emits the buffer as the next unflagged chunk and advances the counter, which refuses to wrap. |
| `Stream.StreamWriter.Close` | internal/crypto/stream.go:195-201 | The final flagged chunk makes the output the whole-value sealing of everything written; closing again adds nothing. |
| `Stream.SealInPieces` | internal/crypto/stream.go:133-201 | However a value is split across writes, the closed writer's output is SealStream's payload. |
| `Stream.OpenStream` | internal/crypto/stream.go:76-108 | The opening loop computes the recursive reading of the payload. |
| `Stream.OpenBodyExact` | internal/crypto/stream.go:76-108 | OpenStream yields p on exactly two framings: SealStream's, and for whole chunks also the one padded with an empty last chunk. |
| `Stream.OpenStreamTo` | internal/crypto/stream.go:209-264 | The two-buffer look-ahead loop: whether it succeeds, and exactly what it has written either way. |
| `Stream.AheadIsOpen` | internal/crypto/stream.go:209-264 | The look-ahead opener succeeds on exactly the payloads OpenStream opens within the chunk bound, with the same plaintext. |
| `Stream.OnlyTheSealingOpens` | internal/crypto/stream.go:76-108 | Without forgeries, whatever opens from chunk i on is the sealing's own tail: no truncation, reordering, duplication, omission or splice opens. |
| `Stream.TamperedPayloadRejected` | internal/crypto/stream.go:76-108 | Under a file key that has sealed any number of payloads with distinct payload nonces, only those payloads open: no chunk can be moved within one or from one to another. |
| `Stream.WrittenIsAlignedPrefix` | internal/crypto/stream.go:203-264 | Whatever the look-ahead opener has written, even of a stream it rejects, is a chunk-aligned prefix of the sealed plaintext. |
| `Segment.UnframeContainer` | internal/spec/container.go:58-69 | Undoes exactly the container framing. |
| `Segment.OpenSegment` | internal/format/restore.go:380-409 | The buffered segment open yields the segment's plaintext or nothing. |
| `Segment.OpenSegmentTo` | internal/format/restore.go:257-310 | The streaming segment open accepts the same segments and leaves exactly what the look-ahead opener wrote. |
| `Segment.SegmentOpenExact` | internal/format/restore.go:380-440 | A segment opens to p exactly when the range is well formed, p occupies exactly the declared chunks, and the object is the framed SealStream payload of p: the padded framing is refused. |
| `Segment.FetchSegmentTo` | internal/format/restore.go:177-207 | One segment of a streaming restore: the same verdict as the buffered one, and what the destination gains either way. |
| `Segment.RestoreRecordTo` | internal/format/restore.go:168-213 | Returns b exactly when no gzip and no packing is in play and the store holds sealed consecutive pieces of b, which has the record's hash; and the destination's exact content whatever the verdict. |
| `Segment.RestoreRecord` | internal/format/restore.go:62-121 | For every record, returns b exactly when the store holds sealed pieces that fit the ceiling and whose whole, or the packed slice of it, decodes under the codec to b, which has the record's hash. |
| `Segment.BufferedExact` | internal/format/restore.go:62-121 | The same for the function the loop computes, packed and gzip records included. |
| `Segment.RefusalExact` | internal/format/restore.go:86-119 | Which code a reassembled value is refused with: a slice out of range, packing in a chain or a body that does not inflate, another hash. |
| `Segment.ChainRefusalExact` | internal/format/restore.go:66-83 | A chain is refused at its first segment that does not open or takes the value over the ceiling, with a code of its own for a name that holds no id. |
| `Segment.ChainExact` | internal/format/restore.go:62-90 | A chain reassembles to b exactly when its objects are the framed sealings of consecutive pieces of b. |
| `Segment.ReassembledIsChain` | internal/format/restore.go:79-89 | The aggregate ceiling only ever turns a chain that is too long into a refusal. |
| `Segment.BufferedIsStreamed` | internal/format/restore.go:123-213 | For every streamable record the two restores yield the same value, the buffered one exactly while the value stays within its ceiling. |
| `PrunePartition.Partition` | internal/prune/apply.go:26-56 | For any log, repeated indices included: keeps only active runs and at most N of a downpipe, drops an active run only when N of its downpipe that are no older are kept, loses and repeats nothing, lists both sides in order, and refuses N below one. |
| `PrunePartition.SplitIsExact` | internal/prune/apply.go:14-25 | Where no index is repeated, the kept runs are exactly the active ones with fewer than N newer active runs of their downpipe. |
| `PrunePartition.DroppedIsOutlived` | internal/prune/apply.go:14-25 | Every dropped active run has at least N kept runs of its own downpipe with larger indices. |
| `PrunePartition.SplitsAll` | internal/prune/apply.go:26-56 | The two lists together are the run ids of the log, nothing lost or repeated. |
| `PrunePartition.PartitionIsWellNamed` | internal/prune/apply.go:26-56 | With distinct slash-free run ids the partition meets what pruning needs. |
| `PrunePartition.PruneByPolicy` | cmd/downpipe/prune.go:27-130 | The whole command: at every moment of every pass, whatever the destination answers, each run the policy keeps still opens the same and still has every segment it had. |
| `PrunePlan.Enumerate` | cmd/downpipe/prune.go:302-338 | One reference set per run; a run that does not open is incomplete, never empty and complete. |
| `PrunePlan.Compute` | internal/prune/plan.go:94-156 | Abstains exactly when a retained run is unreadable, naming the first; otherwise plans exactly the segments named by readable superseded runs and by no retained one, with each run's own share. |
| `PrunePlan.PlanIgnoresOrder` | internal/prune/plan.go:94-99 | The plan depends on which runs there are, not on the order they are listed in. |
| `PrunePlan.TreesDisjoint` | internal/prune/apply.go:222-224 | No key lies under the tree prefixes of two slash-free run ids. |
| `PruneApply.ClassifyDelete` | internal/prune/apply.go:105-118 | A refusal is a 4xx answer other than 408 and 429, or a permission denial without a status, and only a refusal can name a lock. |
| `PruneApply.ReportedAsAnswered` | internal/prune/apply.go:144-163 | A key is reported refused exactly when a delete of it was answered with such a refusal, and failed exactly when one was answered with any other error. |
| `PruneApply.LocksAsAnswered` | internal/prune/apply.go:144-163 | The locks counted are exactly the refused deletes whose answer names one. |
| `PruneApply.DeleteSegments` | internal/prune/apply.go:168-176 | Every state of the segment phase obeys the plan with all trees untouched, and every planned segment is deleted, refused or failed. |
| `PruneApply.DeleteTrees` | internal/prune/apply.go:178-215 | Every state of the tree phase obeys the plan; each listed object is deleted, refused, failed or held. |
| `PruneApply.Apply` | internal/prune/apply.go:128-217 | For any answers and at any cut: only planned objects go, and a run's tree is touched only once its orphan segments are gone. Each orphan segment is asked for once, in order; what is reported refused, failed, lock-named and deleted is exactly what was answered. Planned = deleted + refused + failed + held, a dry run plans the same totals, and a pass that is not Incomplete leaves nothing. |
| `PruneSafety.RetainedSurvives` | internal/prune/plan.go:15-22 | At every prefix of a pass a retained run keeps its tree, opens to the same records, and keeps every segment it names. |
| `PruneSafety.NamedRunsStay` | internal/prune/apply.go:120-127 | A planned segment still present is named only by superseded runs whose whole trees are still present. |
| `PruneSafety.ReplanCoversLeftovers` | internal/prune/apply.go:120-127 | Computing again from what an interrupted pass left does not abstain and plans every orphan still in the store. |
| `PruneSafety.NeverStranded` | internal/prune/apply.go:120-127 | Over any number of interrupted passes nothing live is lost and no segment is stranded. |
| `PruneSafety.FinishedPassRemovesAll` | internal/prune/apply.go:93-99 | One complete pass after any number of interrupted ones has removed every segment the first one planned; `FinishedPassRemovesTree` is about the trees. |
| `PruneSafety.FinishedPassRemovesTree` | internal/prune/apply.go:93-99 | When the last of any number of passes leaves nothing it planned, a superseded run's tree is gone if and only if no pass found it nonempty and no longer opening. |
| `PruneSafety.RemnantStays` | internal/prune/plan.go:117-125 | A nonempty tree whose run does not open stays as it is through all later passes. |
| `PruneSafety.FailedDeleteIsNotRetried` | cmd/downpipe/prune.go:187-189 | A first pass that deletes one of a tree's two objects and fails on the other, and a second pass that deletes all it plans: the other object is still there. |
| `PruneSafety.Prune` | cmd/downpipe/prune.go:72-130 | Abstains exactly when a kept run is unreadable and then deletes nothing; otherwise every state it goes through is safe. |
| `Runlog.DetectChainAnomaly` | internal/format/freshness.go:296-346 | Accepts a log exactly when its indices are distinct, each downpipe's entries chain in index order, and prevRunIds resolve and do not fork; a refusal names the first rule broken. |
| `Runlog.RulesIgnoreOrder` | internal/format/freshness.go:297-307 | Each rule, and so the verdict, is the same for every permutation of the lines. |
| `Runlog.CheckLinear` | internal/format/freshness.go:316-325 | Following each downpipe's tail in index order decides linearity. |
| `Runlog.CheckPrevs` | internal/format/freshness.go:327-344 | The two passes over prevRunId decide resolution and forking. |
| `Runlog.RemovalDetected` | internal/format/freshness.go:316-345 | Removing an entry of a well-formed log is detected exactly when another entry names it as predecessor. |
| `RunlogWriter.LogChainedExactly` | internal/format/freshness.go:289-303 | The log of a writer with any number of runs in flight, with gaps, out-of-order appends, superseded entries and rewritten line order, repeats no run id and is accepted if and only if each downpipe's runs were finalised in index order. |
| `RunlogWriter.OneAtATimeIsChained` | internal/format/freshness.go:289-303 | A writer that has one run of a downpipe in flight at a time leaves accepted logs only. |
| `RunlogWriter.OverlapIsRefused` | internal/format/freshness.go:316-325 | Two overlapping runs of one downpipe that finalise in the other order leave a log that is refused. |
| `RunlogWriter.OnlyNewestGoesUnnoticed` | docs/RECOVER.md:492-497 | Of a well-formed log a writer has left, exactly the newest entry of each downpipe can be removed unnoticed, which is what the out-of-band pin is for. |
| `RunlogWriter.StatusCarriesNoWeight` | internal/format/freshness.go:289-346 | Two logs that differ in the entries' status only are accepted or refused alike. |
| `Freshness.LookupRunEntry` | internal/format/freshness.go:248-280 | Finds the last entry of the run and both maxima, and binds the entry to the signed root. |
| `Freshness.CheckFreshness` | internal/format/freshness.go:176-238 | Passes exactly the fresh runs of a signed parseable log, and marks as untrusted exactly the logs that are unsigned, unparseable, contradict themselves or contradict the signed root. |
| `Freshness.ExactlyOneCanPass` | internal/format/freshness.go:217-237 | Of each downpipe with an entry exactly one run can pass the latest-run check. |
| `ReportParser.Parser.ParseAny` | internal/format/report.go:247-273 | The cursor-moving parser reads what the recursive reading of the rest of the text says, with the same code on refusal. |
| `ReportParser.Parser.Object` | internal/format/report.go:283-328 | Objects: member by member, repeated names refused. |
| `ReportParser.Parser.Array` | internal/format/report.go:330-358 | Arrays, element by element. |
| `ReportParser.Parser.Number` | internal/format/report.go:365-405 | Numbers: only plain integers within 2^53 - 1, and no -0. |
| `ReportParser.Parser.Str` | internal/format/report.go:418-444 | Strings, rune by rune. |
| `ReportParser.Parser.Escape` | internal/format/report.go:447-495 | Escapes, joining surrogate pairs and refusing lone surrogates. |
| `ReportParser.ParseReportObject` | internal/format/report.go:189-223 | A file is read as v exactly when, behind one byte-order mark at most, it spells v, and v is an object that a report can hold with a kind or a signature: any white space, every escape in either case of hex, surrogate pairs, members in any order. |
| `ReportGrammar.ReadsExactly` | internal/format/report.go:236-511 | A text is read whole as a value exactly when it spells the value, under a grammar by parts that uses none of the parser's functions, and the value is within the parser's limits. |
| `ReportGrammar.CharReads` | internal/format/report.go:418-511 | Every way to spell a character in a string, itself, short escape, unit escape or surrogate pair, is read as that character. |
| `ReportGrammar.EscapeIsShortest` | internal/format/canonjson.go:225-252 | Only the quote, the backslash and characters below 0x20 are escaped, each in the shortest way there is, and in lower case. |
| `ReportGrammar.TextIsShortest` | internal/format/report.go:513-548 | No text that spells a value with its members in the written order is shorter than the written one. |
| `ReportRoundTrip.StringRead` | internal/format/canonjson.go:225-252 | Every written string reads back as itself. |
| `ReportRoundTrip.NumberRead` | internal/format/report.go:365-405 | Every safe integer's plain decimal reads back as it. |
| `ReportRoundTrip.ValueRead` | internal/format/report.go:247-358 | A value's text reads back as the value at any depth that fits, whatever delimiter follows. |
| `ReportRoundTrip.CanonicalReads` | internal/format/report.go:513-548 | Parsing the canonical text of any well-formed value gives the value with its members in canonical order. |
| `ReportRoundTrip.CanonicalDecidesMeaning` | internal/format/report.go:513-548 | Two well-formed values have the same canonical text exactly when they mean the same: injective, and blind to member order at every level. |
| `ReportRoundTrip.ParsePrintParse` | internal/format/report.go:225-548 | Parse, print, parse: the same report, and its canonical text is a fixed point. |
| `ReportRoundTrip.ValueParsed` | internal/format/report.go:247-405 | Whatever parses is well formed: safe integers, distinct names, depth within the limit. |
| `ReportRoundTrip.KeyOrderStrictTotal` | internal/format/canonjson.go:211-219 | The UTF-16 key order (section 3.2.3 of RFC 8785) is strict, transitive and total on strings. |
| `ReportRoundTrip.UnitsDecode` | internal/format/canonjson.go:211-219 | The units a key is ordered by are its characters, or the surrogate pairs that decode to them. |
| `ReportWriter.WriteReportCanonical` | internal/format/report.go:515-548 | The recursive writer appends exactly the canonical text. |
| `ReportWriter.WriteJsonString` | internal/format/canonjson.go:225-252 | Appends a string's canonical text rune by rune. |
| `ReportWriter.LessUtf16` | internal/format/canonjson.go:211-219 | The unit-by-unit loop decides the lexicographic order of UTF-16 forms. |
| `ReportWriter.FileRoundTrip` | internal/format/report.go:189-223 | A file holding the canonical text of a report is read as that report. |
| `D1Scan.RequireSingleStatement` | internal/restore/d1transcode.go:378-487 | An entry that is not a trigger passes exactly when it is one statement with every span closed and only white space behind its semicolon; a trigger entry that passes leaves no span open either. |
| `D1Scan.SkipToken` | internal/restore/d1transcode.go:402-448 | The scanner's token ends are the lexer's, and it reports exactly the spans that never close. |
| `D1Lexer.LexAppend` | internal/restore/d1transcode.go:366-377 | Text whose spans close lexes on its own, whatever follows it in the buffer. |
| `D1Literals.QuotedLexes` | internal/restore/d1transcode.go:666-671 | Whatever a name or string holds, its quoted form is one token holding the same text. |
| `D1Literals.LiteralReads` | internal/restore/d1transcode.go:599-664 | Every literal lexes to its own tokens, none of them a separator, and reads back as its cell: exact text, bytes or digits. |
| `D1Literals.LiteralExact` | internal/restore/d1transcode.go:599-664 | Which cells have a literal: null, any text, a blob that decoded, a number by the parts of the JSON grammar, an optional minus and digits; nothing else. |
| `D1Inserts.InsertReads` | internal/restore/d1transcode.go:540-591 | An INSERT's table, columns and every cell of every row read back from its tokens, in order. |
| `D1Transcode.WriteInserts` | internal/restore/d1transcode.go:540-591 | Renders exactly the named tables whose rows are as wide as their columns and hold only cells that have a literal, in batches inside one transaction. |
| `D1Transcode.BatchesHoldRows` | internal/restore/d1transcode.go:560-565 | Every row is in exactly one batch, in order, and there are ceil(rows / 256) batches. |
| `D1Transcode.BatchesRead` | internal/restore/d1transcode.go:560-588 | Each emitted INSERT statement reads back as its batch of rows. |
| `D1Transcode.WriteCreateTable` | internal/restore/d1transcode.go:284-297 | Accepts exactly a named, single CREATE TABLE statement. |
| `D1Transcode.CreateExact` | internal/restore/d1transcode.go:126-132 | An entry matches exactly when it is white space, CREATE, white space and its kind, in any case, up to the end of a word. |
| `D1Transcode.TranscodeFull` | internal/restore/d1transcode.go:234-275 | The output's tokens are each entry's and each table's own, so no span crosses an entry boundary; without triggers it is exactly one statement per entry, and per nonempty table BEGIN, its INSERTs and COMMIT, if and only if the white space behind every entry is ASCII. |
| `D1Transcode.EntryIsOneStatement` | internal/restore/d1transcode.go:354-377 | An accepted non-trigger entry comes out as exactly one statement if the white space behind its semicolon is ASCII, and as two otherwise. |
| `D1Transcode.NonAsciiTailIsAStatement` | internal/restore/d1transcode.go:479-486 | A non-breaking space behind the semicolon is accepted and lexes as a second statement. |

## Left out

- Cancellation by the caller's own context in the concurrent walk: the consumer's receive has no case for it, so the walk is modelled with a caller that does not cancel.
- AES-GCM, SHA-384, HKDF, the KEM and the signatures: parameters with the laws each theorem names.
- Base64, gzip, `encoding/json` struct decoding, UTF-8 decoding and the store, clock and file system: their results are inputs. Report text is its Unicode scalar values, and error messages with byte offsets are not modelled.
- ShardWalk.StepKeepsInv: goroutine scheduling is modelled as interleaved atomic steps, so data races inside a critical section are not expressible.
- Merkle.MerkleAccumulator.Root: no run has 2^64 records; the wrap of the counter is stated because the code has it, and `OpenRun` shows it out of reach of a declared count.
- OpenRun.UpFrontGates: the two readers list the same calls in the same order, and one method stands for both lists; the parsing of the root, the version label and the envelope are single outcomes.
- OpenRun.VerifyRecordsAndRoot: the record count is unbounded where the code's is a 64-bit word, and the declared count is required to fit one.
- Segment.RestoreRecord: the decompressor and its own size limit are one parameter; the segment id in an object name and the key derivation are parameters too, so the address checks inside them are not modelled.
- Segment.RestoreRecordTo: errors of the destination writer and of reading or closing an object stream are not modelled.
- Stream.OpenStreamTo: a source that fails in the middle of a read is not modelled.
- Shamir.Recombine: the checksum and the envelope's decrypt are parameters; notices and the wiping of keys are not modelled.
- PruneApply.Apply: the receipt, the report lines and the exit status are not modelled; a listing may show more than it should, never less.
- PruneSafety.Prune: what a run opens to depends on its own tree alone, since a prune deletes nothing else that opening reads; reading and verifying the RUNLOG comes before and is not part of it.
- PrunePartition.Partition: of two runs with one index the code's unstable sort may take either first; the body takes them in log order, and the contract holds of both.
- Freshness.CheckFreshness: the time and record count of an entry carry no weight in the check and are left out.
- OpenRun.StaleWaivesAgeAlone: the two files of the RUNLOG are one answer of the store, fetched or not.
- RunlogWriter.LogChainedExactly: the writer is the one the format describes, and it chains a run to the last one of its downpipe that was finalised; its source is not part of this repository.
- D1Scan.RequireSingleStatement: for trigger entries nothing is claimed about which BEGIN and END it pairs, only that all spans close.
- D1Transcode.TranscodeFull: the header, rows and schema records use the same writers and add no case; the choice between the record kinds and the opaque fallback is left out.
- ReportParser.ParseReportObject: the hints for PDF and UTF-16 files and the verification of the report's signature are left out.
- The canonical writer for signed manifests (`CanonicalJSON`) goes through struct encoding; its string form and key order are the report writer's.
- `init`, `update`, `setup`, `preflight`, `inspect`, `keys` and the report printing: user interface.
