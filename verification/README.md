# Verification models of Amore

This project models the parts of the Amore crates whose promises span several calls, several processes or several
failures, and proves those promises for all inputs and all runs. Where a promise in a comment and the code differ,
the model follows the code and the difference is stated as a lemma or in a contract.

| module | models |
|---|---|
| `WalKeys`, `WriteAheadLog` | the log over an ordered byte store: key codec, tags, scans, append, ack, replay list |
| `IngestModel` | the ingest protocol as a machine of atomic events, with crashes and failing writes at every point |
| `StreamingIngest` | the pipeline object; each method is proved to be a run of that machine |
| `IngestSystem` | that object inside whole runs, with crashes of its byte store |
| `KeyPinning` | opening the log with the machine key and the pinned fingerprint |
| `Provenance` | sealed envelopes, the framing under the hash, chain verification |
| `ObservationStore` | the transactional insert and the sorted walk over the observations table |
| `PorterSpec`, `Porter` | the Porter (1980) rules as pure functions, and the stemmer that rewrites a buffer in place |
| `PorterRules` | those rules one by one on every stem, and words that need every step |
| `CircuitBreaker` | the two locked sections around an awaited call, under every interleaving |
| `JsonScan` | the brace scanner that finds a JSON object in prose |
| `AtomicWrite` | the three writers that replace a configuration file |
| `ConfigMerge` | merging a server entry into a JSON configuration |
| `IdeSetup` | that merge inside the replacement of the file |
| `CivilDate` | day numbers as Gregorian dates |
| `RankFusion` | reciprocal rank fusion of two lanes |
| `RateBucket` | the token bucket of the gRPC server |
| `RecallCache` | the two-level result cache |
| `Wrappers`, `ByteStrings`, `Ordering` | shared: option and result types, byte order, listing a finite set in order |

`dafny verify dfyconfig.toml` checks all of it.

## How the models are set up

- Input and output are parameters. A fallible operation takes its outcome as an argument (`Io`, `Transfer`, `TxEnd`,
  `Faults`, `Clearing`), so a theorem over all arguments is a theorem over all failures. Clock readings and generated
  keys and ids are arguments as well.
- Digests and tags are unknown functions. Where a result needs a digest without collisions, the assumption is made
  only for the finite set of strings that occur, together with "none of them has the genesis value as digest".
- The log store is a map from keys to values, split into what a flush has confirmed and what a crash may take back;
  a crash keeps any subset of the latter. A store is untampered (`Holds`) when it is the byte form of records and
  acknowledgements tagged with one key; a record without a tag counts as genuine, as in the code. `UnackedAny` says
  what the replay list is on a store that has been tampered with.
- The file system is a map in which a rename is atomic and a copy or a write passes through a partial content. A
  ghost history holds every state, so a property of every element of the history is a property of every crash point.
- The 64-bit sequence counter and the 32-bit brace counter wrap, as they do in a release build. Theorems about runs
  of the ingest machine hold while the counter has not reached 2^64 - 1. `AppendLosesNothingIff` says,
  whatever the counter, exactly when an append loses nothing, `OpenFreshIff` when reopening resumes at an unused
  number, and `WrapLosesRecord` gives a log at the end of the counter from which an accepted record is lost.
- The ingest machine keeps every accepted and every delivered record of a run together with its number, so "delivered"
  speaks of the record itself. The consumer takes its first record after recovery has ended, which is what the
  documentation of recovery asks for; submissions may queue up before. A crash keeps any of the unflushed writes.
  `OverlapBearsAcknowledged` shows what can go wrong without that order on such a store: an acknowledgement that
  survives without its record. `PrefixKeepsRecords` shows that a store whose crash keeps a prefix of its writes has none.
- The scanner promises the shortest balanced slice; with the wrapping counter that holds up to 2^32 open braces, and
  `ReturnsShortestBalanced` and `PrintedObjectExtracted` state it with that condition in both directions.
- Scores and tokens are exact reals; the program uses floating point.

## Where code and comments differ

- `submit` (crates/amore-core/src/streaming_ingest.rs:147-150) is described as losing nothing. A submission that is
  still queued is lost in a crash (`QueuedIsLost`), and one with an oversized payload is dropped without one
  (`OversizedIsDropped`). A record survives exactly when the flushed log holds it (`SubmissionSurvivesIff`).
- The stemmer's comment says that "deployment" is kept because "deploy" has measure 1
  (crates/amore-core/src/porter1.rs:5-7). Its y follows a vowel and is a consonant, so the measure is 2, and the code
  gives "deploy" (`StemsDeployment`).
- The record tag covers document, time and payload but not the kind (`TagInputBinds`).
- A success that finds the breaker Open closes it at once, which its comment calls impossible
  (crates/amore-core/src/circuit_breaker.rs:152-155); `LateSuccessClosesEarly` is an interleaving that does it.
- The legacy server entry is said to be replaced by the next run (crates/amore-core/src/ide_adapter.rs:109-110).
  It stays when the current entry is already as wanted (`LegacySurvivesIff`).
- The command-line writer removes an existing backup when the target itself is missing (`WriteAtomicJson`). The
  adapter treats a target that is missing after a crash between its two renames as empty, while the content is in the
  backup (`Apply`). A run that starts from a target that is not the last good content, as after a broken restore,
  replaces the backup that has it (`GoodContentSurvivesIff`); the command-line writer after a cut-off run of the adapter
  deletes it (`CutAdapterThenCommandLine`).
- The time-to-live is described for both cache layers (crates/amore-core/src/cache.rs:32-33), and a lookup as
  returning None on expiry (cache.rs:94). Only memory has it, so expiry is never seen (`ExpiryIsInvisible`). The
  warning on a failed disk write says that the entry lives in memory only; an older disk entry stays and comes back
  (`FailedPutIsForgotten`). Overlapping puts can disagree in the same way (`OverlappingPuts`).
- The rate limiter drops the part of a millisecond between calls, so calls that follow each other faster than that
  never refill it (`ImpatientCallerStarves`). Its hint holds for the next call only (`HintIsKept`).

## Model

| member | source | states |
|---|---|---|
| `WalKeys.RecKeyOrder` | crates/amore-core/src/wal.rs:98-104 | Byte order of record keys is numeric order of sequence numbers over all u64 values, in both directions. |
| `WalKeys.KeyRoundTrip` | crates/amore-core/src/wal.rs:98-112 | Record and ack keys are 24 bytes, parse back to their number after the prefix, and only record keys carry the record prefix. |
| `WalKeys.KeysDistinct` | crates/amore-core/src/wal.rs:98-112 | Different numbers have different record keys and different ack keys, and no record key is an ack key. |
| `WalKeys.AcksOutsideRecordScan` | crates/amore-core/src/wal.rs:352-360 | Every ack key sorts before every record key, so a range scan from a record key never meets one. |
| `WalKeys.PlusSignParses` | crates/amore-core/src/wal.rs:362-368 | The number after the prefix may carry a plus sign; nothing, a lone sign, or any other byte among the digits makes the key malformed. |
| `WriteAheadLog.TagInputBinds` | crates/amore-core/src/wal.rs:115-121 | The bytes under a record tag are equal exactly when document, time and payload are equal: the framing loses nothing, and the kind (upsert or delete) is not protected. |
| `WriteAheadLog.TagInputLayout` | crates/amore-core/src/wal.rs:115-121 | The tagged bytes are the document number and the time, each in eight bytes with the lowest first, and the payload. |
| `WriteAheadLog.IterFromExact` | crates/amore-core/src/wal.rs:348-394 | On an untampered log `iter_from(s)` yields exactly the records numbered s or more, ascending, each once. |
| `WriteAheadLog.UnackedExact` | crates/amore-core/src/wal.rs:408-421 | On an untampered log `unacked` is exactly the accepted records without an acknowledgement, ascending. |
| `WriteAheadLog.IterFromAny` | crates/amore-core/src/wal.rs:348-394 | On any store with well-formed keys the scan goes through the records from `s` on in ascending order, yields those without a tag or with the matching one, leaves out those whose tag does not match, and reports values that are no envelope. |
| `WriteAheadLog.UnackedAny` | crates/amore-core/src/wal.rs:344-421 | So on such a store `unacked` fails if and only if some record is unreadable, and otherwise lists, ascending, exactly the unacknowledged records with no tag or the matching one: a tampered record is left out and hides no other. |
| `WriteAheadLog.YieldsAreSound` | crates/amore-core/src/wal.rs:376-391 | Whatever keys and values a store has, each record the scan yields stands in an envelope of it without a tag or with the tag of that very record. |
| `WriteAheadLog.UnackedFailsIff` | crates/amore-core/src/wal.rs:408-421 | The replay list fails if and only if the scan meets an error, and then with the first one. |
| `WriteAheadLog.ScannedExact` | crates/amore-core/src/wal.rs:408-421 | With reads that may fail, such a failure in front of an entry, or behind the last one, is the only error on an untampered log. |
| `WriteAheadLog.MaxSeqExact` | crates/amore-core/src/wal.rs:303-315 | On any store with well-formed keys, whatever the values, the reverse prefix scan at opening finds the greatest sequence number in use (zero without records). |
| `WriteAheadLog.MalformedLastKeyCountsZero` | crates/amore-core/src/wal.rs:303-315 | A last record key that does not parse makes numbering start again as in an empty log. |
| `WriteAheadLog.Wal.OpenWithKey` | crates/amore-core/src/wal.rs:298-318 | Opening keeps the store as it is and resumes numbering after that maximum, wrapping at 2^64. |
| `WriteAheadLog.Wal.Write` | crates/amore-core/src/wal.rs:334-341 | An insert and a flush: what reaches the store, and what is only pending, for each way the pair can end. |
| `WriteAheadLog.Wal.Append` | crates/amore-core/src/wal.rs:321-343 | An oversized payload changes nothing; otherwise a number is spent even when the write fails, the next one follows it (zero after the last), and Ok means that the record with its own tag is durable under that number. |
| `WriteAheadLog.Wal.Ack` | crates/amore-core/src/wal.rs:397-405 | Ok exactly when the mark is durable; numbering is untouched. |
| `WriteAheadLog.Wal.UnackedRecords` | crates/amore-core/src/wal.rs:408-421 | The loop over the scan returns the list that `UnackedAny` and `ScannedExact` describe, or the first error: of a record, or of a read of the store in front of any entry. |
| `IngestModel.StepKeepsInv` | crates/amore-core/src/streaming_ingest.rs:176-269 | Every atomic event (submit, consume, tick, batch outcome, each ack, recovery, crash, reopening) keeps the invariant, for any outcome of any write, while the counter is below its last value. |
| `IngestModel.RunKeepsInv` | crates/amore-core/src/streaming_ingest.rs:176-269 | The invariant holds in every state of every run. |
| `IngestModel.AtLeastOnce` | crates/amore-core/src/streaming_ingest.rs:171-269 | Over any number of crashes and reopenings, a record whose append returned Ok has itself been in a batch that returned Ok, or is still yielded by `unacked` under its number. |
| `IngestModel.AcceptedForGood` | crates/amore-core/src/wal.rs:321-343 | What was accepted or delivered stays in the log as it was for the rest of the run, and no number is handed out twice: accepted or delivered records under one number are the same record. |
| `IngestModel.NoRecordBornAcknowledged` | crates/amore-core/src/wal.rs:298-343 | Every acknowledgement has a durable record, that very record was delivered, and the next number carries neither a record nor an acknowledgement. |
| `IngestModel.RecoveryDeliversAll` | crates/amore-core/src/streaming_ingest.rs:171-196 | Once recovery returns Ok every record that was in the log at the call has itself been delivered, with its number, and is durably acknowledged, so that no later recovery hands it over again. |
| `IngestModel.LifetimeOrder` | crates/amore-core/src/streaming_ingest.rs:204-269 | In one lifetime numbers are handed over strictly increasing within and across batches, accepted submissions reach the log in submission order, and the batch is below its limit whenever the loop waits. |
| `IngestModel.AcceptedAreHandedOver` | crates/amore-core/src/streaming_ingest.rs:226-269 | In every state of every run the submissions that the log accepted in this lifetime, in order and each once, are those the consumer has handed over followed by those waiting in its batch: none is left out. |
| `IngestModel.ConsumerBatchDelivered` | crates/amore-core/src/streaming_ingest.rs:250-268 | What an Ok of the downstream delivers is the whole batch and the last that the consumer handed over. |
| `IngestModel.ConsumeAccepts` | crates/amore-core/src/streaming_ingest.rs:226-237 | A record taken from the queue is accepted, under the counter, if and only if its payload is within the limit and the append is flushed. |
| `IngestModel.EntrySurvivesIff` | crates/amore-core/src/streaming_ingest.rs:147-156 | A record under a number has been delivered or will be replayed, whatever unflushed writes a crash loses, if and only if the flushed log holds it under that number. |
| `IngestModel.SubmissionSurvivesIff` | crates/amore-core/src/streaming_ingest.rs:147-156 | At any point of any run a submitted record, queued, refused or appended, survives every crash if and only if the flushed log holds it under some number. |
| `IngestModel.QueuedIsLost` | crates/amore-core/src/streaming_ingest.rs:147-156 | A run in which a submission returned Ok and a crash finds it queued: the log stays empty. |
| `IngestModel.OversizedNeverLogged` | crates/amore-core/src/streaming_ingest.rs:228-234 | In every state of every run no payload over the limit is in the log, so such a submission never survives although it returns Ok. |
| `IngestModel.OversizedIsDropped` | crates/amore-core/src/streaming_ingest.rs:228-234 | A run without any crash in which the consumer takes such a submission and nothing of it is left. |
| `IngestModel.AppendLosesNothingIff` | crates/amore-core/src/wal.rs:321-343 | Whatever the counter: an accepted append leaves every accepted record delivered or replayable if and only if its number belongs neither to another accepted, undelivered record nor to the acknowledgement of something else; an unused number is always good. |
| `IngestModel.OpenFreshIff` | crates/amore-core/src/wal.rs:303-317 | Numbering resumes at an unused number if and only if the last and the zeroth number are not both taken. |
| `IngestModel.WrapLosesRecord` | crates/amore-core/src/wal.rs:317-343 | A concrete log at the end of the counter whose next accepted record replaces another one: that one was accepted, was not delivered and will not be replayed. |
| `IngestModel.OverlapBearsAcknowledged` | crates/amore-core/src/streaming_ingest.rs:171-175 | On a store whose crash may keep a later write without an earlier one: replaying a record whose append failed at the flush, a crash can leave its acknowledgement alone, and the next record under that number is never replayed. These are disk states that recovery beside the consumer would pass through; the machine excludes them. |
| `IngestModel.PrefixKeepsRecords` | crates/amore-core/src/wal.rs:397-421 | On a store whose crash keeps a prefix of the unflushed writes, every surviving acknowledgement has its record, also when recovery and the consumer write in turns. |
| `StreamingIngest.Pipeline.constructor` | crates/amore-core/src/streaming_ingest.rs:125-145 | A pipeline over an opened log is the machine after its opening event. |
| `StreamingIngest.Pipeline.Submit` | crates/amore-core/src/streaming_ingest.rs:151-156 | Backpressure exactly when the queue is full, and then nothing changes; Ok only queues the record. Possible at any time, also while a recovery or a flush is under way. |
| `StreamingIngest.Pipeline.SubmitAll` | crates/amore-core/src/streaming_ingest.rs:151-156 | Submissions that arrive during a flush are that many submission events and leave the flush alone. |
| `StreamingIngest.Pipeline.AckNext` | crates/amore-core/src/streaming_ingest.rs:257-261 | One acknowledgement on the store is one acknowledgement event; recovery stops at a failing one, the consumer goes on. |
| `StreamingIngest.Pipeline.FlushPending` | crates/amore-core/src/streaming_ingest.rs:250-269 | After it the batch is empty; if the downstream returned Ok, all of it is delivered, nothing else is, and each number whose acknowledgement worked is durably acknowledged. Arrivals, outcome and acknowledgements are a machine run. |
| `StreamingIngest.Pipeline.Receive` | crates/amore-core/src/streaming_ingest.rs:228-238 | The record that was first in the queue is in the batch afterwards, under the number the counter had, or, if that made the batch full, has been handed over with it and is delivered when the downstream says Ok; one that is oversized or not flushed is not. The whole is a machine run. |
| `StreamingIngest.Pipeline.OnTick` | crates/amore-core/src/streaming_ingest.rs:241-245 | Hands over what is in the batch, all of it, and leaves the batch empty; an empty batch is left alone. |
| `StreamingIngest.Pipeline.RecoverOnStartup` | crates/amore-core/src/streaming_ingest.rs:176-196 | After an Ok every record of the replay list has been delivered and is durably acknowledged; the replay is a machine run that ends recovered exactly when it returns Ok; a failed read of the store, wherever in the scan, ends it before anything is handed over. |
| `StreamingIngest.Pipeline.Replay` | crates/amore-core/src/streaming_ingest.rs:185-194 | One batch of all unacknowledged records and then its acknowledgements, up to the first that fails, as a machine run. |
| `IngestSystem.RunGoesOn` | crates/amore-core/src/streaming_ingest.rs:204-248 | A run of the machine goes on with the events that any pipeline method stands for. |
| `IngestSystem.CrashOfBytes` | crates/amore-core/src/wal.rs:334-341 | Losing any of the unflushed keys of the byte store is a crash of the machine: the store that is left holds the log that is left. |
| `IngestSystem.PipelineReplays` | crates/amore-core/src/streaming_ingest.rs:171-269 | Anywhere in a run of the whole system, the byte store of the pipeline lists for replay every record whose append returned Ok and whose batch did not. |
| `IngestSystem.CrashedPipelineReplays` | crates/amore-core/src/streaming_ingest.rs:171-269 | Cut off there, losing any of the unflushed keys, the store that is left lists the same records, and reopening it resumes at a number without record or acknowledgement. |
| `Provenance.FrameSplits` | crates/amore-core/src/provenance.rs:83-97 | A length-prefixed field followed by anything determines the field and the rest. |
| `Provenance.PreimageInjective` | crates/amore-core/src/provenance.rs:83-97 | The hashed bytes are equal exactly when id, previous hash and JSON are all equal. |
| `Provenance.PreimageLayout` | crates/amore-core/src/provenance.rs:83-97 | The hashed bytes are id, previous hash and JSON in this order, each after its length in eight bytes with the highest first. |
| `Provenance.Seal` | crates/amore-core/src/provenance.rs:35-45 | A sealed envelope verifies and carries the given fields. |
| `Provenance.VerifyChain` | crates/amore-core/src/provenance.rs:60-81 | The loop accepts exactly the chains in which every link verifies and names its predecessor; a refusal names the first bad link and which of the two tests failed. |
| `Provenance.SealExtends` | crates/amore-core/src/provenance.rs:35-81 | Adding one link keeps a chain verified exactly when the link verifies and names the head. |
| `Provenance.SameHashSameEnvelope` | crates/amore-core/src/provenance.rs:49-51 | Two envelopes that verify with the same hash are equal, for a digest without collisions on the strings hashed. |
| `Provenance.HeadDeterminesChain` | crates/amore-core/src/provenance.rs:60-97 | Two verified chains with the same head hash are equal, link by link. |
| `Provenance.LinkFitsOnce` | crates/amore-core/src/provenance.rs:60-81 | A link of a verified chain fits behind its first k links only if it is the k-th. |
| `Provenance.DrawnLinksVerifyIffPrefix` | crates/amore-core/src/provenance.rs:60-81 | Any sequence of links drawn from a verified chain, in any order, with any repetition, verifies exactly when it is a prefix. |
| `ObservationStore.SqliteStore.InsertObservation` | crates/amore-core/src/sqlite_store.rs:92-133 | In any history: commits one row that names the hash of the row with the largest timestamp and, within it, the largest id, which is the last of the sorted walk (the genesis value for an empty table), together with its index entry, or changes neither table; Ok exactly when the transaction commits and the id is new. |
| `ObservationStore.SqliteStore.VerifyFullChain` | crates/amore-core/src/sqlite_store.rs:206-222 | Ok exactly when the sorted walk is a verified chain, else the first bad link of it; without collisions that is exactly when commits came in increasing (ts, id). |
| `ObservationStore.LatestIsForemost` | crates/amore-core/src/sqlite_store.rs:104-111 | The row the head is read from: every other one has a smaller timestamp, or the same and a smaller id. |
| `ObservationStore.HeadHashIsHead` | crates/amore-core/src/sqlite_store.rs:104-111 | Its hash is the head of the sorted walk, whatever the order of the commits. |
| `ObservationStore.Walk` | crates/amore-core/src/sqlite_store.rs:208-210 | The sorted read lists every row once in strictly increasing (ts, id). |
| `ObservationStore.WalkGoesUp` | crates/amore-core/src/sqlite_store.rs:208-210 | A row of the walk has a smaller timestamp than a later one, or the same and a smaller id. |
| `ObservationStore.IncreasingVerifies` | crates/amore-core/src/sqlite_store.rs:104-133 | Rows committed in increasing order are their own walk and verify. |
| `ObservationStore.NoForwardLink` | crates/amore-core/src/sqlite_store.rs:104-115 | No row names the hash of a row committed after it. |
| `ObservationStore.LastCommitWalksLast` | crates/amore-core/src/sqlite_store.rs:206-222 | In a walk that verifies, the row committed last comes last. |
| `ObservationStore.VerifiesIffCommitsIncrease` | crates/amore-core/src/sqlite_store.rs:92-222 | After any history of commits by any writers the walk verifies if and only if every commit sorted after all rows before it. |
| `ObservationStore.InsertVerifiesIff` | crates/amore-core/src/sqlite_store.rs:92-222 | One more commit leaves the walk verifying if and only if it verified before and the new (ts, id) sorts last. |
| `PorterSpec.FlagsOnPrefix` | crates/amore-core/src/porter1.rs:76-82 | Whether a letter counts as a consonant depends only on the letters up to it. |
| `PorterSpec.MeasureIsUniqueForm` | crates/amore-core/src/porter1.rs:84-95 | Every word has the form [C](VC)^m[V] for exactly one m, which is its measure. |
| `PorterSpec.MeasureMonotone` | crates/amore-core/src/porter1.rs:84-95 | A longer prefix never has a smaller measure. |
| `PorterSpec.FirstIsLongest` | crates/amore-core/src/porter1.rs:168-184 | In a table where no suffix is a proper suffix of a later one, trying rules in order finds the longest match. |
| `PorterSpec.FirstMatchIsLongest` | crates/amore-core/src/porter1.rs:129-255 | All seven suffix tables of the program, in its order, have that property. |
| `Porter.MeasureLoop` | crates/amore-core/src/porter1.rs:84-95 | The counting loops compute the measure. |
| `Porter.CopyFromSlice` | crates/amore-core/src/porter1.rs:175-176 | The in-place write of a replacement changes just its own slots among those up to its end. |
| `Porter.ApplyRules` | crates/amore-core/src/porter1.rs:168-184 | The unrolled rule tests leave what the longest-match rule and its condition give, within the old end. |
| `Porter.S1a` | crates/amore-core/src/porter1.rs:129-135 | Refines the pure form of step 1a on the part of the buffer in use. |
| `Porter.S1b2` | crates/amore-core/src/porter1.rs:154-161 | Refines the pure form of the tail of step 1b; both growing writes stay inside the buffer because a suffix was removed before. |
| `Porter.S1b` | crates/amore-core/src/porter1.rs:137-152 | Refines the pure form of step 1b on the part of the buffer in use. |
| `Porter.S1c` | crates/amore-core/src/porter1.rs:163-166 | Refines the pure form of step 1c on the part of the buffer in use. |
| `Porter.S2` | crates/amore-core/src/porter1.rs:187-207 | Refines the pure form of step 2 on the part of the buffer in use. |
| `Porter.S3` | crates/amore-core/src/porter1.rs:209-232 | Refines the pure form of step 3 on the part of the buffer in use. |
| `Porter.S4` | crates/amore-core/src/porter1.rs:234-255 | Refines the pure form of step 4 on the part of the buffer in use. |
| `Porter.S5a` | crates/amore-core/src/porter1.rs:257-264 | Refines the pure form of step 5a on the part of the buffer in use. |
| `Porter.S5b` | crates/amore-core/src/porter1.rs:266-268 | Refines the pure form of step 5b on the part of the buffer in use. |
| `Porter.StemInPlace` | crates/amore-core/src/porter1.rs:113-127 | The in-place stemmer leaves exactly the word the rules of Porter (1980) give, words of up to two letters being untouched. |
| `Porter.First1a` | crates/amore-core/src/porter1.rs:129-135 | Step 1a on every word: what becomes of sses, ies, ss and s. |
| `Porter.First1b` | crates/amore-core/src/porter1.rs:137-152 | Step 1b on every word: eed, ed and ing with their conditions. |
| `Porter.First1c` | crates/amore-core/src/porter1.rs:163-166 | Step 1c on every word. |
| `PorterRules.ConsonantIff` | crates/amore-core/src/porter1.rs:76-82 | A letter other than y is a consonant if and only if it is none of a, e, i, o, u; in a run of y consonants and vowels alternate, with a consonant first at the start of the word and after a vowel. |
| `PorterRules.TailRules` | crates/amore-core/src/porter1.rs:154-161 | What becomes of a word that lost ed or ing: which get an e, which lose a letter. |
| `PorterRules.Step2Rules` | crates/amore-core/src/porter1.rs:187-207 | Step 2 for every stem and each of the first seven suffixes, unless the stem makes a longer one match: the replacement exactly when the stem has a positive measure. |
| `PorterRules.Step2LaterRules` | crates/amore-core/src/porter1.rs:187-207 | The same for its other suffixes. |
| `PorterRules.Step3Rules` | crates/amore-core/src/porter1.rs:209-232 | Step 3 for every stem and each suffix. |
| `PorterRules.Step4Rules` | crates/amore-core/src/porter1.rs:234-255 | Step 4 for every stem and each of its first ten suffixes, unless the stem makes a longer one match: gone exactly when the stem has a measure over one. |
| `PorterRules.Step4LaterRules` | crates/amore-core/src/porter1.rs:234-255 | The same for its other suffixes, ion only after s or t. |
| `PorterRules.LastRules` | crates/amore-core/src/porter1.rs:257-268 | Step 5 for every stem: when a final e goes, and when one of two final l. |
| `PorterRules.StemsGeneralizations` | crates/amore-core/src/porter1.rs:113-127 | The stem of a word that takes part in steps 1a, 2, 3 and 4 and has another stem without any of them. |
| `PorterRules.StemsOscillators` | crates/amore-core/src/porter1.rs:113-127 | The same for steps 1a, 2, 4 and 5b. |
| `PorterRules.StemsHopping` | crates/amore-core/src/porter1.rs:113-127 | The same for step 1b and its tail. |
| `PorterRules.StemsHappy` | crates/amore-core/src/porter1.rs:113-127 | The same for step 1c. |
| `PorterRules.StemsProbate` | crates/amore-core/src/porter1.rs:113-127 | The same for step 5a. |
| `PorterRules.StemsDeployment` | crates/amore-core/src/porter1.rs:5-7 | The example word of the module comment: its stem has measure 2, not 1, so the suffix goes. |
| `Porter.StemTrims` | crates/amore-core/src/porter1.rs:113-268 | For lowercase words of three or more letters the stem is non-empty, no longer than the word and lowercase. |
| `CircuitBreaker.Breaker.constructor` | crates/amore-core/src/circuit_breaker.rs:72-88 | A new breaker is Closed with no failures. |
| `CircuitBreaker.Breaker.BeginCall` | crates/amore-core/src/circuit_breaker.rs:103-122 | The first locked section: admits exactly in Closed, HalfOpen, or Open for long enough; a refusal changes nothing and reports the time open. |
| `CircuitBreaker.Breaker.FinishCall` | crates/amore-core/src/circuit_breaker.rs:130-190 | The last locked section is the completion event of the machine. A failure opens the breaker at that instant in HalfOpen and at the threshold in Closed, and leaves Open alone; a success counts in HalfOpen and otherwise leaves the breaker Closed, also when it finds it Open. |
| `CircuitBreaker.Breaker.Call` | crates/amore-core/src/circuit_breaker.rs:97-191 | A whole call without overlap is both sections, or only the first when it refuses. |
| `CircuitBreaker.InvHolds` | crates/amore-core/src/circuit_breaker.rs:97-191 | Over every interleaving of the sections of any number of calls: Closed has fewer failures than the threshold, other states have none, and HalfOpen has fewer successes than it needs. |
| `CircuitBreaker.FailuresCountRun` | crates/amore-core/src/circuit_breaker.rs:160-174 | While Closed the counter is the length of the unbroken run of failures that the completions so far end with. |
| `CircuitBreaker.TripsExactlyAtThreshold` | crates/amore-core/src/circuit_breaker.rs:162-174 | Closed turns Open if and only if a failure makes that run threshold long. |
| `CircuitBreaker.OpenEndsOnlyBy` | crates/amore-core/src/circuit_breaker.rs:107-155 | Open ends if and only if a call starts after the waiting time or a late success completes; only the latter closes at once. |
| `CircuitBreaker.HalfOpenCountsSince` | crates/amore-core/src/circuit_breaker.rs:107-150 | In HalfOpen, over every interleaving: an admitted call ended Open, nothing has failed since, and the counter is the number of successes since. |
| `CircuitBreaker.ProbesEndHalfOpen` | crates/amore-core/src/circuit_breaker.rs:136-184 | HalfOpen turns Open if and only if a call fails, at that instant, and Closed if and only if the close_after-th success since then completes. |
| `CircuitBreaker.OpenLastsIff` | crates/amore-core/src/circuit_breaker.rs:107-186 | Open lasts exactly as long as every call that begins comes too early and none succeeds. |
| `CircuitBreaker.FailureRefusesCalls` | crates/amore-core/src/circuit_breaker.rs:97-186 | After a failure that opened the breaker, from Closed or HalfOpen, each call that begins less than reset_after later is refused, unless one has succeeded in between. |
| `CircuitBreaker.LateSuccessClosesEarly` | crates/amore-core/src/circuit_breaker.rs:152-155 | For every configuration with a waiting time: an interleaving of threshold + 1 calls in which Open is closed by a late success before any time has passed. |
| `CircuitBreaker.LateSuccessIsOlder` | crates/amore-core/src/circuit_breaker.rs:97-191 | When every last section belongs to an admitted first section, a success that finds the breaker Open belongs to a call that began before the failure that opened it. |
| `CircuitBreaker.SoloInv` | crates/amore-core/src/circuit_breaker.rs:97-191 | Without overlap the HalfOpen counter is the number of successes in a row. |
| `CircuitBreaker.SoloRecovery` | crates/amore-core/src/circuit_breaker.rs:97-191 | Without overlap Open is left only after reset_after, and Closed is reached if and only if the close_after-th success in a row completes. |
| `JsonScan.ExtractFirstJsonObject` | crates/amore-core/src/ensemble.rs:151-182 | The one-pass loop, with its 32-bit counter, returns the slice from the first brace to the first close that brings the counter to zero, or None when there is none. |
| `JsonScan.ReturnsShortestBalanced` | crates/amore-core/src/ensemble.rs:151-182 | The shortest string-aware balanced slice from the first brace is the one returned if and only if it never has more than 2^32 braces open, where the 32-bit counter comes round; no other slice within that depth is returned. |
| `JsonScan.ComesRound` | crates/amore-core/src/ensemble.rs:154-173 | Coming down from more than 2^32 open braces, the counter is zero at a closing brace before they are all closed. |
| `JsonScan.PrintKept` | crates/amore-core/src/ensemble.rs:156-180 | Scanning any text of a JSON value outside strings comes back to the same depth, never below it and never above it by more than the nesting of its braces. |
| `JsonScan.PrintReaches` | crates/amore-core/src/ensemble.rs:156-180 | And it does get as deep as that nesting. |
| `JsonScan.ObjectKept` | crates/amore-core/src/ensemble.rs:156-180 | Scanning an object text stays at least one brace deep until its last byte. |
| `JsonScan.PrintedObjectExtracted` | crates/amore-core/src/ensemble.rs:151-182 | Any object text of the JSON grammar (RFC 8259), with any white space at each place and any of the escapes of its section 7, after text without an opening brace and before any text, is returned exactly if and only if its braces nest no deeper than 2^32. |
| `JsonScan.AsciiBetweenBoundaries` | crates/amore-core/src/ensemble.rs:171-173 | In UTF-8 (section 3 of RFC 3629) an ASCII byte always stands between two character boundaries. |
| `JsonScan.SliceOnBoundaries` | crates/amore-core/src/ensemble.rs:171-173 | So the returned slice of a text begins and ends at character boundaries. |
| `AtomicWrite.RetryRename` | crates/amore-gui/src/ide_wire.rs:207-221 | At most three attempts, a further one only after a transient failure; the line after the loop is never reached; every state on the way is the old or the new one. |
| `AtomicWrite.RotateBackup` | crates/amore-gui/src/ide_wire.rs:170-172 | The old backup survives under one of its two names. |
| `AtomicWrite.SwapIn` | crates/amore-gui/src/ide_wire.rs:194-200 | Rename over the target, or, when that fails, drop the new file and copy the backup back; the content before the edit is intact in target or backup in every state on the way. |
| `AtomicWrite.BackUp` | crates/amore-gui/src/ide_wire.rs:170-184 | The first half of the writer: Ok exactly when every step needed worked, and then the backup holds the target; a failure keeps the old backup and the target. |
| `AtomicWrite.WriteAtomic` | crates/amore-gui/src/ide_wire.rs:166-205 | For every choice of failing steps: Ok exactly when all needed steps work, then target and backup hold the new and old content, as they do after a failed parse check; after a failed rename with a broken restore the target holds the broken copy and the backup the old content; every state a crash can leave holds the old content in target or backup; no foreign file changes. |
| `AtomicWrite.BackUpIfPresent` | crates/amore-mcp/src/register.rs:179-192 | As above, for a writer that accepts a missing target. |
| `AtomicWrite.WriteAtomicJson` | crates/amore-mcp/src/register.rs:176-223 | The same guarantees for the command-line writer; with a missing target the file is created and an existing backup is gone. |
| `AtomicWrite.WriteAside` | crates/amore-core/src/ide_adapter.rs:71-72 | The new content is complete under the temporary name before anything else changes. |
| `AtomicWrite.Promote` | crates/amore-core/src/ide_adapter.rs:73-86 | Live file to backup, new file to its place; if the second rename fails the content is in the backup. |
| `AtomicWrite.Apply` | crates/amore-core/src/ide_adapter.rs:60-87 | Outcome and contents for every choice of failing steps; unchanged content touches nothing; a failed run leaves the target as it was, or, exactly when its last rename failed over an existing target, missing with its content in the backup; every state on the way is recoverable. |
| `AtomicWrite.WriterRun` | crates/amore-gui/src/ide_wire.rs:166-205 | What the contracts of the three writers say of a run as a step of a sequence, with what each does to the backup when there is no target. |
| `AtomicWrite.CutRun` | crates/amore-gui/src/ide_wire.rs:166-205 | A run cut off at any state it passes through is such a step as well. |
| `AtomicWrite.GoodContentKept` | crates/amore-gui/src/ide_wire.rs:166-205 | Over any sequence of runs, cut off or not: while each finds the last good content in the target, every crash point and every end holds the content good at that time in target or backup. |
| `AtomicWrite.ReplacingKeepsIff` | crates/amore-core/src/ide_adapter.rs:60-87 | A run that puts new content in place leaves a text in target or backup if and only if it wrote it, found it in the target, or, with no target, is the adapter and found it in the backup; the command-line writer deletes that backup. |
| `AtomicWrite.GoodContentSurvivesIff` | crates/amore-gui/src/ide_wire.rs:166-205 | So over a sequence of runs the good content from before a replacing run survives it if and only if the run found it in the target, or, with no target, the adapter found it in the backup. |
| `AtomicWrite.CutAdapterThenCommandLine` | crates/amore-mcp/src/register.rs:176-192 | Two runs: the adapter cut off between its renames, then the command-line writer, after which the good content is in neither place. |
| `AtomicWrite.TidyRunsStaySteady` | crates/amore-gui/src/ide_wire.rs:166-205 | Runs that leave the target alone unless they put new content in place always find the good content there. |
| `ConfigMerge.MergeMcpServers` | crates/amore-core/src/ide_adapter.rs:112-151 | The method that changes the parsed tree returns the specified text or the specified error; it succeeds exactly on a blank text and on an object whose server table is absent or an object. |
| `ConfigMerge.Merge` | crates/amore-core/src/ide_adapter.rs:118-130 | Which texts are merged, and which error the others end with: no JSON, no object, or a server table that is none. |
| `ConfigMerge.MergePreserves` | crates/amore-core/src/ide_adapter.rs:107-151 | In terms of the two parsed trees: the result has the same top-level keys and values outside the server table, and its server table is the old one with the entry set and, when the current name is registered, the legacy one removed; the text is unchanged if and only if the entry was there already. |
| `ConfigMerge.MergeIntoBlank` | crates/amore-core/src/ide_adapter.rs:118-151 | A blank text becomes a configuration with this one server and nothing else. |
| `ConfigMerge.UnchangedIffSettled` | crates/amore-core/src/ide_adapter.rs:134-148 | The text is left as it is if and only if its server table has the entry, and every result has it. |
| `ConfigMerge.MergeIdempotent` | crates/amore-core/src/ide_adapter.rs:107-151 | Merging again returns the text unchanged. |
| `IdeSetup.ApplyEntry` | crates/amore-core/src/ide_adapter.rs:60-151 | Replacing a configuration by its merge returns Ok if and only if the file can be read and merged and either has the entry already or every step works; then the file has the entry. On a file that has it a run returns NoChange and touches nothing; without a file it creates one with this server and nothing else. |
| `IdeSetup.ApplyTwice` | crates/amore-core/src/ide_adapter.rs:204-215 | Applying the same entry again after an Ok returns NoChange and touches nothing. |
| `ConfigMerge.LegacySurvivesIff` | crates/amore-core/src/ide_adapter.rs:109-147 | The legacy entry survives if and only if the current entry was already registered as wanted. |
| `KeyPinning.KeyVault.Pin` | crates/amore-core/src/wal.rs:150-160 | Write-then-rename leaves the old fingerprint or the new one. |
| `KeyPinning.KeyVault.LoadOrCreateMachineKey` | crates/amore-core/src/wal.rs:231-268 | The branches on keyring and fingerprint, with every failing access, match the specified transition. |
| `KeyPinning.LoadOrCreate` | crates/amore-core/src/wal.rs:195-268 | Succeeds if and only if there is a key, in the keyring or generated on a first run and stored, that has the pinned fingerprint or can be pinned; then keyring and fingerprint are that key's. Which error each other case ends with, and that a failure changes at most a first keyring entry and the temporary file. |
| `KeyPinning.StepPins` | crates/amore-core/src/wal.rs:171-268 | An open never changes a fingerprint that is there, and a successful one leaves its own. |
| `KeyPinning.OneFingerprint` | crates/amore-core/src/wal.rs:171-268 | Over any run of opens, crashes and outside keyring edits, all successful opens use keys with one fingerprint. |
| `KeyPinning.TagsSurviveReopening` | crates/amore-core/src/wal.rs:115-121 | So, unless two fingerprints collide, a tag made under one successful open verifies under every later one. |
| `KeyPinning.CutFirstOpenRecovers` | crates/amore-core/src/wal.rs:238-253 | An open cut between keyring write and fingerprint write is completed by the next one with the same key. |
| `KeyPinning.OpensIffKeyMatches` | crates/amore-core/src/wal.rs:195-217 | Once pinned, an open succeeds if and only if the keyring holds a key with that fingerprint. |
| `CivilDate.YearOfEraIs` | crates/amore-eval/src/bin/benchmark.rs:174 | The correction terms of the year quotient count exactly the leap days of the era. |
| `CivilDate.DayWithinYear` | crates/amore-eval/src/bin/benchmark.rs:174-176 | The day lies inside the year found, so the unsigned subtraction for the day of the year cannot underflow. |
| `CivilDate.NumberOfDate` | crates/amore-eval/src/bin/benchmark.rs:170-182 | Every 64-bit day number is turned into a date of the Gregorian calendar; it is from 1970 on and has that many days before it if and only if the 64-bit sum does not come round. |
| `CivilDate.ClockDaysFit` | crates/amore-eval/src/bin/benchmark.rs:165-166 | No number of seconds makes it come round. |
| `CivilDate.DateOfNumber` | crates/amore-eval/src/bin/benchmark.rs:170-182 | Every date from 1970 on whose number leaves room for that sum is the result for exactly its own number. |
| `CivilDate.ConsecutiveDays` | crates/amore-eval/src/bin/benchmark.rs:170-182 | Consecutive day numbers give consecutive dates if and only if the 64-bit sum does not come round between them. |
| `RankFusion.RrfFuse` | crates/amore-core/src/recall.rs:364-411 | Whatever order the map yields, the result is a ranking: the best min(top_k, distinct ids) documents, each once, non-increasing, none omitted with a better score, each with the sum of its contributions from both lanes and the first hit of the vector lane or else of the other. |
| `RankFusion.FusedCarries` | crates/amore-core/src/recall.rs:333-395 | A result has payload, text and source of the first vector hit for its document (text and source empty where the payload has none); only without one, text and source of the first BM25 hit, with a payload of just these two. |
| `RankFusion.AddKeeps` | crates/amore-core/src/recall.rs:371-393 | One accumulation step keeps scores and first hits of everything read so far. |
| `RankFusion.BothAgainstSingle` | crates/amore-core/src/recall.rs:355-359 | A document at ranks a and b of the lanes beats one at rank c of one lane if and only if (60+a)(60+b) < (60+c)(120+a+b). |
| `RankFusion.BothBeatAnySingle` | crates/amore-core/src/recall.rs:355-359 | If a*b < 3600 it beats every document of a single lane. |
| `RankFusion.FirstSixtyOfBothWin` | crates/amore-core/src/recall.rs:27 | In particular in the first 60 of both lanes. |
| `RankFusion.SixtyIsTight` | crates/amore-core/src/recall.rs:27 | The first document of a lane is at least as good if and only if a*b >= 3600; at rank 60 of both they tie. |
| `RankFusion.SingleLanePassesThrough` | crates/amore-core/src/recall.rs:197-201 | When one lane is empty the ranking is the order of the other. |
| `RateBucket.TokenBucket.constructor` | crates/amore-mcp/src/grpc.rs:54-63 | A new bucket is full. |
| `RateBucket.TokenBucket.TryConsume` | crates/amore-mcp/src/grpc.rs:67-80 | Accepts exactly when a refilled token is there and takes it; otherwise returns the hint; the token count stays in range. |
| `RateBucket.CallTakesOne` | crates/amore-mcp/src/grpc.rs:67-80 | A call finds the tokens the last one left and rate/60000 for each whole millisecond since, cut at the rate, and takes one if there is one. |
| `RateBucket.TokensInRange` | crates/amore-mcp/src/grpc.rs:67-80 | Over every run the tokens stay between zero and the maximum. |
| `RateBucket.WindowBound` | crates/amore-mcp/src/grpc.rs:67-80 | In any stretch of any run the accepted calls are at most the full bucket plus what the stretch refills. |
| `RateBucket.MinuteBound` | crates/amore-mcp/src/grpc.rs:54-63 | No minute holds more than twice the configured rate. |
| `RateBucket.MinuteBoundReached` | crates/amore-mcp/src/grpc.rs:54-63 | A run in which a minute holds exactly twice the rate. |
| `RateBucket.HintIsKept` | crates/amore-mcp/src/grpc.rs:75-79 | After a refusal with hint w, at most 60, a next call at least w seconds later is accepted and one at most w-1 seconds later is refused. |
| `RateBucket.ZeroRateRefusesAll` | crates/amore-mcp/src/grpc.rs:75-79 | A rate of zero refuses every call, with the largest number as hint. |
| `RateBucket.AcceptedOnceCounted` | crates/amore-mcp/src/grpc.rs:69-72 | A caller that keeps calling is accepted exactly when the whole milliseconds of its gaps have brought a token. |
| `RateBucket.ImpatientCallerStarves` | crates/amore-mcp/src/grpc.rs:69-71 | Calls less than a millisecond apart are refused for ever once one was refused. |
| `RecallCache.KeyTextInjective` | crates/amore-core/src/cache.rs:77-80 | Different (query, top_k) pairs have different key texts, whatever colons and digits a query contains. |
| `RecallCache.KeyTextReads` | crates/amore-core/src/cache.rs:77-80 | The key text is the query, a colon and the count in digits without leading zeros. |
| `RecallCache.TwoLevelCache.GetHits` | crates/amore-core/src/cache.rs:97-123 | Memory first, then disk; an answer is in memory afterwards, and nothing else changes; a disk error or unreadable entry is a miss. |
| `RecallCache.TwoLevelCache.PutHits` | crates/amore-core/src/cache.rs:130-138 | Memory always, so that the next lookup needs no disk; disk when the write works. |
| `RecallCache.TwoLevelCache.InvalidateBoth` | crates/amore-core/src/cache.rs:146-153 | Memory is emptied first; Ok exactly when disk was emptied and flushed. |
| `RecallCache.TwoLevelCache.InvalidateL1All` | crates/amore-core/src/cache.rs:186-188 | Only memory is emptied. |
| `RecallCache.RunRepresents` | crates/amore-core/src/cache.rs:97-153 | While disk accesses work, disk represents the plain map and contains memory after any run. |
| `RecallCache.AnswersLikePlainMap` | crates/amore-core/src/cache.rs:97-153 | So the cache answers like a map from (query, top_k) to the last value put, whatever memory loses. |
| `RecallCache.ExpiryIsInvisible` | crates/amore-core/src/cache.rs:95-123 | Expiry in memory never changes an answer. |
| `RecallCache.AnswersComeFromPuts` | crates/amore-core/src/cache.rs:97-153 | Whatever disk accesses fail, an answer is a value put for that very query and count since both layers were last emptied. |
| `RecallCache.FailedPutIsForgotten` | crates/amore-core/src/cache.rs:130-138 | After a failed disk write and an eviction the answer is the new value if and only if disk already held it; otherwise an older value comes back. |
| `RecallCache.FailedInvalidationStillAnswers` | crates/amore-core/src/cache.rs:146-153 | After an invalidation that gave up part-way, exactly the entries not removed from disk are still answered. |
| `RecallCache.LatePromotion` | crates/amore-core/src/cache.rs:97-118 | A lookup that overlaps other calls leaves the cache answering like the plain map, for every query in use, if and only if the last of those calls that put or invalidated its entry put the value it had read; no other entry is affected. |
| `RecallCache.PlainIffSettled` | crates/amore-core/src/cache.rs:130-153 | That condition on the overlapping calls says exactly that the plain map still has the value read. |
| `RecallCache.InvalidationCanBeUndone` | crates/amore-core/src/cache.rs:97-153 | A concrete lookup that brings back an entry after both layers were emptied. |
| `RecallCache.HalvesArePut` | crates/amore-core/src/cache.rs:130-138 | The memory insert and the disk write of a put, with nothing in between, are the put. |
| `RecallCache.OverlappingPuts` | crates/amore-core/src/cache.rs:130-138 | Puts whose halves come in any order: memory answers with the last value it was given, disk with the last it was given, and losing the memory entry is invisible if and only if those agree. |
| `RecallCache.TwoPutsDisagree` | crates/amore-core/src/cache.rs:130-138 | An order of the halves of two puts after which the answer goes back when memory drops the entry. |

## Left out

- IngestModel.AtLeastOnce: holds while the sequence counter is below 2^64 - 1, because the counter wraps there; `WrapLosesRecord` gives a failing case.
- IngestModel.RecoveryDeliversAll: recovery runs once in a lifetime and ends before the consumer takes its first record, as its documentation asks of the caller; `OverlapBearsAcknowledged` shows why.
- StreamingIngest.Pipeline.RecoverOnStartup: runs without submissions in between and is not called again after an error; the machine has the submissions. The source would also take a second call, and a call while the consumer already takes records.
- JsonScan.PrintedObjectExtracted: the digits of a number are any bytes that numbers are made of, which admits more texts than the grammar.
- KeyPinning.TagsSurviveReopening: assumes that the two keys in question do not share a truncated fingerprint, which the code cannot rule out.
- KeyPinning: two processes that open the log for the first time at the same moment.
- Provenance and ObservationStore: building canonical JSON, and generating ids from the clock; both are arguments.
- ObservationStore: the text that goes into the full-text index is an argument, and so is the query side.
- AtomicWrite.GoodContentKept: nobody else edits the files between runs.
- AtomicWrite.WriteAtomic: access control lists and file modes are reduced to whether setting them works.
- ConfigMerge: JSON numbers and text are atoms; the order of keys in the printed text is the printer's. The YAML and command-line variants of the merge.
- CivilDate: the clock, the time of day and the formatting around the date.
- RankFusion and RateBucket: floating-point rounding; scores and tokens are reals.
- RankFusion: how ids of the two lanes come to match; documents are compared by an abstract id.
- RecallCache.AnswersLikePlainMap: for calls that do not overlap; what an overlapping lookup does is stated by `LatePromotion`, and what overlapping puts do by `OverlappingPuts`.
- RecallCache: a crash that loses unflushed disk entries, the size limits of both layers, and cuts of the hash that collide.
- StreamingIngest: `flush`, which waits for the queue only, and the production downstream, which is an abstract log here.
- The vote tally of the ensemble: a sum and a maximum, easy over reals.
- Compaction of the log and of the observations table, the vector and full-text search engines, the reranker.
- The cryptographic primitives, sled, SQLite, serde and the task scheduler.
- Installers, updater, tray, wizard, web pages, metrics, transport and command-line parsing.
