# Verified models of the panel's stateful cores

The repository is a Go panel with Python acceptance scripts. Most of it is wiring; a few
cores carry state, protocols or arithmetic that must be right at every crash point and in
every interleaving. This project models those cores and proves what they promise. Check it
with `dafny verify dfyconfig.toml`.

The database appears as maps and sequences of rows. A DDL statement is an atomic step, a
transaction is all or nothing, and code that updates state in place is a class whose methods
are proved against a function of the old state; the laws are then lemmas about that function.

## The models

* **Hourly usage projection.** `UsageLedger` is the billing ledger, the queue of intents and
  the grouping of a rebuild; `HourlyProjection` is the machine of settling, growing a minute
  row, consuming intents, stopping, losing the table and recovering it; `HourlyStore` is the
  code as a class, with 64-bit column overflow. A serving table always holds exactly the ledger
  minus what the queue still owes.
* **Streaming redaction.** `Redaction` is search and replacement with an independent notion of
  a clean cut; `CopyRedacted` is the chunked copier; `RunSecrets` merges, as the script does, the
  secrets of two connection strings: up to four, the longest first, two possibly equally long.
  Three promises are false for some secrets, and each gets its condition.
  1. No secret is ever emitted in two parts: `SecretChains.NeverSplitExactly`, for any number of
     secrets. No chain of secrets, each starting strictly inside the one before and ending later,
     may span more than the longest secret.
  2. The chunking never decides which bytes are replaced by which secret:
     `MaskExact.SameSecretsExactly`, for any number of secrets. In every chain that spans more, the
     last secret must yield its bytes to an earlier one. `Masking` gives each secret a mark of its own.
  3. The output is always the replacement of the whole input: `ChainsRead.SameOutputChains`, for any
     number of secrets whose later ones are apart from the marker. Where a cut divides a replaced
     secret at the end of such a chain, the two parts must read like the whole.
     `OutputExact.SameOutputExactly` needs no chains and no hypothesis about the marker for one or two
     secrets in the order of the script, equally long ones and the marker itself included.
  The second condition implies the third (`MaskRender.SameSecretsSameOutput`), but not conversely:
  `Coincidence.SameOutputOtherSecrets` is a family of three secrets whose output is the same for all
  streams although the chunking decides what is replaced, because what is found in the parts of a
  split secret comes out as the same markers. Two connection strings give such secrets
  (`RunSecrets.RunCoincides`). Where a later secret can overlap the marker the chains are needed, but
  already for two secrets they do not suffice (`MarkerShows`). `SameOutputExactly` decides that case for
  two; for three or four, what is proved is that every single cut must read like the whole
  (`OutputShows.OneCutDecides`, an equivalence for all secrets).

  `ReplaceFacts` holds the laws of replacement; `OutputShows`, `OverlapShows`, `MarkerShows` and
  `SecretShows` build, for each overlap excluded, two reads that come out differently (`MarkerSwap`
  shows that rewriting around a marker cannot restore it). The pipe may deliver any non-empty reads.
  `FullStreams` shows that the conditions are the same when every read but the last is full, as with
  the script's buffered pipes, from a read size of two (or, for the output, eight) times the longest
  secret on; `RunSecrets` states this for reads of 65536. `ChunkingMatters` is a two-byte example.
* **Batch SQL metrics.** `BatchCollector` is the machine of one collector's locked steps,
  `BatchMetrics` the totals and the 64-slot ring, `BatchCallbacks` the statement callbacks, and
  `BatchRace` all collectors of a process at once, where each locked step, each seal and each
  publication is a turn of its own.
  A late invalidation still flips the flag inside a sealed collector, but never its published
  copy.
* **Foreign-key retargeting.** `SubjectSchema` plans the DDL of a column from the keys it finds
  and follows whole runs statement by statement; `SubjectMigration` is the code as a class whose
  server may refuse any statement.
* **Credential delivery recovery.** `DeliveryTables` and `CredentialRecovery` are the replay of
  manifests, `DeliveryRecovery` the paged scan and the transaction, `RecoveryRace` the scan while
  publishers commit between its pages, visits and locks. That a second pass over manifests that
  share nothing is idle is false: the code compares counts, and rows of other keys can make them
  agree. `SecondPass` gives the exact condition on any tables (`SecondPassIdleAlways`), a history
  of publications that makes the second pass write (`PublicationsDefeatSecondPass`), and the
  reason why it is rare: it takes a node that confirmed one configuration hash for two different
  sets of keys. Without such a hash, idle and sharing nothing are equivalent after every history
  (`SecondPassAfterHistory`).
* **Smaller cores.** `TestPlan` and `TestResults` (test partition, groups and their receipts),
  `TableCopy` (bounded batches), `MaintenanceCache` (the cached maintenance state under concurrent
  readers and writers), `IndexBudget` (index drops), `RaceAcceptor` (race-test events),
  `LoadMetrics` (histogram percentiles), `ScheduleMerge` (merged runtime rows). `Order` and `Names`
  are the ascending enumerations of finite sets that ORDER BY and sorting stand for.

Where code and comment differ, the code is followed. The maintenance cache stamps a value after
its query, so "cached for one second" holds from the stamp. Measured from the read, every value
served is younger than the TTL and the query's five-second deadline together, and
`ReadCanBeOlder` comes within a millisecond of that bound. The rollback check trusts the recovery
check; that is sound in every run where a lost table is recovered before the worker consumes again,
and `DrainBeforeRecoveryHidesLoss` shows the state that would deceive it otherwise.

## Model

| member | source | states |
|---|---|---|
| UsageLedger.RowSplits | backend/internal/datastore/native_settlement_hourly.go:35-56 | a ledger row is exactly what the rebuild counts of it plus what its intent still owes; a row without counted records contributes nothing |
| UsageLedger.SameKeyExactly | backend/internal/datastore/native_settlement_hourly.go:35-57 | two rows share a bucket exactly when they lie in one clock hour and agree in every dimension, null standing for zero |
| UsageLedger.CountedExactly | backend/internal/adapters/persistence/meteringstore/native_settlement.go:48-53 | a report without a positive count stands for one report |
| UsageLedger.BucketPlusOwedIsLedger | backend/internal/datastore/native_settlement_hourly.go:35-56 | for every bucket, rebuilt total plus pending deltas equals the ledger sum |
| UsageLedger.EmptyQueueProjectsGroupBy | backend/internal/datastore/native_settlement_hourly.go:12-57 | with nothing pending the rebuild is the plain group-by of the ledger |
| HourlyProjection.SettleEventKeeps | backend/internal/adapters/persistence/meteringstore/usage_projection_pending.go:21-81 | a newly settled row with its intent keeps the queue well formed and the table exact |
| HourlyProjection.SettleMinuteKeeps | backend/internal/adapters/persistence/meteringstore/native_settlement.go:85-138 | growing a minute row and its delta keeps the queue well formed and the table exact |
| HourlyProjection.SameMinuteExactly | backend/internal/adapters/persistence/meteringstore/native_settlement.go:85-138 | a report meets its minute row exactly when all but the amounts agree |
| HourlyProjection.DrainKeeps | backend/internal/adapters/persistence/meteringstore/usage_projection_pending.go:96-171 | consuming any set of intents keeps the table exactly the projection of what is left |
| HourlyProjection.DrainedWithoutTable | backend/internal/adapters/persistence/meteringstore/usage_projection_pending.go:96-171 | without a table a batch is consumed exactly when none of its rows owes hourly amounts |
| HourlyProjection.RebuildThenDrainIsGroupBy | backend/internal/datastore/mysql_traffic_hourly.go:131-138 | a rebuild and then draining in any batches and order gives the full group-by, never counting an intent twice |
| HourlyProjection.NeedsRecoveryExactly | backend/internal/datastore/mysql_traffic_hourly.go:98-123 | recovery is asked for exactly when the table is missing, or empty while a rebuild would not be |
| HourlyProjection.EveryRunAgreesWithLedger | backend/internal/datastore/native_settlement_hourly.go:9-56 | over every run of settling, growing, consuming, stopping, losing and recovering, each served bucket plus its pending deltas is the ledger sum |
| HourlyProjection.RollbackAdmittedExactlyWhenExact | backend/internal/datastore/hourly_projection_schema.go:173-194 | after every such run rollback is admitted exactly when the queue is empty and the table is the ledger's group-by |
| HourlyProjection.DrainBeforeRecoveryHidesLoss | backend/internal/datastore/mysql_traffic_hourly.go:98-123 | the concrete state in which consuming before recovering hides a loss from the check |
| HourlyStore.AddTrafficHourly | backend/internal/adapters/persistence/meteringstore/traffic_hourly_write.go:32-94 | succeeds exactly when no group or bucket leaves 64 bits, and then adds to each bucket the sum of its rows and to no other |
| HourlyStore.SoundBatchIsAccepted | backend/internal/adapters/persistence/meteringstore/usage_projection_pending.go:96-171 | the worker's validation never rejects a batch of a well-formed queue |
| HourlyStore.OwedRecordsSum | backend/internal/adapters/persistence/meteringstore/usage_projection_pending.go:96-171 | the rows the worker builds sum to what the intents owe |
| HourlyStore.UpsertIsDrained | backend/internal/adapters/persistence/meteringstore/usage_projection_pending.go:96-171 | grouping and upserting a batch is the abstract consumption of its intents |
| HourlyStore.UsageStore.RecordEvent | backend/internal/adapters/persistence/meteringstore/usage_projection_pending.go:21-81 | inserts the row and its intent |
| HourlyStore.UsageStore.RecordMinute | backend/internal/adapters/persistence/meteringstore/native_settlement.go:59-158 | inserts or grows the minute row and its delta, or fails on overflow; keeps the table exact |
| HourlyStore.UsageStore.Drain | backend/internal/adapters/persistence/meteringstore/usage_projection_pending.go:96-171 | on success as many intents as the limit allows have left the queue, none of them above one that stays, and what they owed is in the table; on failure nothing changed |
| HourlyStore.BatchIsOldest | backend/internal/adapters/persistence/meteringstore/usage_projection_pending.go:107 | the batch is the oldest intents, the whole queue or as many as the limit |
| HourlyStore.RepeatedDrainsEmpty | backend/internal/adapters/persistence/meteringstore/usage_projection_pending.go:96-171 | each successful call shortens the queue by a full batch or empties it; enough of them leave no intent and an exact table is then the group-by of the ledger |
| HourlyStore.DrainSucceeds | backend/internal/adapters/persistence/meteringstore/usage_projection_pending.go:96-171 | on an exact table of a ledger without negative amounts and with 64-bit sums, a call succeeds exactly for the limits 1 to 200, unless another effect of the batch fails |
| HourlyStore.WorkerAcceptsExactly | backend/internal/adapters/persistence/meteringstore/usage_projection_pending.go:112-147 | which queue rows the worker takes for their source rows, field by field |
| HourlyStore.UsageStore.Rebuild | backend/internal/datastore/native_settlement_hourly.go:12-57 | replaces the table by the projection, or fails on overflow; the queue is never touched |
| HourlyStore.UsageStore.Recover | backend/internal/datastore/hourly_projection_schema.go:68-154 | rebuilds exactly when recovery is needed; fails exactly when that rebuild leaves 64 bits |
| HourlyStore.UsageStore.PrepareRollback | backend/internal/datastore/hourly_projection_schema.go:156-194 | admits a recorded, drained, exact projection and nothing else |
| Redaction.Find | scripts/acceptance-development.py:112-117 | the first occurrence at or after the start, or none |
| Redaction.ReplaceSplits | scripts/acceptance-development.py:118-121 | across a cut inside no occurrence, replacing the whole is replacing the parts |
| Redaction.ReplaceKeepsClear | scripts/acceptance-development.py:119-120 | replacing one secret brings no other secret across the cut if that secret cannot overlap the marker |
| CopyRedacted.SegmentsConcatenate | scripts/acceptance-development.py:99-125 | for any secrets and reads, the emitted pieces are the bytes read, in order |
| CopyRedacted.SettleCut | scripts/acceptance-development.py:105-117 | the fix-point loop ends at the least clean cut at or after its start: no occurrence in the pending text is split |
| CopyRedacted.CutSplitsNothing | scripts/acceptance-development.py:105-118 | for secrets without common borders the settled cut splits no occurrence of the whole stream either |
| CopyRedacted.BorderFreeIsIntact | scripts/acceptance-development.py:99-125 | such secrets are never split, however the stream is chunked |
| SecretChains.NeverSplitExactly | scripts/acceptance-development.py:99-125 | for any number of secrets, no stream is ever split if and only if no chain of secrets, each starting inside the one before, spans more than the longest secret |
| SecretChains.LongChainIsShort | scripts/acceptance-development.py:99-125 | chains of less than twice the longest secret decide that condition |
| SecretChains.NeverSplitInFullReads | scripts/acceptance-development.py:99-104 | with full reads of at least twice the longest secret the condition is the same |
| SecretChains.TwoShortChains | scripts/acceptance-development.py:99-125 | for one or two secrets it says that no proper suffix of a secret is a proper prefix of a secret |
| CopyRedacted.IntactRedactsWhole | scripts/acceptance-development.py:118-121 | unsplit pieces, redacted one by one, are the redaction of the whole input |
| CopyRedacted.StreamingIsWholeReplacement | scripts/acceptance-development.py:99-125 | for any number of border-free, marker-safe secrets the output is the sequential replacement on the whole input, for every chunking (one direction; the weaker condition is SameSecretsSameOutput) |
| OutputExact.SameOutputExactly | scripts/acceptance-development.py:90-125 | for at most two distinct secrets, the second not longer: the output is the replacement of the whole input for every chunking if and only if no secret overlaps itself, no end of the second begins the first, and the second is the marker or apart from it; if the first is the marker, the second neither overlaps itself nor begins with an end of the marker |
| Masking.MaskExpands | scripts/acceptance-development.py:118-120 | replacing with marks loses nothing: the masked text expands to the input |
| Masking.MaskSplits | scripts/acceptance-development.py:118-120 | masking the whole is masking the parts if and only if no replaced secret lies across |
| MaskExact.SameSecretsExactly | scripts/acceptance-development.py:99-125 | for any secrets, the chunking never decides which secrets are replaced if and only if in every chain longer than the longest secret the last one yields to an earlier one |
| MaskExact.SurvivorShows | scripts/acceptance-development.py:105-121 | a last secret that does not yield is split by some stream |
| MaskRender.OutputReads | scripts/acceptance-development.py:118-121 | for later secrets apart from the marker the output is the masked text with every mark written as the marker |
| MaskRender.SameSecretsSameOutput | scripts/acceptance-development.py:99-125 | such secrets whose long chains yield: the output is the replacement of the whole for every chunking |
| OutputShows.OneCutDecides | scripts/acceptance-development.py:99-125 | for any secrets, the output is the replacement of the whole for every stream if and only if every single cut leaves two parts that read like the whole |
| ChainsRead.SameOutputChains | scripts/acceptance-development.py:99-125 | for any secrets the output is the replacement of the whole only if every divided long chain reads like the whole, and if the later secrets are apart from the marker, if and only if |
| ChainsRead.YieldingRead | scripts/acceptance-development.py:105-121 | where the last secret of every long chain yields, no chain is divided: the second condition implies the third |
| Coincidence.SameOutputOtherSecrets | scripts/acceptance-development.py:99-125 | three secrets bab, ab, a: the output never depends on the chunking although the replaced secrets do |
| FullStreams.SameSecretsInFullReads | scripts/acceptance-development.py:99-104 | for fewer than 256 secrets the second equivalence holds for full reads of at least twice the longest secret |
| FullStreams.SameOutputInFullReads | scripts/acceptance-development.py:99-104 | for one or two secrets the output equivalence holds for full reads of at least eight times the longest secret |
| RunSecrets.MergeSecrets | scripts/acceptance-development.py:311-313 | the secrets of both connection strings, each once, the longest first |
| RunSecrets.PrivateShape | scripts/acceptance-development.py:311-313 | at most four secrets, none empty |
| RunSecrets.RunNeverSplitExactly | scripts/acceptance-development.py:311-343 | the first equivalence for every list a run can pass, for any reads and for full reads of 65536 |
| RunSecrets.RunSameSecretsExactly | scripts/acceptance-development.py:311-343 | the second equivalence for every list a run can pass, for any reads and for full reads |
| RunSecrets.RunSameOutput | scripts/acceptance-development.py:311-343 | the third equivalence for every list a run can pass whose later secrets are apart from the marker, and its needed half for all; for one or two secrets the output is the redaction of the whole if and only if they are transparent, with full reads too |
| RunSecrets.RunCoincides | scripts/acceptance-development.py:311-343 | two connection strings whose three secrets read the same for every chunking although it decides what is replaced |
| OutputExact.TwoSuffice | scripts/acceptance-development.py:99-125 | two transparent secrets: every chunking gives the replacement of the whole, although the end of the first may begin the second |
| OutputExact.TwoNeeded | scripts/acceptance-development.py:99-125 | of two secrets that are not transparent, some two reads of at most four times the longer come out differently |
| OutputShows.OneOverlapShows | scripts/acceptance-development.py:105-118 | for every secret that overlaps itself some two reads come out differently from the whole |
| OutputShows.PasswordOverlapShows | scripts/acceptance-development.py:105-118 | the same for a password that overlaps itself |
| OverlapShows.LongOverlapShows | scripts/acceptance-development.py:105-121 | the same for a longer secret that overlaps itself beside a password that does not begin with the end of the marker |
| SecretShows.LeadsShows | scripts/acceptance-development.py:105-121 | the same for a password whose end begins the longer secret |
| MarkerShows.EndsMarkerShows | scripts/acceptance-development.py:118-121 | the same for a password that begins with the end of the marker |
| MarkerShows.BeginsMarkerShows | scripts/acceptance-development.py:118-121 | the same for a password that ends with the start of the marker |
| MarkerShows.InnerMarkerShows | scripts/acceptance-development.py:118-121 | the same for a password that contains the marker |
| MarkerSwap.SwapDiffers | scripts/acceptance-development.py:118-121 | replacing a password after a marker was put in differs from replacing it in the parts of the secret the marker stands for |
| CopyRedacted.SecretsFor | scripts/acceptance-development.py:90-96 | at most two non-empty secrets, the connection string first and a shorter part of it second |
| CopyRedacted.SecretsForExactly | scripts/acceptance-development.py:90-96 | for every connection string: the second secret is what stands between the first colon and the last @tcp(, and there is none exactly when no such colon with something behind it exists |
| CopyRedacted.CopyRedacted | scripts/acceptance-development.py:99-125 | drains the pipe and appends exactly the redacted pieces; under either condition, the redacted whole |
| CopyRedacted.ChunkingMatters | scripts/acceptance-development.py:99-125 | the concrete self-overlapping secret for which the chunking shows in the output |
| BatchCollector.SealedIsFinal | backend/internal/batchsql/metrics.go:136-176 | after the seal nothing more is published and only the collector's own completeness flag can change |
| BatchCollector.PublishesAtMostOnce | backend/internal/batchsql/metrics.go:178-234 | in every interleaving exactly the first Finish publishes |
| BatchCollector.CountsAreSaturatedSums | backend/internal/batchsql/metrics.go:118-176 | each counter is the saturation of the exact sum of the observed counts |
| BatchCollector.PublishedSampleExactly | backend/internal/batchsql/metrics.go:136-210 | a published sample is complete if and only if every start before the seal was matched by an observe, nothing was invalidated, no sum left 64 bits and no callback failed |
| BatchCollector.PublishedReports | backend/internal/batchsql/metrics.go:178-210 | for every sequence of locked steps the published sample carries the start, the time of the first Finish, the outcome of that Finish in each of its three cases, and the saturated affected rows exactly when no write left them unknown |
| BatchCollector.CompleteSampleBalances | backend/internal/batchsql/metrics.go:136-210 | a complete sample has statements = reads + writes + unknown if every observed count has |
| BatchMetrics.Saturating | backend/internal/batchsql/metrics.go:118-125 | the saturated sum, and whether it was exact |
| BatchMetrics.AddCounts | backend/internal/batchsql/metrics.go:126-135 | pointwise saturated sums; valid exactly when none overflowed |
| BatchMetrics.ConfirmedAndUnconfirmed | backend/internal/batchsql/metrics.go:215-230 | every finished batch is committed or unknown |
| BatchMetrics.TallySnoc | backend/internal/batchsql/metrics.go:215-230 | one more sample: totals stay saturations of the exact history sums, complete exactly while all fit |
| BatchMetrics.CountSample | backend/internal/batchsql/metrics.go:215-230 | the counting code computes the tally of the longer history and numbers the sample |
| BatchMetrics.RingKeepsRecent | backend/internal/batchsql/metrics.go:231-234 | each of the last 64 samples is in its slot |
| BatchMetrics.SlotOf | backend/internal/batchsql/metrics.go:255-266 | the modular index names the slot of the i-th retained sample |
| BatchMetrics.RetainedNumbers | backend/internal/batchsql/metrics.go:212-215 | the retained samples carry the last consecutive sequence numbers, oldest first, without ties until the counter saturates |
| BatchMetrics.RingIndex | backend/internal/batchsql/metrics.go:255-266 | reading the ring by that index gives the last min(n, 64) samples, oldest first |
| BatchMetrics.Metrics.Configure | backend/internal/batchsql/metrics.go:92-101 | only the first call fixes the reset time and the failure count the health is measured from; the history stays |
| BatchMetrics.Metrics.Publish | backend/internal/batchsql/metrics.go:210-234 | appends one sample to the represented history, in which the i-th is number i + 1 (saturated); ring and totals follow |
| BatchMetrics.Metrics.ReadRing | backend/internal/batchsql/metrics.go:255-266 | keeps exactly the fresh samples in finishing order and the latest finish of all retained |
| BatchMetrics.Metrics.TakeSnapshot | backend/internal/batchsql/metrics.go:235-275 | totals of the full history and the fresh retained samples in rising number; the i-th of n retained among N is number N - n + i + 1; a bad freshness yields none |
| BatchMetrics.LatestFinishIsMaximum | backend/internal/batchsql/metrics.go:255-266 | the observed time is the maximum finish |
| BatchMetrics.FreshOnlyExactly | backend/internal/batchsql/metrics.go:255-266 | fresh are the samples that finished in the last freshness period, up to now |
| BatchMetrics.ElapsedCounts | backend/internal/batchsql/metrics.go:250 | the failures since a reset are counted across a wrap of the counter |
| BatchMetrics.Collector.FinishBatch | backend/internal/batchsql/metrics.go:178-234 | seals and publishes once when nothing comes between, with the sample that the collector's steps determine (what it carries is `PublishedReports`); a second call changes no history |
| BatchRace.EveryRacePublishesOnce | backend/internal/batchsql/metrics.go:136-234 | in every interleaving of all collectors, with seal and publication as separate steps, the history holds the one sample that each published collector's own steps determine, numbered in publication order, each once; a sealed collector is published or on its way |
| BatchRace.EveryPublishedSampleExactly | backend/internal/batchsql/metrics.go:136-234 | in every such interleaving a sample of the history is complete if and only if its collector's calls paired up, its sums fit and no callback of the process had failed since it began |
| BatchRace.EveryPublishedSampleReports | backend/internal/batchsql/metrics.go:136-234 | in every interleaving each sample of the history reports the one turn that sealed its collector: its time, its outcome and the affected rows |
| BatchRace.CompleteSawNoFailure | backend/internal/batchsql/metrics.go:136-234 | in every interleaving, between the begin and the seal of a complete sample's collector no callback of the process failed, short of as many as the counter has values |
| BatchRace.EveryRaceBalances | backend/internal/batchsql/callbacks.go:107-224 | and if it is complete, every statement in it is a read, a write or an unknown |
| BatchRace.SealedFirstToldSecond | backend/internal/batchsql/metrics.go:178-234 | a run in which two collectors publish in the other order than they sealed |
| BatchCallbacks.ClassifiedOnce | backend/internal/batchsql/callbacks.go:152-215 | every observed statement is counted as exactly one of read, write and unknown |
| BatchCallbacks.FirstWordDecides | backend/internal/batchsql/callbacks.go:164-185 | creates, updates and deletes are writes and queries reads; otherwise the first word in the first 32 characters decides, in any case of its letters |
| BatchCallbacks.ClassifiedShows | backend/internal/batchsql/callbacks.go:152-222 | each counter of one statement in terms of its kind, error, rows and arguments |
| BatchCallbacks.AfterEventsExactly | backend/internal/batchsql/callbacks.go:133-224 | a statement is observed exactly when it was paired and not dry, and what was not, had no text or overflowed its argument sums invalidates |
| BatchCallbacks.ArgumentsAdd | backend/internal/batchsql/callbacks.go:207-221 | text and blob arguments count by their lengths, all others one each |
| BatchCallbacks.BeganSteps | backend/internal/batchsql/callbacks.go:107-132 | a statement that is neither dry nor failed starts, any other one invalidates |
| BatchCallbacks.EndedSteps | backend/internal/batchsql/callbacks.go:133-224 | the end of a statement takes those steps on its collector and no other |
| BatchCallbacks.EveryBatchBalances | backend/internal/batchsql/callbacks.go:107-224 | however the locked steps of a batch's callbacks interleave with each other and with Finish, the first Finish publishes one sample, and if it is complete its statements are its reads, writes and unknowns |
| BatchCallbacks.Classify | backend/internal/batchsql/callbacks.go:152-222 | the counts of one statement, and whether its argument sums were exact |
| BatchCallbacks.CountArguments | backend/internal/batchsql/callbacks.go:204-219 | saturated byte and argument sums; exact when neither overflows |
| BatchCallbacks.Statement.Before | backend/internal/batchsql/callbacks.go:107-132 | a start, or an invalidation for dry runs and failed statements |
| BatchCallbacks.Statement.After | backend/internal/batchsql/callbacks.go:133-224 | pairs with its own start or invalidates; always consumes the pairing unless dry |
| SubjectSchema.PlanAdvances | backend/internal/datastore/account_subject_schema.go:209-255 | from every acceptable layout at most three DDL steps lead to exactly the canonical key, each leaving an acceptable layout with a key in force and a plan one shorter |
| SubjectSchema.AcceptableExactly | backend/internal/datastore/account_subject_schema.go:209-242 | the four layouts of keys that a run accepts, the last one only before the migration is recorded |
| SubjectSchema.EveryCrashResumes | backend/internal/datastore/account_subject_schema.go:209-255 | after any prefix of the plan the rest is what a rerun plans |
| SubjectSchema.EveryStoppedRun | backend/internal/datastore/account_subject_schema.go:59-95 | wherever a run over all columns stops, every key is true of the data, no column is without one, every value of a moved column is a subject, and the final state ahead is unchanged |
| SubjectSchema.RerunConverges | backend/internal/datastore/account_subject_schema.go:59-95 | after any number of runs, each stopped anywhere and in its own column order, a further run can start, the state holds, and a run that completes ends in the one final state |
| SubjectSchema.AlterCovered | backend/internal/datastore/account_subject_schema.go:257-281 | the values of a column are subjects before its key leaves users, though the ALTER checks nothing |
| SubjectSchema.FinishedValidates | backend/internal/datastore/account_subject_schema.go:105-179 | the final state passes the check exactly when no recorded schema lost a subject |
| SubjectSchema.ValidatesExactly | backend/internal/datastore/account_subject_schema.go:97-179 | any database passes the check exactly when all users are subjects and every visited column exists with keys that a recorded run accepts |
| SubjectSchema.ValidatedIsMoved | backend/internal/datastore/account_subject_schema.go:97-179 | in a database that passes no visited column has a key on users, each has one on the subjects, and all its values are subjects |
| SubjectSchema.KeyNames | backend/internal/datastore/account_subject_schema.go:183-215 | the names of a column's two keys, the eight historical ones included |
| SubjectSchema.AlteredExactly | backend/internal/datastore/account_subject_schema.go:216-255 | when the server takes each of the three statements, and the keys afterwards name by name |
| SubjectMigration.Migrator.Classify | backend/internal/datastore/account_subject_schema.go:226-242 | which owned keys exist, or a refusal of any other key |
| SubjectMigration.Migrator.ReconcileReference | backend/internal/datastore/account_subject_schema.go:209-255 | executes the plan as far as statements are taken; any unknown layout is refused unchanged |
| SubjectMigration.Migrator.Validate | backend/internal/datastore/account_subject_schema.go:97-179 | decides exactly the check of `ValidatesExactly`, column by column |
| SubjectMigration.Migrator.Reconcile | backend/internal/datastore/account_subject_schema.go:59-95 | every stop leaves a holding state; success leaves the final state; three statements a column suffice; a refused column ends the run with the columns before it moved, all others as they were and no receipt |
| DeliveryTables.ReplacedCarries | backend/internal/datastore/credential_delivery_schema.go:181-192 | after blanking and upserting exactly the items carry the node's hash, and other nodes keep what was not taken |
| CredentialRecovery.NeverLowers | backend/internal/datastore/credential_delivery_schema.go:158-180 | whatever a publisher committed before the lock, no recorded deployment is lowered |
| CredentialRecovery.AppliedExactly | backend/internal/datastore/credential_delivery_schema.go:157-212 | a writing transaction leaves exactly the manifest's targets and extant entries carrying the confirmed hash, with their details |
| CredentialRecovery.CompleteIsSettled | backend/internal/datastore/credential_delivery_schema.go:138-156 | the projection is the manifest if and only if the counts agree and no stale row is among those counted |
| CredentialRecovery.LatestExactly | backend/internal/datastore/credential_delivery_schema.go:228-236 | a deployment is a node's latest manifest exactly when it succeeded with a manifest and no later one of the node did |
| CredentialRecovery.SecondPassIdleExactly | backend/internal/datastore/credential_delivery_schema.go:128-213 | without stale rows a second pass writes nothing if and only if no two effective manifests share a credential or entry |
| CredentialRecovery.PassRebuilds | backend/internal/datastore/credential_delivery_schema.go:128-213 | over disjoint manifests and without stale rows, a pass rebuilds every effective one and a second pass is the identity |
| SecondPass.SecondPassIdleAlways | backend/internal/datastore/credential_delivery_schema.go:128-213 | on any tables, a second pass writes nothing if and only if no visit writes a row that an earlier visit counts on, read off the tables before the first pass; and every projection is then its manifest if and only if no visit is skipped for rows of other keys |
| SecondPass.HistoryLeavesNoStaleRows | backend/internal/adapters/persistence/networkstore/credential_delivery.go:15-57 | no order of publications and recoveries leaves a stale row of a hash that its node confirmed for one set of keys only |
| SecondPass.SecondPassAfterHistory | backend/internal/datastore/credential_delivery_schema.go:128-213 | after every such history from empty tables, a second pass writes nothing if and only if the visited manifests share nothing |
| SecondPass.PublicationsDefeatSecondPass | backend/internal/datastore/credential_delivery_schema.go:138-156 | five in-order publications on empty tables after which the latest manifests share nothing and the second pass still writes |
| DeliveryRecovery.NewerPublicationStands | backend/internal/datastore/credential_delivery_schema.go:158-180 | a newer publication committed between scan and lock is left as it is |
| DeliveryRecovery.PublicationsStand | backend/internal/datastore/credential_delivery_schema.go:157-212 | in every interleaving of recoveries and in-order publishers, what a publisher recorded for a node is never lowered by any later commit |
| DeliveryRecovery.LatestOfScans | backend/internal/datastore/credential_delivery_schema.go:227-261 | the scan lists each node's latest confirmed manifest once, in ascending order |
| DeliveryRecovery.ScanResumes | backend/internal/datastore/credential_delivery_schema.go:231-261 | restarting after the last visited id lists exactly the rest |
| DeliveryRecovery.SucceedsExactly | backend/internal/datastore/credential_delivery_schema.go:237-244 | the evidence suffices exactly when every latest manifest was confirmed under the 64-character hash that was asked for, has finished and lists each key once |
| DeliveryRecovery.UnsucceededChangeNothing | backend/internal/datastore/credential_delivery_schema.go:227-261 | removing the deployments that did not succeed changes neither the result of the scan nor any other row it leaves |
| DeliveryRecovery.PublishedShows | backend/internal/datastore/credential_delivery_schema.go:157-212 | a publication writes its targets and extant entries under its node and hash, records itself, and leaves all other rows |
| DeliveryRecovery.DeliveryDatabase.Apply | backend/internal/datastore/credential_delivery_schema.go:157-212 | the transaction's loops compute the applied store |
| DeliveryRecovery.DeliveryDatabase.VisitDeployment | backend/internal/datastore/credential_delivery_schema.go:128-211 | skip, or apply on whatever state a publisher left |
| DeliveryRecovery.DeliveryDatabase.Recover | backend/internal/datastore/credential_delivery_schema.go:227-261 | the pages together are one pass over all latest manifests (those of `LatestExactly`); success exactly when all have exact evidence (that of `SucceedsExactly`) |
| RecoveryRace.EveryScanCatchesUp | backend/internal/datastore/credential_delivery_schema.go:128-261 | in every interleaving of the paged scan with publishers, a scan that ends without failure leaves the record of every node at or above each deployment confirmed when it began |
| RecoveryRace.RecordsRise | backend/internal/datastore/credential_delivery_schema.go:157-212 | in every such run, from any point on, no node's record is lowered |
| RecoveryRace.EventRecords | backend/internal/datastore/credential_delivery_schema.go:157-212 | the transaction of a visit that is not overtaken settles its node at the visited manifest |
| RecoveryRace.FetchLists | backend/internal/datastore/credential_delivery_schema.go:231-236 | a page holds a node's latest manifest after the cursor, or is full and stops short of it |
| RecoveryRace.QuietRunIsRecover | backend/internal/datastore/credential_delivery_schema.go:128-261 | a run of that machine without publications ends like `Recover`: it fails exactly when that does and leaves the same database |
| RecoveryRace.QuietRunGoesOn | backend/internal/datastore/credential_delivery_schema.go:231-261 | and it can always take another step until it has ended |
| Names.SortedLists | scripts/mysql_profiles.py:131 | every member once, in lexicographic order |
| TestPlan.Partition | scripts/mysql_profiles.py:67-89 | succeeds exactly for a reviewed profile, and splits the inventory into two non-empty disjoint parts |
| TestPlan.ValidProfileExactly | scripts/mysql_profiles.py:67-89 | a profile is accepted exactly for version 1 and reviewed, known, distinct entries that leave a test unlisted |
| TestPlan.ReviewedExactly | scripts/mysql_profiles.py:76-80 | an entry is reviewed when its package is a path of the module, its name a test name, and its reason and scale hold more than blanks |
| TestPlan.TestNameExactly | scripts/mysql_profiles.py:15 | a test name is Test and at least one letter, digit or underscore, nothing else behind it |
| TestPlan.InventoryIsClosed | scripts/mysql_profiles.py:97-109 | no test of the module that a group's names could reach escapes the inventory |
| TestPlan.InventoryExactly | scripts/mysql_profiles.py:97-109 | every test whose name holds MySQL, every test with a listed name and every test of the jobs package is planned, and no other |
| TestPlan.BatchSound | scripts/mysql_profiles.py:128-136 | a batch of at most 32 names of a package selects exactly its own tests |
| TestPlan.ActualExactly | scripts/mysql_profiles.py:119-125 | a suite's names and packages select its tests and exactly the re-added ones |
| TestPlan.CollidesExactly | scripts/mysql_profiles.py:111-127 | a selection collides exactly when it leaves out a test of a package it selects from whose name it selects in the same suite |
| TestPlan.SplitPackage | scripts/mysql_profiles.py:128-136 | an oversized package is covered by its batches, each test once |
| TestPlan.GroupSuite | scripts/mysql_profiles.py:114-138 | one suite is covered, by one group unless a package is oversized, or refused exactly on a collision |
| TestPlan.Groups | scripts/mysql_profiles.py:111-139 | fails exactly when a shared name re-adds an unselected test; otherwise sound groups partition the selection, one for each suite unless a package is oversized |
| TestPlan.CoveredIsSelection | scripts/mysql_profiles.py:136-139 | the final coverage check never fails on such groups |
| TestPlan.PlanRunsOnce | scripts/mysql_profiles.py:111-139 | every selected test is run by exactly one invocation and no other test of the module is run |
| TestPlan.PlanKeepsApart | scripts/mysql_profiles.py:111-138 | no invocation runs the jobs or the copy beside another package, nor more than 32 tests of a package |
| TestPlan.BuildPlan | scripts/mysql_profiles.py:288-318 | a plan exists exactly when profile, inventory and selections admit it; the full plan covers the whole inventory |
| TestPlan.PlannableExactly | scripts/mysql_profiles.py:288-318 | which inventories, profiles and choices admit a plan: the valid profile, the six packages and no collision in a chosen part |
| TestPlan.ChosenExactly | scripts/mysql_profiles.py:88-90 | the core choice takes the unlisted tests, the extended one the listed, the full one both |
| TestResults.RecordReadable | scripts/mysql_profiles.py:142-155 | the summary raises exactly on a foreign or repeated terminal result |
| TestResults.ReadableExactly | scripts/mysql_profiles.py:42-45 | a log is unreadable exactly when a top-level result lies outside the module or two of them share package and name |
| TestResults.EndedExactly | scripts/mysql_profiles.py:150-155 | which events end which test |
| TestResults.ResultSummary | scripts/mysql_profiles.py:142-161 | raises exactly for unreadable events; passes, skips, failures, missing and unexpected tests are those of the events; complete if and only if every expected test ended once with a pass, nothing else ended and nothing was skipped or failed |
| TestResults.CompletePlanPassesAll | scripts/mysql_profiles.py:142-161 | if all groups are complete, each planned test passed in exactly one log by exactly one event |
| TableCopy.Target.Append | backend/internal/datastore/database_copy.go:275-293 | one row: flush before it does not fit, append, flush when full |
| TableCopy.Target.CopyTableRows | backend/internal/datastore/database_copy.go:214-312 | on success the batches concatenate to the converted rows in order, each within 200 rows and, unless a single row, 4 MiB, and none ends early; success exactly if all rows convert, no insert is refused (and one is only when the capacity is used up) and the counts agree, so exactly if the target was empty |
| TableCopy.BatchingUnique | backend/internal/datastore/database_copy.go:275-299 | the rows and the two bounds leave one way to batch, so the rules above determine every batch written |
| TableCopy.BatchBounds | backend/internal/datastore/database_copy.go:275-299 | every insert carries 1 to 200 rows, more than 4194304 bytes only in a single one, and ends only because one more would break a bound |
| TableCopy.SmallRowsSmallBatches | backend/internal/datastore/database_copy.go:275-281 | rows within the byte bound never make a batch over it |
| MaintenanceCache.StepKeepsSound | backend/internal/application/maintenance.go:20-51 | every locked step keeps cache and running query at or above each invalidated and acknowledged write |
| MaintenanceCache.EveryRunIsHonest | backend/internal/application/maintenance.go:20-85 | in every interleaving each returned value is the store's own, at least as new as every acknowledged write, with a stamp younger than the TTL and a read younger than the TTL and the query's deadline together |
| MaintenanceCache.EveryReturnIsNew | backend/internal/application/maintenance.go:20-85 | over whole runs, whatever is returned after an acknowledgement is at least as new as the acknowledged write |
| MaintenanceCache.AcknowledgedPauseHolds | backend/internal/application/maintenance.go:45-85 | once an enabling write is acknowledged and not undone, no call lets work go on |
| MaintenanceCache.ReadCanBeOlder | backend/internal/application/maintenance.go:34-43 | a run in which a value is served one millisecond short of that bound after it was read |
| MaintenanceCache.YoungFromReadExactly | backend/internal/application/maintenance.go:31-43 | after any run with a fresh entry, and whatever follows while the entry stays, every value served from it is younger than the TTL from its read if and only if the entry was stamped in the millisecond of its read |
| MaintenanceCache.CalledAsks | backend/internal/application/maintenance.go:34-43 | the machine's three steps of an uninterrupted query: nothing but the time changes for a cancelled caller; otherwise the answer, or the error of the deadline, is cached and returned |
| MaintenanceCache.Services.MaintenanceState | backend/internal/application/maintenance.go:25-44 | the state is that of the machine's steps for the call; cached while fresh and unforced, otherwise asked, errors too, unless the context ended |
| MaintenanceCache.Services.IsPaused | backend/internal/application/maintenance.go:45-51 | work goes on exactly when the process is ready and the state was read without error as disabled; the state is that of the call, if any |
| MaintenanceCache.PausedExactly | backend/internal/application/maintenance.go:45-51 | a process that is not ready is paused, and one that is ready exactly unless it read the switch as off |
| MaintenanceCache.Services.Write | backend/internal/application/maintenance.go:58-85 | a write that commits is the machine's commit, invalidation and acknowledgement, and one that does not changes nothing |
| IndexBudget.ListedOnce | backend/internal/datastore/metering_index_budget.go:17-35 | every name of the budget belongs to one policy |
| IndexBudget.ReplacementSurvives | backend/internal/datastore/metering_index_budget.go:17-35 | a replacement extends what it replaces and is no policy's own shape |
| IndexBudget.DroppedStayCovered | backend/internal/datastore/metering_index_budget.go:54-104 | no unique index is dropped, and an index to be replaced is a column prefix of one the pass keeps, SQLite's time index included |
| IndexBudget.TimeIndexExactly | backend/internal/datastore/metering_index_budget.go:55-65 | which index serves as SQLite's time cursor: the first of three names with a plain index on the time |
| IndexBudget.AdmittedExactly | backend/internal/datastore/metering_index_budget.go:71-90 | a listed index is admitted exactly with the budget's plain shape and, unless it is the cursor or needs none, a replacement that exists |
| IndexBudget.DropsExactly | backend/internal/datastore/metering_index_budget.go:66-93 | dropped is every existing index that a policy lists, the cursor excepted |
| IndexBudget.RerunFinishes | backend/internal/datastore/metering_index_budget.go:42-104 | after any part of the drops the rest of the plan is acceptable and exactly what was left |
| IndexBudget.SecondPassDropsNothing | backend/internal/datastore/metering_index_budget.go:42-104 | a second pass has nothing to drop and no complaint |
| IndexBudget.StoppedPassConverges | backend/internal/datastore/metering_index_budget.go:42-104 | a stopped pass and its rerun end where one pass ends |
| IndexBudget.Plan | backend/internal/datastore/metering_index_budget.go:66-93 | refuses exactly a contradicting inventory; otherwise exactly the names to drop, each once |
| IndexBudget.MeteringDatabase.ReconcileTable | backend/internal/datastore/metering_index_budget.go:43-122 | succeeds exactly when the inventory is acceptable and the server takes the statements, one for each index on SQLite and a single one on MySQL; success drops the plan, a refused table is untouched, MySQL drops all or nothing |
| IndexBudget.MeteringDatabase.Reconcile | backend/internal/datastore/metering_index_budget.go:42-124 | the same for both tables in turn; success exactly when both are acceptable and all statements are taken |
| RaceAcceptor.NextIsAccepted | scripts/acceptance-concurrency-race.py:156-162 | a row takes exactly the next event of a series of runs and ends in turn, so every one on the way to three passes |
| RaceAcceptor.PassedExactly | scripts/acceptance-concurrency-race.py:163 | a row is passed exactly when its events are run, pass, three times over |
| RaceAcceptor.SeriesGrows | scripts/acceptance-concurrency-race.py:139-162 | a row grows by exactly the runs, passes, skips and fails of the test itself |
| RaceAcceptor.AllowedExactly | scripts/acceptance-concurrency-race.py:134-158 | which events are tolerated |
| RaceAcceptor.Observe | scripts/acceptance-concurrency-race.py:139-162 | an event extends the bookkeeping, or raises on a stream that is disorderly and hence acceptable in no continuation |
| RaceAcceptor.AcceptedIsOrderly | scripts/acceptance-concurrency-race.py:139-162 | no prefix of an acceptable stream raises |
| RaceAcceptor.ResultSeries | scripts/acceptance-concurrency-race.py:134-164 | raises exactly for a disorderly stream; otherwise each row counts the runs and lists the ends of its test, and the result is passed if and only if each wanted test ran and passed three times, one package pass, no package or subtest skip or fail, nothing foreign and no build failure |
| LoadMetrics.SortPermutes | scripts/acceptance-load.py:38 | sorting orders the very same elements |
| LoadMetrics.FirstReached | scripts/acceptance-load.py:36-42 | the first value that reaches the target is the target-th smallest |
| LoadMetrics.Reach | scripts/acceptance-load.py:35-42 | adding up the counts of ascending keys until the target is reached ends at the target-th smallest value |
| LoadMetrics.Percentile | scripts/acceptance-load.py:35-42 | the histogram percentile is the element ceil(n*p/100) - 1 of the sorted latencies |
| LoadMetrics.PercentileCovers | scripts/acceptance-load.py:35-42 | at least p in a hundred of the recorded values are at most the p-th percentile, and fewer are below it |
| LoadMetrics.PercentilesRise | scripts/acceptance-load.py:35-42 | a higher percentile is never below a lower one |
| LoadMetrics.Metrics.Record | scripts/acceptance-load.py:21-28 | counts, errors, the clamped histogram and the first ten failures follow the log of all records |
| LoadMetrics.RecordedAs | scripts/acceptance-load.py:21-28 | latencies up to a minute are recorded as they are and longer ones as a minute; statuses from 200 to 299 are no errors |
| LoadMetrics.Metrics.Summary | scripts/acceptance-load.py:30-44 | every recorded name with its count, errors and nearest-rank percentiles |
| LoadMetrics.SummaryRises | scripts/acceptance-load.py:30-44 | p50 <= p95 <= p99 <= 60000 |
| ScheduleMerge.RuntimeScheduleSnapshots | backend/internal/application/runtime_status.go:72-136 | other system rows in order, then one row with the summed counts, the highest state and the latest finish; the sums over all rows are conserved |
| ScheduleMerge.ViewShows | backend/internal/application/runtime_status.go:74-101 | each shown field of a row by the row's own |
| ScheduleMerge.ViewsGrow | backend/internal/application/runtime_status.go:73-101 | the views are those of the system rows, in order |
| ScheduleMerge.MergesShows | backend/internal/application/runtime_status.go:103-136 | the one publication row runs if one of its rows does, else is unknown, else queued if one is, and shows the run that finished last |
| ScheduleMerge.Merge | backend/internal/application/runtime_status.go:109-128 | one more publication row keeps the row under construction |
| ScheduleMerge.TakenLatest | backend/internal/application/runtime_status.go:120-123 | the last run is that of the first row among those that finished last |
| ScheduleMerge.RaisedHighest | backend/internal/application/runtime_status.go:124-128 | without a running row the carried state is the highest |
| ScheduleMerge.OrderOnlyBreaksTies | backend/internal/application/runtime_status.go:103-136 | a permutation of the rows changes nothing but which of two equally late runs is shown |
| ScheduleMerge.SumSplits | backend/internal/application/runtime_status.go:103-136 | kept and merged rows together lose no count |

## Left out

- SQL text, GORM, drivers, metadata queries, connection pinning, locks and timeouts: statements are atomic steps that take effect or fail.
- Daily usage projections, endpoint usage and the other effects of the metering worker: only that a failure of them rolls the batch back.
- Legacy layouts of the projection without the pending or delta columns: a rebuild there has no queue to agree with.
- SQLite triggers of the projection, and the SQLite table rebuild of the account subjects: the first are dropped by the migration, the second is one transaction.
- HourlyStore.UsageStore.RecordEvent: one report at a time, and no insert that the server refuses.
- HourlyStore.UsageStore.PrepareRollback: the other validations of a binary rollback and the restored SQLite triggers.
- HourlyStore.UsageStore.Rebuild: a SUM that overflows inside the database and would return into range is not modelled; the final sums decide.
- Batches of settlements grouped before they are stored, and the audit JSON and received-minute identity of a row: reports arrive one at a time and a partition number stands for the rest of the identity.
- Names of foreign keys across tables, and the historical tables: a column's keys are a map of its own.
- Text encoding and hashing of manifests: a text is the list it decodes to, and one that repeats a key stands for every text that does not decode.
- CredentialRecovery.SecondPassIdleExactly: tables without stale rows of a hash; `SecondPass.SecondPassIdleAlways` is the equivalence on any tables.
- CredentialRecovery.PassRebuilds: tables without stale rows; with them a node can be counted complete and left as it is.
- DeliveryRecovery.DeliveryDatabase.Recover: no publisher commits between its visits; `RecoveryRace` follows the same pages and visits as a machine in which they do.
- DeliveryRecovery.PublicationsStand: that a node's publications commit in the order of their ids is an assumption. The start guard leaves a node one unresolved deployment at a time, but configuration_publication.go:84-91 of the network store itself looks for a later succeeded deployment beside an unresolved older one, and the older one can still be confirmed afterwards; neither file is part of this model.
- RecoveryRace.EveryScanCatchesUp: that a publication is later than the one its node's record names is an assumption here too; the live entries do not change during a scan.
- RecoveryRace.RecordsRise: the same assumption about publications.
- Dropping and recreating delivery tables with missing columns, and the publication of unconfirmed intents: they repeat the scan or hand over to the publisher.
- BatchMetrics.Collector.FinishBatch: as a method, its two critical sections follow each other; `BatchRace` separates them.
- Nil receivers and the storage of collectors in contexts; a panic inside a callback is a failure of the process and an invalidation, each a turn of `BatchRace`.
- TestPlan.Partition: names are word characters of ASCII; the JSON shape of the profile is a type.
- TestPlan.Groups: the labels of groups and the text of the regular expressions; a group's expression is its set of names.
- Diagnostics, fingerprints and receipts of the test runner: they decide nothing.
- TableCopy.Target.CopyTableRows: the conversion and validation of one row is a parameter that may fail, and int64 sums of row sizes do not wrap.
- Rollback of the copy: it belongs to the caller's transaction.
- MaintenanceCache.EveryRunIsHonest: a process that stalls after its query answered in time, and stamps later, keeps no bound on the age of the read.
- CopyRedacted.StreamingIsWholeReplacement: one direction; the exact conditions are those of `SecretChains`, `MaskExact`, `ChainsRead` and `OutputExact`.
- RunSecrets.RunSameOutput: for three or four secrets of which a later one can overlap the marker, the needed half only; a condition on the secrets alone is not proved for them.
- RunSecrets.RunNeverSplitExactly: full reads only for secrets up to half the read size; the output equivalence for full reads is that of one or two secrets up to an eighth of it.
- IndexBudget.Plan: columns and names are constants of a datatype, so a column name that contains a comma cannot be confused with two columns.
- RaceAcceptor.ResultSeries: discovery, selection and database preflight of the same script are separate checks.
- LoadMetrics.Metrics.Record: elapsed times are whole milliseconds; the lock makes each call atomic.
- ScheduleMerge.RuntimeScheduleSnapshots: names, intervals, time zones and misfire policies are copied through and not shown; counts do not wrap.
- The remaining schema files, capability registration, plugin host, HTTP, browser and Docker drivers, configuration ranges and cryptography.
