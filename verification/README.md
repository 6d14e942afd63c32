# A Dafny model of the benchmark runner's coordination and its log analysis

This project models, in Dafny, the parts of a distributed benchmark where getting it right is
hard: the clock synchronisation between runners and the latencies corrected by it, the crash-safe
shard cache of the analysis, the TCP mesh that carries the start and end barriers, and the views
and counts derived from logs. Everything is exact: integers, real numbers, byte sequences.

| modules | what they model |
|---|---|
| `Cohort`, `ClockSync`, `ProbeEngine`, `ProbeNetwork`, `ProbeWait` | the probe exchange of `runner/src/clock_sync.rs`: statistics, choice of a sample, one runner's engine, all runners over a lossy network, and the engine's wait as a run of that network |
| `Calendar`, `Timestamps` | the printed instants and their parser |
| `Correlate`, `Dedupe`, `LossAccounting`, `Integrity` | what the analysis makes of the logs |
| `ShardCache`, `ShardGroups` | the cache directory with its three layers of metadata, runs that may be killed anywhere, and which shards are analysed together |
| `BarrierFraming`, `BarrierStart`, `BarrierMesh` | frames and handshakes, forming the mesh, and delivery over it |
| `CompactLog`, `CompactProjection` | compact logs from the variant's columns through the file to the shard: the writer, the one-pass projection and the twelve it replaces |
| `Glob`, `VariantArgs` | selectors and overrides given on the command line |
| `ProgressView` | progress of the own variant and of the peers |
| `Options`, `Integers`, `Bytes`, `Sorting`, `Finite` | shared vocabulary |

Where the source changes state step by step the model does too: `ClockSyncEngine`, `LogsDir`,
`Startup`, `Mesh`, `Interner`, `CompactBuffers`, `RemoteProgressView` and `LocalProgressTracker` are
classes whose methods are proved against specification functions, and the loops of the source are
loops here. What a specification function computes is stated once more, in other words, by a lemma
of its own. Protocols are state machines; what is proved of them holds in every run and every
interleaving.

Main results:

- In every run of the probe protocol, over a network that loses, copies, delays and reorders, with
  runners that restart and reuse ids, each measured offset is within half its deciding round trip
  of the true clock difference (`ProbeNetwork.EveryMeasurementIsBounded`), and each corrected
  latency within that and a microsecond of the true one (`Correlate.CorrectedLatencyIsBounded`).
- The five-sigma fallback cannot fire below 24 samples, and can from 24 on, because no value is
  further than sqrt(n + 2) standard deviations from the median (`Cohort.MedianInequality`).
- After any history of source changes and killed runs, one finished run of the cache leaves exactly
  the fresh projections (`ShardCache.LogsDir.ReplayThenRun`).
- On every barrier connection that holds, nothing is lost, repeated or reordered, under every
  interleaving and every way a write can fail, up to the first message above the cap
  (`BarrierMesh.ScheduleDelivers`, `BarrierMesh.Mesh.RunSchedule`), and enough reader turns hand over
  all of it (`BarrierMesh.EverythingIsHandedOver`); an established mesh is complete,
  and the two ends each pair holds belong to one connection (`BarrierStart.MeshIsComplete`).
- Loss accounting does not depend on receiver clocks (`LossAccounting.AccountingIgnoresReceiverClocks`).
- The one-pass projection keeps the meaning of the twelve (`CompactProjection.OnePassIsTwelvePass`),
  and what a variant pushes into its compact log is what the analysis reads, exactly when the signed
  casts of the file lose nothing (`CompactLog.CompactBuffers.FileReadsBack`).

Environment assumed. Clocks: each is true time plus a constant, and in one run all show times of one
era, which may be any 146 years whose nanoseconds fit 64 bits; a runner sends its probes to one peer
at distinct times (it sleeps between them). Only runners speak the probe protocol and connect to the
barrier listeners. A barrier read that times out consumes nothing; a write reported as failed did
not deliver the whole frame or handshake; a broken connection loses bytes from its end only. Cache:
a build is atomic with respect to edits of its source, renames and directory wipes are atomic,
unlinking succeeds, each source write has a modification time above all earlier ones, a compact file
is not removed while its JSONL sibling stays, code versions do not go back, and nobody deletes
shards by hand. Atomic wipes and the last three cannot be dropped, and a lemma shows for each of
them what goes wrong.

Where the source disagrees with its own documentation, or is weaker than it may look:

- `offset_ms` is peer minus own clock and is added on the receiver's side
  (runner/src/clock_sync.rs:244-247, analysis/correlate.py:214-222); the comment at
  runner/src/clock_sync.rs:61-64 has the direction the other way round; see
  `ClockSync.OffsetDirection`.
- `?` in a selector stands for one byte, not one character (runner/src/cli_args.rs:89); see
  `Glob.AgreesExactlyOnAscii`.
- `(from, to, id)` identifies an exchange (runner/src/clock_sync.rs:623-625) only while no restart
  brings a counter back to a used id; the check of the echoed `t1` is what makes the filter sound.
  See `ProbeNetwork.RestartReusesIds`, `ProbeNetwork.IdsStayUniqueExactlyWhen` and
  `ProbeNetwork.AcceptedResponseIsGenuine`.
- The flags of the local tracker are called sticky (runner/src/progress.rs:60-63) but follow the
  last event; see `ProgressView.FlagIsForgotten` and `ProgressView.StickyThroughoutExactlyWhen`.
- A barrier message above 16 KiB is written successfully and ends the peer's reader thread, so
  nothing later arrives on that connection; see `BarrierFraming.DecodeUndoesStream`.
- A connector takes its peer for installed as soon as its handshake is written; the acceptor may
  still drop the connection, and the connector does not try again, although the comment at
  runner/src/barrier_coord.rs:335 expects it to (`BarrierStart.LateHandshakeIsLost`). The pair can be
  joined exactly while the whole handshake waits (`BarrierStart.JoinableExactlyWhileWaiting`), and
  the mesh completed exactly while no handshake is lost
  (`BarrierStart.MeshCanCompleteExactlyWhenRepairable`). The converse, an acceptor left alone,
  cannot happen (`BarrierStart.AcceptorsAreNeverAlone`).
- The twelve projections fail on a qos value that does not fit a byte where the one-pass one yields
  null, and drop rows of unknown kinds where the one-pass one keeps them without an event; see
  `CompactProjection.OnePassIsTwelvePass`.
- The writer of compact logs casts unsigned columns to signed ones and says that the analysis casts
  them back (variant-base/src/compact_writer.rs:18-22 and 436); the analysis does not. A payload of 2
  GiB or more reads back as a negative number of bytes, a leaf count that large as 1, an id in the
  upper half of 64 bits as null; see `CompactLog.ReadsBackExactlyWhenSmall` and
  `CompactLog.LargeNumbersReadBackAs`.
- `discover_groups` puts an empty compact shard into a group of its own while the index is there, and
  passes it over without (analysis/cache.py:853-887); see `ShardGroups.WarmIsColdExactlyWhen`.
- Loss accounting needs no logged silent phase to be independent of receiver clocks: the fallback
  end is the latest event of the group, which no write exceeds.
- The rows inside a measurement may flag several equal samples as accepted
  (runner/src/clock_sync.rs:340-360), see `ClockSync.OneRowIsFlaggedExactlyWhen`; the attempt log
  flags exactly one.
- A wipe removes files in any order, so a run killed in its own wipe can leave a sentinel whose
  shards are gone; see `ShardCache.CutWipeIsTrustedTorn` and `ShardCache.CutWipeIsSafeExactlyWhen`.

## Model

| member | source | states |
|---|---|---|
| Cohort.HalfOnEachSideOfMedian | runner/src/clock_sync.rs:263-275 | at least half of a cohort lies at or below its median, and at least half at or above |
| Cohort.MedianInequality | runner/src/clock_sync.rs:251-275 | for every value x of a cohort of n, (x - median)^2 is at most (n + 2) times the variance |
| Cohort.NeverFiresBelow24 | runner/src/clock_sync.rs:314-320 | the five-sigma rule holds of no value of a cohort of fewer than 24 |
| Cohort.FiresFrom24 | runner/src/clock_sync.rs:314-320 | for every n from 24 on, n - 1 equal values and one different one: the different one is an outlier, so 24 is sharp |
| Cohort.OutlierExactlyWhen | runner/src/clock_sync.rs:314-320 | said without mean or variance: of n values, n squared times the squared distance of x to the median exceeds 25 times the squared differences of all pairs, and n is at least 3 |
| Cohort.VarianceIsPairSpread | runner/src/clock_sync.rs:251-261 | n squared times the population variance is the sum over pairs of squared differences |
| Cohort.MedianIsMiddle | runner/src/clock_sync.rs:263-275 | the median is the value of middle rank, or the mean of the two |
| ClockSync.ExchangeBound | runner/src/clock_sync.rs:238-247 | with clocks at constant offsets from true time and results that fit 64 bits, one exchange has a non-negative round trip and twice its offset error is at most the round trip plus 1 ns, truncating division included (section 8 of RFC 5905) |
| ClockSync.OffsetDirection | runner/src/clock_sync.rs:244-247 | over equal delays the offset is exactly peer minus own: added to the own reading it gives the peer's; added to the peer's it gives the own one only if the clocks agree |
| ClockSync.PickBest | runner/src/clock_sync.rs:291-374 | the running pass for extremes, the stable sort and the fallback yield exactly the specified measurement, whose parts the next four rows say outright |
| ClockSync.FallbackFiresExactlyWhen | runner/src/clock_sync.rs:311-320 | for all samples, the fallback fires exactly when there are three, some two offsets differ, and n squared times the squared distance of the earliest least-round-trip offset to the median exceeds 25 times the sum of all squared pair differences |
| ClockSync.MeasurementReports | runner/src/clock_sync.rs:296-374 | offset and round trip are those of the earliest least-round-trip sample, or after a fallback the medians of the three lowest; count, extremes and one row for each sample in order |
| ClockSync.PickIsEarliestLeast | runner/src/clock_sync.rs:311-312 | the head of the stable sort is the earliest sample of least round trip |
| ClockSync.OffsetRoundsTowardZero | runner/src/clock_sync.rs:244-247 | the offset is the exact half sum rounded toward zero, the round trip the exact difference, wherever they fit 64 bits |
| ClockSync.DefaultPickIsEarliestMinimum | runner/src/clock_sync.rs:311-338 | without the fallback the pick is the earliest sample of least round trip, hence of least guaranteed error in the cohort |
| ClockSync.FallbackNeeds24Samples | runner/src/clock_sync.rs:314-320 | a fallback that fired had at least 24 samples |
| ClockSync.FallbackFiresOnLoneStray | runner/src/clock_sync.rs:314-320 | from 24 samples on, a min-RTT sample that alone disagrees does make it fire |
| ClockSync.FallbackSurvivesOneCorruptSample | runner/src/clock_sync.rs:322-338 | with any one of the three lowest-RTT samples arbitrarily wrong, the fallback offset is within (third-lowest RTT + 1)/2 of the true clock difference |
| ClockSync.ReportedRttIsBetweenExtremes | runner/src/clock_sync.rs:296-338 | the reported round trip lies between the smallest and the largest measured one, in both branches |
| ClockSync.MeasurementBound | runner/src/clock_sync.rs:291-338 | the error bound of a whole measurement over genuine samples, fallback or not |
| ClockSync.FlaggedRows | runner/src/clock_sync.rs:340-360 | inside a measurement exactly the rows that read like the picked sample are flagged, and none after a fallback |
| ClockSync.OneRowIsFlaggedExactlyWhen | runner/src/clock_sync.rs:340-360 | exactly one row is flagged exactly when the fallback did not fire and no other sample has the readings of the earliest one of least round trip |
| ClockSync.TwinsAreBothFlagged | runner/src/clock_sync.rs:340-360 | two equal samples are both flagged |
| Calendar.MonthLengths | analysis/parse.py:150-158 | month lengths, with the leap rule said on its own |
| Calendar.DaysAreCounted | analysis/parse.py:150-158 | the next date, over months and years, has the next day number |
| Calendar.FourCenturies | analysis/parse.py:150-158 | 400 years have 146097 days |
| Calendar.UnixEpoch | analysis/parse.py:150-158 | 1970-01-01 is day 719162 counted from 0001-01-01 |
| Timestamps.ParseTimestampNs | analysis/parse.py:114-176 | the scan that reassigns text, zone and fraction computes the specified instant or rejects the text |
| Timestamps.ParseUndoesFormat | runner/src/clock_sync.rs:378-380 | for every 64-bit nanosecond instant, parsing the printed text gives the instant back |
| Timestamps.FormatUndoesParse | analysis/parse.py:150-176 | every canonical text of a valid date parses, and printing the instant gives the text back |
| Timestamps.FormatIsInjective | runner/src/clock_sync.rs:378-380 | equal texts mean equal instants, so comparing echoed timestamps as strings is exact |
| Timestamps.ZoneSuffixShifts | analysis/parse.py:129-148 | a +HH:MM or -HH:MM suffix denotes the Z form shifted by it, whatever precedes it (section 5.6 of RFC 3339) |
| Timestamps.AnyZoneDenotesTheInstant | analysis/parse.py:129-148 | an instant written in any zone parses to the instant |
| Timestamps.FractionsMeanNineDigits | analysis/parse.py:150-176 | shorter and longer fractions mean their zero-padded or truncated nine digits; none means zero |
| Timestamps.FractionCounts | analysis/parse.py:150-176 | a fraction of up to nine digits counts in units of its last digit, further digits are cut |
| Timestamps.ClockAdvances | analysis/parse.py:150-176 | a second, minute, hour or day later is 1, 60, 3600 or 86400 s later, across months, leap days and years |
| Timestamps.KnownInstants | analysis/parse.py:114-176 | the epoch is 0, in UTC and with an hour's offset, and the last second of 29 February 2000 is 951868799 s |
| ProbeEngine.ClockSyncEngine.WaitForResponse | runner/src/clock_sync.rs:567-714 | the wait ends at the first full match or give-up, else reports the latest rejection, else unreadable input, else a timeout; the messages answered are exactly the requests addressed to this runner up to there, each once for each arrival, in order |
| ProbeEngine.JudgeExactly | runner/src/clock_sync.rs:605-675 | each verdict on a datagram, exactly when it is given: filter, first timestamp, clock, unreadable stamps, success with the stamps read |
| ProbeEngine.AnsweredAreTheRequests | runner/src/clock_sync.rs:676-698 | the answered messages are the requests to this runner among the arrivals, in order and number |
| ProbeWait.WaitIsARun | runner/src/clock_sync.rs:567-714 | the engine's wait is a run of the network protocol: every datagram is received, every request to this runner answered, in order, and the outcome recorded is the engine's |
| ProbeEngine.WaitOutcomeIsUnique | runner/src/clock_sync.rs:567-714 | the arrivals determine the outcome of a wait |
| ProbeEngine.ClockSyncEngine.ProbeOnce | runner/src/clock_sync.rs:490-528 | one probe takes one id and logs one row with the outcome of its own window, or neither row nor sample when the clock does not fit |
| ProbeEngine.ClockSyncEngine.MeasureOne | runner/src/clock_sync.rs:483-538 | a cohort consumes one id per probe, logs one attempt per window in send order, measures exactly its samples and marks the log |
| ProbeEngine.OneRowPerProbe | runner/src/clock_sync.rs:483-538 | with readable clocks, one attempt per probe, with consecutive ids and the outcome of its own window |
| ProbeEngine.MarkAccepted | runner/src/clock_sync.rs:195-210 | marking edits the array in place to the specified marking |
| ProbeEngine.MarkedAt | runner/src/clock_sync.rs:195-210 | marking flips the first matching row and leaves all others alone |
| ProbeEngine.ExactlyOneRowIsAccepted | runner/src/clock_sync.rs:195-210 | with a measurement and no fallback, exactly one row is accepted: the earliest attempt of least round trip |
| ProbeEngine.NoRowIsAcceptedOtherwise | runner/src/clock_sync.rs:195-210 | after a fallback, or without a measurement, no row is accepted |
| ProbeNetwork.AcceptedResponseIsGenuine | runner/src/clock_sync.rs:605-675 | a response that passes the (from, to, id, t1) filter carries stamps the named peer made for exactly the probe in flight, even after restarts reuse ids |
| ProbeNetwork.SendProbeKeepsInv | runner/src/clock_sync.rs:483-502 | sending a probe keeps the protocol invariant |
| ProbeNetwork.ReceiveKeepsInv | runner/src/clock_sync.rs:576-714 | delivering any datagram ever sent, to anyone, keeps it |
| ProbeNetwork.AnswerKeepsInv | runner/src/clock_sync.rs:394-419 | the always-respond step keeps it |
| ProbeNetwork.NextKeepsInv | runner/src/clock_sync.rs:394-714 | every step of every runner, restarts and time included, keeps it |
| ProbeNetwork.EverySampleIsGenuine | runner/src/clock_sync.rs:483-538 | in every run over a network that loses, copies, delays and reorders, every sample kept is a genuine exchange within its round-trip bound of the true clock difference |
| ProbeNetwork.AnyExchangeIsRecorded | runner/src/clock_sync.rs:483-538 | such runs exist: for any clock difference and any one-way delays within an era, a run records the exchange that took them |
| ProbeNetwork.EveryMeasurementIsBounded | runner/src/clock_sync.rs:291-338 | in every run, a measurement is within half its deciding round trip (third-lowest after a fallback) of the true clock difference |
| ProbeNetwork.IdsAreUniqueWhileCountersGrow | runner/src/clock_sync.rs:623-635 | in every run in which no id counter goes back, a runner's probes carry ascending ids |
| ProbeNetwork.IdsStayUniqueExactlyWhen | runner/src/clock_sync.rs:623-635 | the exact condition, for every world of a run: (from, to, id) names one exchange now and however things go on without restarts, exactly when no two probes share it so far and every used id is below its runner's counter |
| ProbeNetwork.RestartReusesIds | runner/src/clock_sync.rs:623-635 | after a restart it does not: a run with two probes that differ in their first timestamp only |
| Correlate.AsofIsLatest | analysis/correlate.py:137-172 | the backward as-of join finds the latest row of this runner, peer and variant not after the receive, the last in the table among equals, and none only if there is none |
| Correlate.MatchedRowRule | analysis/correlate.py:171-198 | the row used is the variant's latest; only without one, the latest of the initial sync |
| Correlate.CorrectionExactly | analysis/correlate.py:199-222 | what a delivery reports: offset 0 on one runner, else the offset of the row used, added to the raw latency, else the raw latency without offset and flagged uncorrected |
| Correlate.OffsetCancelsSkew | analysis/correlate.py:214-222 | adding the offset on the receiver's side cancels the clock difference up to the offset's own error and 1 microsecond |
| Correlate.CorrectedLatencyIsBounded | analysis/correlate.py:137-222 | end to end: in every probe run, a corrected cross-runner latency is within half the deciding round trip of the row it uses, plus 1 microsecond, of the true one-way latency |
| Correlate.SameRunnerIsExact | analysis/correlate.py:205-222 | a delivery that stays on one runner keeps its true latency in whole microseconds |
| Dedupe.SurvivorsAreTheChainHeads | analysis/correlate.py:256-288 | sort, shift and filter keep exactly the rows with no row of their key within 100 microseconds before them |
| Dedupe.SurvivorsAreFarApart | analysis/correlate.py:256-288 | survivors of one key are pairwise more than 100 microseconds apart |
| Dedupe.EveryRowHasASurvivingHead | analysis/correlate.py:256-288 | every row is linked by gaps of at most 100 microseconds to a survivor of its key |
| Dedupe.DedupeIsIdempotent | analysis/correlate.py:256-288 | deduping the survivors keeps them all |
| Dedupe.SurvivalIgnoresOrder | analysis/correlate.py:256-288 | two tables with the same rows keep the same rows, whatever their order or repetition |
| LossAccounting.OperateWindows | analysis/performance.py:359-413 | the windows hold the earliest operate and silent phases, the earliest end-of-test of each runner, and the latest event where no silent phase was logged |
| LossAccounting.WriteReceiveCounts | analysis/performance.py:640-764 | the loops over writers and window ends give the numbers of writes and of deliveries whose time is not before the operate start and not after the writer's end-of-test, else the silent start |
| LossAccounting.ReceiveCountIsPairs | analysis/performance.py:640-764 | over a whole group, the receive count is the number of pairs of a surviving receive row and a write in time with its writer, sequence number and path |
| LossAccounting.DeliveriesExactly | analysis/correlate.py:291-424 | a delivery is exactly a surviving receive row with a write event of its writer, sequence number and path, and carries that write's time, bytes and leaves, one leaf if it does not say |
| LossAccounting.RowsAreCompleteReceives | analysis/correlate.py:291-345 | the receive rows are the receive events with writer, sequence number and path |
| LossAccounting.LossMeans | analysis/performance.py:1046-1049 | loss times writes is 100 times the writes that did not arrive, and there is no loss once receives reach writes or nothing was written |
| LossAccounting.FiguresAddUp | analysis/performance.py:807-911 | leaf and byte totals and the deliveries in the window add up over any split of the deliveries |
| LossAccounting.FiguresOfOne | analysis/performance.py:807-911 | one delivery counts with its leaves and its bytes, none if null, if its write is in time |
| LossAccounting.SurvivorsShift | analysis/correlate.py:256-288 | moving each receiver's clock by a constant changes no survivor |
| LossAccounting.WindowsShift | analysis/performance.py:359-413 | moving receiver clocks changes no operate start and no end-of-test, and changes the silent start only when it is the fallback to the latest event |
| LossAccounting.ContainsShifts | analysis/performance.py:349-356 | nevertheless no write enters or leaves its window |
| LossAccounting.AccountingIgnoresReceiverClocks | analysis/performance.py:640-764 | for all groups and all per-receiver constants, write count, receive count, loss, leaf and byte totals are unchanged |
| Integrity.DuplicatesAreRowsLessKeys | analysis/integrity.py:322-334 | the group sizes less one add up to the rows less the distinct keys |
| Integrity.DuplicatesAfterDedupe | analysis/integrity.py:322-334 | on the deliveries, after dedupe and join with the writes, a pair's duplicate count is its deliveries less the distinct keys the raw log shows as received and written: neither step loses a key altogether |
| Integrity.NoneOutOfOrderIsSorted | analysis/integrity.py:304-320 | no neighbour is out of order exactly when no receive is below any earlier one |
| Integrity.OutOfOrderCountsFalls | analysis/integrity.py:304-320 | the reordering count is the number of receives below the one before |
| Integrity.GapCountIsSetDifference | analysis/integrity.py:351-435 | unresolved gaps are the set difference of missing and recovered numbers; no row without gap data, zero when gaps were only filled |
| ShardCache.DiscoverSources | analysis/cache.py:442-485 | the two passes find every stem once, its compact file over its JSONL file |
| ShardCache.FirstVariantDecides | analysis/cache.py:353-388 | the batch loop over first rows settles the identity at a first row that has a variant |
| ShardCache.CollectMeta | analysis/cache.py:338-438 | the batch loop that reassigns variant, run, flag and count yields the metadata of a fresh build |
| ShardCache.FirstHeadWithVariantDecides | analysis/cache.py:345-371 | the variant and the flag are those of the first batch head that has a variant |
| ShardCache.NoHeadWithVariant | analysis/cache.py:345-371 | without one there is no variant, and the flag is true once a head has an event |
| ShardCache.FlagsAgree | analysis/cache.py:775-808 | build, backfill and first-row probe agree on what a clock-sync shard is, except on a first row with neither event nor variant, where only the probe decides |
| ShardCache.IndexMetaReadsOff | analysis/cache.py:705-761 | an index entry read off its source: modification time, row count, version, and the variant, run and clock-sync flag of a first row with a variant |
| ShardCache.StaleExactlyWhen | analysis/cache.py:250-264 | a stem is stale exactly when its entry, index before sidecar, is missing, of another version or older than the source, or its shard is missing |
| ShardCache.BackfillCompletes | analysis/cache.py:705-761 | backfilling an entry that describes a source - fresh, indexed or legacy, null identities included - gives the index entry of a fresh build |
| ShardCache.NewDirectoryInv | analysis/cache.py:612-632 | an empty cache directory satisfies the crash-safety invariant |
| ShardCache.BumpKeepsInv | analysis/cache.py:174-207 | a newer code version believes nothing an older one wrote |
| ShardCache.TearKeepsInv | analysis/cache.py:303-439 | a shard may be torn while its effective entry looks stale |
| ShardCache.FillKeepsInv | analysis/cache.py:303-439 | completing a shard keeps the invariant |
| ShardCache.SidecarKeepsInv | analysis/cache.py:429-438 | the sidecar may be written once the shard is complete: shard before sidecar |
| ShardCache.UnlinkKeepsInv | analysis/cache.py:506-528 | removing an orphan's shard or sidecar keeps the invariant at every point |
| ShardCache.CommitKeepsInv | analysis/cache.py:690-700 | the sentinel may be replaced once the shards are complete and the orphans gone: orphan removal before sentinel |
| ShardCache.KeptEntryIsRight | analysis/cache.py:645-665 | a stem that is not stale has the complete shard of its current source, and its entry backfills to a fresh one |
| ShardCache.SourceWriteKeepsInv | analysis/cache.py:250-264 | a source write stamped later than all earlier ones keeps the invariant |
| ShardCache.StemRemovalKeepsInv | analysis/cache.py:506-528 | removing a stem's sources keeps the invariant |
| ShardCache.SyncedIsFresh | analysis/cache.py:250-264 | after a finished run no stem is stale |
| ShardCache.SyncedIsUnique | analysis/cache.py:576-702 | two finished caches over the same sources have the same shards and the same index, so the result is that of a cleared rebuild |
| ShardCache.LogsDir.FindStale | analysis/cache.py:640-665 | the stems are partitioned into kept entries, index first and sidecar second, and stale ones |
| ShardCache.LogsDir.BuildShards | analysis/cache.py:667-688 | stale shards are rebuilt in any interleaving of their disk operations; killed anywhere, the invariant holds |
| ShardCache.LogsDir.RemoveOrphanShards | analysis/cache.py:506-528 | no shard or sidecar without a source is left, no other is touched; killed anywhere, the invariant holds |
| ShardCache.LogsDir.BackfillIndexFields | analysis/cache.py:705-761 | every entry is kept or completed from its shard's first row |
| ShardCache.LogsDir.UpdateCache | analysis/cache.py:576-702 | killed after any number of disk operations the invariant holds; finished, the cache is exactly the fresh projection of the sources and every entry returned is read off its source; after a finished run it rebuilds nothing, after a clear or a version change everything |
| ShardCache.LogsDir.ReplayThenRun | analysis/cache.py:576-702 | after any history of source writes, removals and killed or finished runs of versions that never go back, one finished run leaves exactly the fresh projection of the surviving sources |
| ShardCache.TearIsSafeExactlyWhenStale | analysis/cache.py:250-264 | tearing a believable shard is safe for a code version exactly when that version sees its entry as stale |
| ShardCache.OlderVersionLeavesATornShard | analysis/cache.py:612-653 | why versions must not go back: a killed newer run, a killed older run, and the newer code trusts a torn shard |
| ShardCache.DeletedShardIsTrustedTorn | analysis/cache.py:250-264 | why shards must not be deleted by hand: a killed rebuild leaves a torn shard whose index entry still looks fresh |
| ShardCache.CutWipeIsTrustedTorn | analysis/cache.py:612-624 | why wipes must not be cut short: a run killed in its own wipe while the sentinel stands, then a killed rebuild, and a torn shard is trusted |
| ShardCache.CutWipeIsSafeExactlyWhen | analysis/cache.py:612-624 | after a cut wipe, a rebuild of a stem that is killed is trusted torn exactly when its shard is gone and sentinel and sidecar are not both gone; otherwise its metadata can be believed |
| ShardCache.CompactRemovalIsSeenExactlyWhenOlder | analysis/cache.py:442-485 | removing a compact file beside its JSONL file is noticed exactly when the JSONL file is newer |
| ShardGroups.DiscoverGroups | analysis/cache.py:811-894 | a group for each (variant, run) with a shard that is not a clock-sync shard, holding exactly those shards and all clock-sync shards of its run |
| ShardGroups.ShardsAreGroupedOnce | analysis/cache.py:811-894 | a shard that is not a clock-sync shard is in one group only |
| ShardGroups.SyncedGroups | analysis/cache.py:811-894 | after a finished run every shard is grouped by the first row of its source |
| ShardGroups.WarmIsColdExactlyWhen | analysis/cache.py:811-894 | index and first row identify a shard alike exactly when its first row has a variant or the index lacks variant or run; they part on empty compact shards |
| ShardGroups.GroupsDoNotNeedTheIndex | analysis/cache.py:811-894 | losing the index changes the group of no shard whose first row has a variant |
| BarrierFraming.ReadUndoesFrame | runner/src/barrier_coord.rs:604-631 | a whole frame reads back if within the cap and is refused by its length otherwise, whatever follows |
| BarrierFraming.FrameLayout | runner/src/barrier_coord.rs:604-612 | a frame is the length in four bytes, highest first, and the payload |
| BarrierFraming.ReadIsExact | runner/src/barrier_coord.rs:614-631 | whatever is read as a frame is byte for byte the frame of what was read |
| BarrierFraming.TornFrameIsNotRead | runner/src/barrier_coord.rs:614-631 | no proper prefix of a frame reads as a frame |
| BarrierFraming.DecodeUndoesStream | runner/src/barrier_coord.rs:548-631 | a stream of frames decodes to exactly the payloads before the first one above 16 KiB, which ends the reader |
| BarrierFraming.DecodeIsExact | runner/src/barrier_coord.rs:548-631 | any stream at all is its decoded frames, encoded again, followed by the leftover |
| BarrierFraming.DecodeIsIncremental | runner/src/barrier_coord.rs:548-631 | reading bytes as they arrive decodes what reading them at once does, however they are split |
| BarrierFraming.CutDecodesTheWholeFrames | runner/src/barrier_coord.rs:614-631 | a stream cut anywhere decodes exactly the frames that are whole before the cut |
| BarrierFraming.ConnectionRoundTrip | runner/src/barrier_coord.rs:636-716 | handshake and frames, cut anywhere: nobody is recognised before the handshake is whole; after it the name is exact and only whole frames decode, all of them if uncut |
| BarrierFraming.WriteFrame | runner/src/barrier_coord.rs:604-612 | a write puts out the whole frame or exactly the bytes that fitted |
| BarrierStart.OneSideAccepts | runner/src/barrier_coord.rs:223-231 | of two different names exactly one, the lower, accepts |
| BarrierStart.PortsAreDistinct | runner/src/barrier_coord.rs:236-254 | two listeners share a port exactly when their indices agree modulo 65536; ports never wrap |
| BarrierStart.StartInv | runner/src/barrier_coord.rs:215-266 | the initial pending sets partition the other runners into acceptors' and connectors' side |
| BarrierStart.CanConnectExactlyWhen | runner/src/barrier_coord.rs:236-316 | a runner can hand over its name exactly when both ports exist, it knows the peer's host and its name has at most 256 bytes |
| BarrierStart.OutboundExactly | runner/src/barrier_coord.rs:286-316 | a refused connection changes nothing, a cut one leaves its bytes at the end of the listener's queue, a delivered one the whole handshake and an installed peer that is no longer pending |
| BarrierStart.InboundExactly | runner/src/barrier_coord.rs:318-342 | a turn takes the first connection off the queue and installs it exactly when it brings the whole handshake of a pending peer in time |
| BarrierStart.ConnectCutKeepsInv | runner/src/barrier_coord.rs:636-669 | a handshake that fails part-way keeps the start-up invariant |
| BarrierStart.ConnectDoneKeepsInv | runner/src/barrier_coord.rs:286-316 | a connector that delivered its handshake and installed its peer keeps it |
| BarrierStart.AcceptedIsOwner | runner/src/barrier_coord.rs:674-716 | a connection recognised by its handshake belongs to that runner, which has installed this very connection |
| BarrierStart.AcceptDoneKeepsInv | runner/src/barrier_coord.rs:318-337 | accepting and installing a pending peer keeps the invariant |
| BarrierStart.MeshIsComplete | runner/src/barrier_coord.rs:265-354 | once nothing is pending any two runners hold the two ends of one connection, and no connection serves two pairs |
| BarrierStart.AcceptorsAreNeverAlone | runner/src/barrier_coord.rs:318-354 | at any time, also after giving up on the rest, what an acceptor installed its peer installed too |
| BarrierStart.AcceptedIffWhole | runner/src/barrier_coord.rs:674-716 | accepting recognises exactly whole handshakes of pending peers that arrive in time |
| BarrierStart.LateHandshakeIsLost | runner/src/barrier_coord.rs:318-337 | the failing direction happens: one delivered handshake, read too late, leaves the connector installed and the acceptor not |
| BarrierStart.LostForever | runner/src/barrier_coord.rs:286-354 | no schedule repairs a pair whose handshake was dropped, so its start-up never finishes |
| BarrierStart.JoinableExactlyWhileWaiting | runner/src/barrier_coord.rs:286-354 | a connector left alone can still be joined by some schedule exactly while its whole handshake waits at the acceptor |
| BarrierStart.MeshCanCompleteExactlyWhenRepairable | runner/src/barrier_coord.rs:265-354 | from any point of any start-up, some schedule completes the mesh exactly when every pending connector has ports, host and a sendable name and no half-open pair has lost its handshake |
| BarrierStart.Startup.Position | runner/src/barrier_coord.rs:236-240 | the first place of a name in the runner list |
| BarrierStart.Startup.TryConnect | runner/src/barrier_coord.rs:286-316 | one outbound connection changes exactly the connector's sets and the listener's backlog, and nothing when port or host is missing |
| BarrierStart.Startup.TryAccept | runner/src/barrier_coord.rs:318-342 | one accepted connection is installed only for a pending peer and dropped otherwise |
| BarrierStart.Startup.RunSchedule | runner/src/barrier_coord.rs:210-354 | in every interleaving of all start-ups, pending and installed peers partition the others at every step, and an end with nothing pending is a complete symmetric mesh |
| BarrierMesh.WriteKeeps | runner/src/barrier_coord.rs:422-461 | a whole write keeps the conservation law of its pipe |
| BarrierMesh.FailedWriteKeeps | runner/src/barrier_coord.rs:436-458 | a write that fails after any number of bytes keeps it once the peer is dropped |
| BarrierMesh.TurnKeeps | runner/src/barrier_coord.rs:548-602 | one turn of a reader thread keeps it, end of connection and oversize frames included |
| BarrierMesh.BreakKeeps | runner/src/barrier_coord.rs:548-602 | a connection that breaks and loses bytes from its end keeps it |
| BarrierMesh.NothingLostOrRepeated | runner/src/barrier_coord.rs:422-602 | from the conservation law: drained, inbox and still undecoded together are exactly the barrier messages logged as written, in order, up to the first above the cap; on a broken connection a prefix of them |
| BarrierMesh.CaughtUpReaderHasAll | runner/src/barrier_coord.rs:422-602 | on a connection that holds, a reader that caught up has delivered every message broadcast, in order, once |
| BarrierMesh.TurnTakesAFrame | runner/src/barrier_coord.rs:548-602 | a turn takes a whole frame of up to 16 KiB off the bytes and puts its Ready or Done message into the inbox, nothing for any other |
| BarrierMesh.TurnsReadAll | runner/src/barrier_coord.rs:548-602 | on a connection that holds, as many turns as there are bytes leave no whole frame unread |
| BarrierMesh.EverythingIsHandedOver | runner/src/barrier_coord.rs:422-602 | after any schedule that leaves the connection whole, enough turns and one drain have handed over exactly the Ready and Done messages the schedule wrote, in order, if all are within the cap |
| BarrierMesh.Mesh.WriteTo | runner/src/barrier_coord.rs:604-612 | one write to one peer, whole or cut |
| BarrierMesh.Mesh.Broadcast | runner/src/barrier_coord.rs:422-461 | every connected peer is written to once, exactly those whose write failed are dropped, the rest is returned, no other pipe changes |
| BarrierMesh.Mesh.ReaderTurn | runner/src/barrier_coord.rs:548-602 | a reader thread takes the whole frame in front of its own pipe and puts its barrier message into the inbox, and touches nothing else |
| BarrierMesh.Mesh.DrainInbox | runner/src/barrier_coord.rs:472-480 | a drain returns the inbox and empties it; nothing without an inbox |
| BarrierMesh.Mesh.DrainAllInboxes | runner/src/barrier_coord.rs:486-503 | draining all returns each non-empty inbox of the runner and empties exactly those |
| BarrierMesh.SentIsWhatWasBroadcast | runner/src/barrier_coord.rs:422-461 | what a pipe's log says was written is what the schedule's broadcasts wrote: its writer's messages while it held the peer, up to the first write that was not whole |
| BarrierMesh.ScheduleDelivers | runner/src/barrier_coord.rs:422-602 | on a fresh pipe, what the drains handed over, the inbox and the undecoded bytes together are the barrier messages the schedule wrote, in order, up to the first above the cap; a prefix of them if the connection broke |
| BarrierMesh.Mesh.Perform | runner/src/barrier_coord.rs:422-602 | one step of any thread changes each pipe exactly as the step function says, and returns what it drained |
| BarrierMesh.Mesh.RunSchedule | runner/src/barrier_coord.rs:422-602 | any interleaving of broadcasts, reader turns, broken connections and drains leaves each pipe as the steps make it, and hands over, holds or still carries exactly the messages of its broadcasts, in order |
| CompactProjection.JoinIsLookup | analysis/parse_compact.py:606-623 | a left join on an intern table gives one row: the indexed string, or null |
| CompactProjection.JoinKeepsRows | analysis/parse_compact.py:730-736 | the three joins add no row, drop no row and keep the order |
| CompactProjection.SameRow | analysis/parse_compact.py:779-996 | on a row of a known kind the case distinctions select what the projection of that kind selects |
| CompactProjection.OnePassIsTwelvePass | analysis/parse_compact.py:626-1016 | the one-pass projection has the rows of the twelve concatenated null-padded ones, as a multiset, exactly when every kind is known and no qos of a write, receive or skip overflows a byte |
| CompactLog.Interner.Intern | variant-base/src/compact.rs:265-331 | a string gets one index for good, and leads back to it; a full table takes no new string |
| CompactLog.CompactBuffers.Push | variant-base/src/compact.rs:424-644 | an event is appended to all columns with indices that lead to its path and peer, or not at all, exactly when a table is full |
| CompactLog.CompactBuffers.PushAll | variant-base/src/compact.rs:424-644 | all events of a run are logged exactly when they name fewer than 2^32 paths and at most 254 peers |
| CompactLog.ReadsBackExactlyWhenSmall | variant-base/src/compact_writer.rs:367-600 | an event written with the signed casts of the file and projected by the analysis comes back, all 26 columns, exactly when none of its numbers is in the upper half of its unsigned column |
| CompactLog.LargeNumbersReadBackAs | variant-base/src/compact_writer.rs:406-440 | larger numbers come back as negative byte counts, one leaf, no id |
| CompactLog.CompactBuffers.FileReadsBack | analysis/parse_compact.py:626-1016 | the analysis of a whole file finds one row for each event pushed, in order, each equal to its event exactly when that is small |
| Glob.MatchIsSplit | runner/src/cli_args.rs:97-132 | a pattern matches exactly the candidates that split into one piece for each symbol, any string for a star, one byte for a question mark, itself otherwise |
| Glob.SymbolsMatch | runner/src/cli_args.rs:97-132 | an asterisk alone matches everything, a question mark one byte, any other byte itself |
| Glob.BytesAreCharsWithoutAny | runner/src/cli_args.rs:97-132 | without a question mark, matching UTF-8 bytes is matching characters, although a star may stop inside a character |
| Glob.AgreesExactlyOnAscii | runner/src/cli_args.rs:84-132 | byte matching is the documented character matching for all patterns exactly on the candidates that are plain ASCII |
| VariantArgs.ParseEntryIsRight | runner/src/cli_args.rs:50-75 | a parsed entry reads back to its text, a fault is the one that is there |
| VariantArgs.ParseEntryIsComplete | runner/src/cli_args.rs:50-75 | every text selector.key=value parses to its parts, further dots and equals signs staying in the value |
| VariantArgs.ParseOverrides | runner/src/cli_args.rs:47-83 | all entries in command-line order, or the first malformed one with its fault |
| VariantArgs.ResolveForVariant | runner/src/cli_args.rs:156-170 | each key has the value and selector of its last matching entry, other keys are absent |
| VariantArgs.SelectorIsThePattern | runner/src/cli_args.rs:156-170 | the selector is the pattern and the variant the candidate, and only entries of the key apply |
| VariantArgs.SplitOnceSplits | runner/src/cli_args.rs:50-75 | a text is split at its first separator, and not at all only if it has none |
| VariantArgs.AscendingIsUnique | runner/src/cli_args.rs:339-341 | there is only one sorted listing of a set of keys |
| Bytes.LessAtFirstDifference | runner/src/cli_args.rs:339-341 | names are ordered by the byte at their first difference, a proper prefix first |
| VariantArgs.SortedEntries | runner/src/cli_args.rs:339-341 | a map's items in strictly ascending key order, none missing |
| VariantArgs.MergeSpecificWithOverrides | runner/src/cli_args.rs:322-341 | the sorted listing of the table with the overrides over it |
| VariantArgs.SpecificArgProvenance | runner/src/cli_args.rs:361-395 | the sorted listing of the reports, command line over table |
| VariantArgs.ForwardedAndReportedAgree | runner/src/cli_args.rs:322-395 | forwarded arguments and provenance lines agree item by item, and both carry the last matching entry's value and selector, or the table's value |
| ProgressView.ReflectsOneMore | runner/src/progress.rs:345-373 | folding one update into its own snapshot keeps every snapshot the digest of its log |
| ProgressView.ViewsConverge | runner/src/progress.rs:345-421 | views that received the same updates, in any order and number, know the same spawns with the same counters and flags |
| ProgressView.RemoteProgressView.ApplyUpdate | runner/src/progress.rs:406-421 | counters are the maxima and flags the disjunction over the spawn's updates, phase and times the last one's; no other key changes |
| ProgressView.RemoteProgressView.SnapshotFor | runner/src/progress.rs:427-429 | a snapshot exists exactly for the spawns with an update, and digests them |
| ProgressView.PeakOneMore | runner/src/progress.rs:102-115 | a counter stays the peak of its events and its change time that of the first event to reach it |
| ProgressView.LocalProgressTracker.ApplyProgress | runner/src/progress.rs:102-115 | counters are peaks with their first times, phase and flags the last event's; a flag stays sticky exactly when the event carries it or it was not set |
| ProgressView.EventKeepsSticky | runner/src/progress.rs:112-113 | for either flag, an event keeps a sticky flag sticky exactly when it carries the flag or the flag is not set |
| ProgressView.StickyThroughoutExactlyWhen | runner/src/progress.rs:112-113 | for either flag, the tracked flag is the sticky one of the documentation after every event exactly when no event takes back what the one before it set |
| ProgressView.FlagIsForgotten | runner/src/progress.rs:112-113 | an event that sets a flag and one that does not: the tracker forgets it |

## Left out

- Floating-point rounding: milliseconds, means and variances are exact reals, square roots are
  avoided by comparing squares.
- Sockets, threads, wall clocks and sleeping: interleaved steps, byte queues, a set of datagrams and
  an advancing true time stand for them; send errors of probes are an input of the engine.
- JSON and Parquet encodings: encode and decode are functions of which only the round trip is
  assumed; Polars joins, sorts and group-bys are their meaning on sequences and sets.
- The date library of the runner: its parser is taken to read the texts the analysis parser reads,
  within 64 bits.
- Timestamps.ParseTimestampNs: covers all ASCII texts, with Python's spellings of integers and the
  leniency of `strptime`; digits and blanks outside ASCII are not modelled.
- Timestamps.ParseUndoesFormat: covers every instant that fits 64-bit nanoseconds, which is all the
  printer is given.
- ProbeNetwork.IdsAreUniqueWhileCountersGrow: one direction only: a restart that reuses no id
  breaks its condition and not its conclusion; the exact one is `ProbeNetwork.IdsStayUniqueExactlyWhen`.
- ProbeNetwork.IdsStayUniqueExactlyWhen: where the clocks' era ends before a counter could reach a
  used id, nothing is claimed.
- ProbeNetwork.EverySampleIsGenuine: clocks do not drift, and do not differ by so much, nor a run last
  so long, that readings span more than 146 years, where the 64-bit sums could wrap;
  `ClockSync.Wrap64` models the wrap itself.
- Correlate.CorrectedLatencyIsBounded: a row's time enters through its choice only; how fast a clock
  drifts between a sync row and a delivery is not modelled.
- ShardCache.LogsDir.UpdateCache: temporary files, the legacy pickle and worker limits; unreadable
  sources; batch sizes other than the default. The disk is one value that each operation replaces.
- ShardGroups.DiscoverGroups: groups and their members are sets; the source lists them in the order
  of file names. Shards are complete, as after a finished run.
- CompactLog.CompactBuffers.FileReadsBack: the dictionaries and the identity survive their JSON coding
  in the file's metadata; the columns hold real numbers where the source rounds to 32-bit floats; the
  memory ceilings and the mutex around the buffers.
- BarrierStart.Startup.RunSchedule: the polling order within one runner's loop is any order here, and
  the 15-second budget is a schedule that ends early; a failed `try_clone` is not modelled.
- BarrierMesh.Mesh.RunSchedule: shutdown and the stop flag; single-runner mode is a mesh without
  connections.
- ProgressView.RemoteProgressView.ApplyUpdate: a snapshot is a value in the nested map, as the source
  owns it there; parsing of stdout lines.
- LossAccounting.AccountingIgnoresReceiverClocks: dominant shape, qos choice, throughput, latency and
  jitter statistics and late receives, of which the last two do read receiver clocks.
- Integrity counts that are plain filters (writes, skips, leaves) and timeout classification.
- CompactProjection.OnePassIsTwelvePass: the sort by time of the eager path, and casts that fail
  before the two forms differ.
- VariantArgs.ForwardedAndReportedAgree: values other than text are known by their printed form; flag
  spelling, common arguments and the peers argument.
- The barrier loops, resume, spawn expansion and termination logic that use these parts.
- Plots, tables, help texts, the resource monitor, interface enumeration and launching the analysis.
