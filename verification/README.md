# Nendi, verified

A Dafny model of Nendi, a change-data-capture log. PostgreSQL `pgoutput` bytes are decoded into change events. Events
pass through a ring, a batch and a flush into an ordered store keyed by LSN. Consumers replay them page by page, commit
offsets, and let old events be collected. Progress is acknowledged back to PostgreSQL. Around this core stand the
write-ahead log, credit flow control, the token bucket, the circuit breaker, the schema fingerprint and the ingestion
filter.

`dafny verify dfyconfig.toml` checks the whole project.

## How the model is built

Code that updates fields or runs loops is a class or a method with a loop. Each one is proved against a function of its
inputs or of its old state (`View()` gives the state as a value). The theorems are about those functions. Protocols are
transition systems whose steps are the methods, and the main results hold over every run. Concurrency is the
interleaving of atomic steps: ring pushes between the pops of one drain, the load and the exchange of the credit
counter, the check and the insert of a commit.

| file | models |
|---|---|
| `Bytes`, `Utf8`, `Events`, `Reading`, `Lsn` | big-endian integers, byte order, UTF-8, events, reading bytes, LSN text |
| `Codec`, `CodecLayout`, `CodecCut` | the binary event format, encoder and decoder; its offsets; encodings cut short |
| `Store`, `Replay` | keys, batch writes, ordered reads, key filters, replay by pages |
| `Pipeline`, `Durability` | ring, batch, flush policy, coordinator; the path from push to acknowledgement |
| `Gc`, `GcScan`, `Commits` | offsets, watermark, scheduler, compaction; interrupted scans; interleaved commits |
| `PgOutput`, `PgWire`, `PgCut`, `Intake` | the decoder; the message layouts of section 55.9 of the PostgreSQL 16 documentation; messages cut short; whole streams from the wire to store and acknowledgement |
| `Wal`, `Credits`, `TokenBucket`, `Circuit`, `Fingerprint`, `Ingestion`, `Expressions` | the self-contained machines; what filter expressions mean |

## Where a promise holds only under a condition

Each of these is proved in both directions unless the line says otherwise.

- An event survives the codec exactly when its lengths fit the 16- and 32-bit fields and its texts are UTF-8
  (`Codec.RoundTripIff`).
- A proper prefix of an encoding is taken for an event exactly when it is cut in front of a row, and then for the event
  without the rows behind the cut. Below 15 bytes it is an error, everywhere else a slice panic, which the model returns
  as `DecodePanic` (`CodecCut.CutDecodes`, `CodecCut.CutTakenIff`).
- Every written event stays readable exactly when no two different events share (lsn, xid) (`Store.NothingLostIff`).
- Paged replay, of the log and of the stored bytes, is exact for one page size exactly when no page ends inside a run of
  events with one LSN (`Replay.ReplayExactAtIff`, `Replay.BytesReplayExactAtIff`), and for every page size exactly when
  no two events in range share an LSN (`Replay.ReplayExactIff`, `Replay.BytesReplayExactIff`).
- What is reported as flushed is in the store, except exactly while a first event with LSN 0 waits for the first write:
  the confirmed LSN starts as 0 and so already covers it (`Durability.DurableIff`).
- Storing a consumer's first commit is safe exactly when its resume position is not behind the last watermark
  (`Gc.FirstCommitIff`). For a consumer without a commit, some filter removes what it would read exactly when a
  watermark was issued (`Gc.UncommittedUnprotectedIff`), and after a collection it still reads everything exactly when
  nothing written lies below the watermark (`Gc.UncommittedReadsIff`). `Gc.LateConsumerLoses` gives the runs in which
  written events are lost to it, before and after a late first commit.
- A watermark scan that commits interrupt can advance past a consumer that comes behind it. Finishing it is safe exactly
  when each consumer that came during the scan and was not seen resumes at or above its result
  (`GcScan.ScanFinishIff`); `GcScan.JoinBehindScanLoses` gives the runs in which an event is lost.
- In every interleaving no consumer moves back exactly when, for each commit, whatever was stored for its consumer
  between its check and its store, and not forgotten again by unregistering, is no higher than the commit
  (`Commits.NeverBackIff`). Serialised commits meet this (`Commits.CommitNeverRegresses`); for any two positions
  two overlapping commits have an order that does not (`Commits.OverlapRegresses`).
- A proper prefix of a message is refused exactly when it is not empty, its tag is one that is decoded, and it is not a
  truncation whose first relation is there. The empty prefix decodes to nothing, whatever the message
  (`PgCut.CutIff`).
- No credit is lost exactly when each replenishment found room for its capped amount in the 32-bit counter
  (`Credits.NoLossIff`); one full replenishment of an untouched window of 2^31 or more does not
  (`Credits.FullReplenishLoses`). An acknowledgement keeps credits and pending in balance exactly when it covers no more
  than is pending, or all of the window is pending (`Credits.AckBalancedIff`).
- A log segment reads back exactly when 8 plus the length of each record is below 2^32 (`Wal.SegmentReadsBackIff`).
- Tokens stay within [0, burst] over every run exactly when the rate is not negative (`TokenBucket.TokensStayIff`). After
  a refusal there is a backoff exactly when it is shorter than the longest duration, and a later attempt is granted
  exactly when it is over (`TokenBucket.BackoffIff`).
- An attempt on the token bucket is granted exactly when it keeps every window of attempts that ends with it within
  burst + rate * t (`TokenBucket.RefusedIff`).
- LSN text prints back as itself exactly when it is the canonical spelling (`Lsn.ParsePrintIff`).
- A filter rule of comparisons reads back from its rendering exactly when each predicate is trimmed, free of semicolons,
  does not start like an operation clause, and its text holds no symbol that is tried earlier and its own symbol first
  where it was put (`Ingestion.RenderParseIff`).
- A canonical schema text stands for one schema alone exactly when that schema has no columns, no dot in either name, and
  no bar with a colon behind it in its table name (`Fingerprint.IdentifiedIff`). So every table with columns shares its
  fingerprint with another (`Fingerprint.SwallowedColumnsCollide`). Among schemas whose separators can be found again
  the text is injective (`Fingerprint.CanonicalInjective`).

Where the code and its comments differ, the model follows the code:

- The key comment of core/src/storage/rocks/tenant.rs:16 names a table hash; the key has none.
- core/src/storage/wal/batch.rs:95 says segments below the watermark go; the watermark is ignored.
- core/src/offset/manager.rs:38 says a registered consumer starts from zero; registering stores nothing.

## Model

| member | source | states |
|---|---|---|
| `Bytes.LexIsNumeric` | shared/src/lsn/types.rs:29-37 | byte order of equal-length big-endian integers is numeric order, both ways |
| `Bytes.LexAtFirstDifference` | core/src/pipeline/ingestion.rs:115-137 | behind a common prefix the first differing byte decides the order, or the shorter text comes first |
| `Bytes.DecimalMeaning` | services/pgsql/src/decoding/pgoutput.rs:371 | the decimal text is the number's digits without leading zeros |
| `Utf8.ValidIff` | services/pgsql/src/decoding/pgoutput.rs:352 | the texts accepted are exactly the UTF-8 encodings of sequences of Unicode scalar values |
| `Events.EstimateRow` | shared/src/event/envelope.rs:63-68 | the column loop adds up names and values |
| `Events.EstimateSize` | shared/src/event/envelope.rs:60-76 | the two row loops give the estimate that batches add up |
| `Lsn.PrintParse` | shared/src/lsn/types.rs:40-54 | printing then parsing is the identity on every 64-bit LSN |
| `Lsn.ParsePrintIff` | shared/src/lsn/types.rs:40-54 | parsed text prints back as itself iff it is canonical; parse after print after parse is parse |
| `Lsn.ParseDigitsIff` | shared/src/lsn/types.rs:44-45 | exactly the hexadecimal texts below 2^32 are accepted, either case, any length, with their positional value |
| `Lsn.ParsesIff` | shared/src/lsn/types.rs:40-47 | exactly the texts with two 32-bit hexadecimal halves around the first slash parse, and to which LSN |
| `Codec.ParseEventPrinted` | shared/src/serialize/proto.rs:49-113 | decoding an encoded event followed by any bytes gives the event and leaves exactly those bytes |
| `Codec.DecodedIsWellFormed` | shared/src/serialize/proto.rs:49-113 | whatever decodes has lengths that fit and valid UTF-8 |
| `Codec.RoundTripIff` | shared/src/serialize/proto.rs:19-113 | decode after encode is the identity iff lengths fit their fields and texts are UTF-8, whatever follows |
| `Codec.PrefixFree` | shared/src/serialize/proto.rs:19-46 | no encoding is a proper prefix of another and the encoding is injective |
| `Codec.EncodedLength` | shared/src/event/envelope.rs:60-76 | the estimate less the struct size is exactly the payload of the encoding; the rest is 33 bytes and the row overhead |
| `CodecLayout.EventLayout` | shared/src/serialize/proto.rs:19-46 | the offset and content of every field, with the operation bytes and two's complement spelled out |
| `CodecLayout.RowLayout` | shared/src/serialize/proto.rs:134-139 | flag 0 for an absent row, else 1, the count and the columns |
| `CodecLayout.ColumnsLayout` | shared/src/serialize/proto.rs:140-157 | the columns stand one behind the other |
| `CodecLayout.ColumnLayout` | shared/src/serialize/proto.rs:140-157 | the offset and content of every part of a column, null or not |
| `CodecLayout.AnyFlag` | shared/src/serialize/proto.rs:166-193 | any flag but 0 announces a row or a value |
| `CodecLayout.UnknownOperation` | shared/src/serialize/proto.rs:65 | a byte that stands for no operation is an error |
| `CodecCut.CutDecodes` | shared/src/serialize/proto.rs:49-113 | every proper prefix of every encoding: error below 15 bytes, the event without its last rows when cut exactly in front of a row, a panic everywhere else |
| `CodecCut.CutTakenIff` | shared/src/serialize/proto.rs:162-170 | a prefix is taken for an event iff cut in front of a row, and for the right one iff the rows behind the cut were absent |
| `Codec.EncodeColumn` | shared/src/serialize/proto.rs:140-157 | the appended bytes are the printed column, null or not, with lengths truncated as the casts do |
| `Codec.EncodeRowData` | shared/src/serialize/proto.rs:134-160 | the loop over columns appends the printed row, absent or present |
| `Codec.EncodeShort` | shared/src/serialize/proto.rs:28-35 | a 16-bit length and the bytes are appended |
| `Codec.EncodeEvent` | shared/src/serialize/proto.rs:19-46 | the encoder's buffer is the printed event |
| `Codec.ReadUint` | shared/src/serialize/proto.rs:56-62 | a cursor read agrees with parsing the remaining bytes and stays inside the buffer, or panics exactly where a slice would |
| `Codec.ReadText` | shared/src/serialize/proto.rs:72-75 | the same for a text, with an error exactly on invalid UTF-8 |
| `Codec.ReadShort` | shared/src/serialize/proto.rs:68-84 | the same for a length-prefixed text |
| `Codec.DecodeColumn` | shared/src/serialize/proto.rs:178-208 | the same for a column |
| `Codec.DecodeColumns` | shared/src/serialize/proto.rs:176-208 | the column loop agrees with the parser for any count |
| `Codec.DecodeRowData` | shared/src/serialize/proto.rs:162-212 | the same for a row; a row missing at the end of the buffer is absent |
| `Codec.DecodeBody` | shared/src/serialize/proto.rs:68-113 | behind a valid header the cursor decoder gives what the parser gives |
| `Codec.DecodeEvent` | shared/src/serialize/proto.rs:49-113 | the cursor decoder gives, on every byte string, the event, error or panic of the parser |
| `Store.BigEndianOrder` | core/src/storage/rocks/tenant.rs:129-134 | fixed-width big-endian bytes order and compare as the numbers |
| `Store.KeyOrder` | core/src/storage/rocks/tenant.rs:129-134 | key order is (lsn, xid) order; equal keys mean equal pairs |
| `Store.StartKeyOrder` | core/src/storage/rocks/tenant.rs:97-103 | an 8-byte start key cuts the 12-byte keys exactly at its LSN |
| `Store.SortedAscending` | core/src/storage/rocks/tenant.rs:100-103 | iteration visits keys in strictly ascending byte order |
| `Store.AscendingUnique` | core/src/storage/rocks/tenant.rs:100-103 | an ascending listing is determined by its members |
| `Store.WriteHolds` | core/src/storage/rocks/tenant.rs:58-87 | writing fitting events keeps the store the byte form of its contents |
| `Store.PutAllKeepsLast` | core/src/storage/rocks/tenant.rs:58-87 | the last event written under a key is the one held |
| `Store.WriteAllKeepsLast` | core/src/storage/rocks/tenant.rs:58-87 | the last event written under a key is held as its encoding |
| `Store.PutAllOnlyLast` | core/src/storage/rocks/tenant.rs:58-87 | whatever is held is the last event written under its key |
| `Store.LogOrdered` | core/src/storage/rocks/tenant.rs:100-119 | the log lists exactly the events held, in strict (lsn, xid) order |
| `Store.ScanHeld` | core/src/storage/rocks/tenant.rs:103-118 | the read loop takes max(limit, 1) events in key order |
| `Store.IterateIsFrom` | core/src/storage/rocks/tenant.rs:97-103 | iterating from the start key lists exactly the log from that LSN on |
| `Store.ReadIsPage` | core/src/storage/rocks/tenant.rs:90-119 | a read is the first max(limit, 1) events of the log at or after the start |
| `Store.ScanMeaning` | core/src/storage/rocks/tenant.rs:103-118 | on any stored bytes: values that do not decode are skipped, reading stops at max(limit, 1) events, and panics exactly when a panicking value comes first |
| `Store.PageIff` | core/src/storage/rocks/tenant.rs:58-119 | a page is the one sequence that the write history alone allows: ordered, last-written, nothing skipped |
| `Store.NothingLostIff` | core/src/storage/rocks/tenant.rs:129-134 | every written event is readable iff different events never share (lsn, xid) |
| `Store.StoreRefinement` | core/src/storage/rocks/tenant.rs:58-119 | after any batches of fitting events, reading bytes gives exactly that page |
| `Store.TenantStore.WriteBatch` | core/src/storage/rocks/tenant.rs:58-87 | all puts or, without a column family, none; the new store in full |
| `Store.TenantStore.ReadFrom` | core/src/storage/rocks/tenant.rs:90-119 | the loop returns the scan of the visited keys, or the missing-column-family error |
| `Replay.KeyFilterExact` | core/src/storage/rocks/filter.rs:39-66 | the key test decides exactly the LSN range and never drops an accepted event |
| `Replay.AcceptIff` | core/src/storage/rocks/filter.rs:39-54 | an event passes iff its LSN is in range and, if tables are given, its qualified name is one of them |
| `Replay.ShortKeys` | core/src/storage/rocks/compaction.rs:30-42 | keys too short for an LSN are neither matched nor dropped |
| `Replay.GcFilterExact` | core/src/storage/rocks/compaction.rs:30-42 | on store keys the prefix comparison is exactly lsn < watermark |
| `Replay.RangeCovers` | http/src/egress/grpc/replay.rs:19-28 | the range holds exactly the events after the commit up to the head; no range means there are none |
| `Replay.ReplayedSound` | http/src/egress/grpc/replay.rs:19-28 | replay ends, and yields only stored events in range, in strict order |
| `Replay.ReplayedComplete` | http/src/egress/grpc/replay.rs:19-28 | with distinct LSNs it yields every event in range, for every page size |
| `Replay.ReplayExactIff` | http/src/egress/grpc/replay.rs:19-28 | replay is exact for every page size iff LSNs in range are distinct |
| `Replay.ReplayExactAtIff` | http/src/egress/grpc/replay.rs:19-28 | for one page size n, replay is exact iff the events before and at every multiple of n in range differ in LSN |
| `Replay.BytesReplayLog` | core/src/storage/rocks/tenant.rs:90-119 | repeating reads of stored bytes behind the last LSN yields exactly the replay of the log they stand for |
| `Replay.ReplayStore` | core/src/storage/rocks/tenant.rs:90-119 | the loop over `read_from` on a store gives exactly that |
| `Replay.BytesReplayExactIff` | core/src/storage/rocks/tenant.rs:90-119 | reading stored bytes page by page gives exactly the events in range, for every page size, iff LSNs in range are distinct |
| `Replay.BytesReplayExactAtIff` | core/src/storage/rocks/tenant.rs:90-119 | the same for reading stored bytes |
| `Pipeline.PushTight` | core/src/pipeline/batch.rs:36-49 | a push keeps minimum, maximum and byte total those of the events |
| `Pipeline.WriteBatch.Push` | core/src/pipeline/batch.rs:36-49 | the new batch in full |
| `Pipeline.FlushPolicy.Accumulate` | core/src/pipeline/flush.rs:42-44 | the new policy in full |
| `Pipeline.FlushPolicy.ShouldFlush` | core/src/pipeline/flush.rs:47-58 | the dual threshold at a clock reading; `Durability.FlushDueIff` says what it means over runs |
| `Pipeline.FlushPolicy.MarkFlushed` | core/src/pipeline/flush.rs:61-65 | the new policy in full |
| `Pipeline.RingBuffer.TryPush` | shared/src/queue/ring.rs:28-33 | a push is refused exactly when the ring is full; order is kept |
| `Pipeline.RingBuffer.TryPop` | shared/src/queue/ring.rs:35-40 | the oldest item leaves, or nothing when empty |
| `Pipeline.PipelineCoordinator.DrainRing` | core/src/pipeline/coordinator.rs:36-46 | the loop empties the ring into the batch in order and counts what it moved |
| `Pipeline.PipelineCoordinator.MaybeFlush` | core/src/pipeline/coordinator.rs:51-69 | hands out the batch exactly when due and not empty; the new state in full |
| `Pipeline.PipelineCoordinator.ForceFlush` | core/src/pipeline/coordinator.rs:72-81 | hands out every non-empty batch; the new state in full |
| `Pipeline.PopAllMeaning` | core/src/pipeline/coordinator.rs:36-46 | a drain leaves the ring empty, its events behind those of the batch, and their size accounted for |
| `Durability.AckManager.AdvanceReceived` | services/pgsql/src/replication/ack.rs:42-47 | the new acknowledgement state in full |
| `Durability.AckManager.AdvanceConfirmed` | services/pgsql/src/replication/ack.rs:50-55 | the new acknowledgement state in full |
| `Durability.AckManager.ShouldAck` | services/pgsql/src/replication/ack.rs:58-72 | heartbeat, or dirty after the short interval |
| `Durability.AckManager.BuildStatusUpdate` | services/pgsql/src/replication/ack.rs:78-95 | the reported triple and the cleared state |
| `Durability.StepKeeps` | core/src/pipeline/coordinator.rs:36-81 | every step keeps conservation, byte and flush counts, store and acknowledgement in step |
| `Durability.RunKeeps` | core/src/pipeline/coordinator.rs:36-81 | over every run: accepted events are, in order, flushed + batch + ring; counts and bounds agree; the store is the written prefix; dirty means unreported progress |
| `Durability.DurableIff` | services/pgsql/src/replication/ack.rs:42-95 | with increasing LSNs, all events at or below the confirmed LSN are stored iff no LSN-0 first event waits for the first write |
| `Durability.DurableAcknowledgement` | services/pgsql/src/replication/ack.rs:42-95 | every event at or below any reported flush LSN is stored, and a read at its LSN returns it first |
| `Durability.StatusNeverDecreases` | services/pgsql/src/replication/ack.rs:78-95 | successive status triples never decrease in any component |
| `Durability.AckDueIff` | services/pgsql/src/replication/ack.rs:58-72 | over every run an update is due iff the heartbeat is, or the current triple differs from the last one reported and the short interval is over |
| `Durability.ReceivedIsHighest` | services/pgsql/src/replication/ack.rs:42-47 | the write LSN is the highest ever received |
| `Durability.ConfirmCovers` | core/src/pipeline/batch.rs:36-49 | confirming a written batch covers each of its events |
| `Durability.MaybeFlushIff` | core/src/pipeline/flush.rs:47-58 | a flush happens iff the batch is not empty and has reached a threshold; else nothing changes |
| `Durability.FlushDueIff` | core/src/pipeline/flush.rs:47-65 | over every run a check hands out a non-empty batch iff the sizes of its events reach the maximum, or the time since the last batch was handed out, in 64 bits, reaches the age |
| `Durability.DrainForceEmpties` | core/src/pipeline/coordinator.rs:36-81 | drain and forced flush leave nothing behind |
| `Gc.WatermarkUnique` | core/src/storage/gc/watermark.rs:34-46 | the watermark is determined by the offsets |
| `Gc.MinValue` | core/src/storage/gc/watermark.rs:34-46 | the loop finds the least offset in any visiting order; 0 for none or all at the maximum |
| `Gc.OffsetManager.Commit` | core/src/offset/registry.rs:30-45 | accepted iff there is no offset or it is not above the new one; the new map in full |
| `Gc.OffsetManager.UnregisterConsumer` | core/src/offset/manager.rs:46-49 | the new map in full |
| `Gc.OffsetManager.ResumeLsn` | core/src/offset/manager.rs:25-31 | one after the commit, saturating; 0 without one |
| `Gc.OffsetManager.MinOffset` | core/src/offset/registry.rs:53-65 | the watermark of the offsets |
| `Gc.GcScheduler.MaybeGc` | core/src/storage/gc/scheduler.rs:39-57 | issues the watermark exactly when it is above the last one |
| `Gc.RunKeeps` | core/src/storage/gc/scheduler.rs:39-57 | over every allowed run, interrupted scans included: offsets stay at or above the last watermark, watermarks increase, only events below the last one are gone |
| `Gc.FullIsHistory` | core/src/storage/rocks/tenant.rs:58-87 | what a consumer is compared against is exactly the write history, last write per key |
| `Gc.GcSafety` | core/src/storage/gc/scheduler.rs:39-57 | no filter ever issued removes what a tracked consumer still has to read; it reads on as if nothing had been collected |
| `Gc.ReadsOn` | core/src/storage/rocks/compaction.rs:30-42 | from the last watermark on, the compacted log is the full log |
| `Gc.GcCollects` | core/src/storage/rocks/compaction.rs:30-42 | collecting and compacting keeps exactly the events at or above the least offset or the last watermark |
| `Gc.BytesHold` | core/src/storage/rocks/compaction.rs:30-42 | over every run of writes and compactions whose events fit the codec, the stored bytes are the byte form of what is kept |
| `Gc.ReplayAfterGc` | http/src/egress/grpc/replay.rs:19-28 | replay of the compacted store gives a tracked consumer every event of the write history after its commit, once, in order, iff no page ends inside a run of one LSN, which distinct LSNs rule out; when the written events fit the codec, reading the compacted bytes page by page gives the same; the range starts at its resume LSN |
| `Gc.FirstCommitIff` | core/src/offset/registry.rs:30-45 | a first commit leaves the system safe iff it resumes at or above the last watermark |
| `Gc.UncommittedUnprotectedIff` | core/src/offset/manager.rs:39-43 | for a consumer without a commit, some issued filter removes an event it would read iff a watermark was issued |
| `Gc.UncommittedReadsIff` | core/src/offset/manager.rs:39-43 | after a collection it reads everything ever written iff nothing written lies below the watermark |
| `Gc.LateConsumerLoses` | core/src/offset/registry.rs:30-45 | for every event older than another consumer's commit, an allowed run from the start that drops it; a late first commit then leaves the system unsafe and the consumer without the event |
| `Gc.UnregisterReleases` | core/src/offset/manager.rs:46-49 | after unregistering, a collection keeps exactly the events at or above the least offset of the others or the last watermark; the others keep their positions |
| `GcScan.UndisturbedScan` | core/src/storage/gc/watermark.rs:34-46 | in whatever order it sees the consumers, a scan that nothing interrupts issues what the watermark says |
| `GcScan.UnseenAreNew` | core/src/storage/gc/watermark.rs:34-46 | whoever a finished scan did not see came while it ran |
| `GcScan.ScanFinishIff` | core/src/storage/gc/scheduler.rs:39-57 | a finish that advances the watermark is safe iff each consumer that came during the scan unseen resumes at or above its result |
| `GcScan.AheadStays` | core/src/offset/registry.rs:30-45 | a new consumer at or above the least value seen so far stays at or above the result |
| `GcScan.JoinBehindScanLoses` | core/src/storage/gc/watermark.rs:34-46 | for every event between the two positions, an allowed run and a scan it interrupts that lose the event to the new consumer |
| `Commits.NeverBackIff` | core/src/offset/registry.rs:30-45 | in every interleaving no consumer moves back iff nothing higher is stored for it, and kept, between the check and the store of one of its commits |
| `Commits.CommitNeverRegresses` | core/src/offset/registry.rs:30-45 | serialised commits never move a consumer back, over every run |
| `Commits.OverlapRegresses` | core/src/offset/registry.rs:30-45 | for every pair of positions there is a run of two overlapping commits that moves the consumer from the higher to the lower |
| `PgOutput.U8At` | services/pgsql/src/decoding/pgoutput.rs:317-324 | a cursor read agrees with reading the remaining bytes and never leaves the message |
| `PgOutput.U16At` | services/pgsql/src/decoding/pgoutput.rs:326-333 | the same for 16 bits |
| `PgOutput.U32At` | services/pgsql/src/decoding/pgoutput.rs:335-342 | the same for 32 bits |
| `PgOutput.CStringAt` | services/pgsql/src/decoding/pgoutput.rs:344-355 | the search loop finds the first zero byte, or reports an unterminated or invalid string |
| `PgOutput.BytesAt` | services/pgsql/src/decoding/pgoutput.rs:391-418 | a sized value, or an error when it reaches beyond the message |
| `PgOutput.CellAt` | services/pgsql/src/decoding/pgoutput.rs:367-427 | one column by its kind |
| `PgOutput.TupleAt` | services/pgsql/src/decoding/pgoutput.rs:358-431 | the column loop agrees with the reader for any count, labelled from the relation |
| `PgOutput.MetaAt` | services/pgsql/src/decoding/pgoutput.rs:172-180 | one relation column |
| `PgOutput.MetasAt` | services/pgsql/src/decoding/pgoutput.rs:168-181 | the relation column loop |
| `PgOutput.RelationAt` | services/pgsql/src/decoding/pgoutput.rs:147-202 | a relation message |
| `PgOutput.PgOutputDecoder.Decode` | services/pgsql/src/decoding/pgoutput.rs:77-119 | total on every byte string; the result and the new relation table; an error leaves the table unchanged |
| `PgOutput.PgOutputDecoder.DecodeInsert` | services/pgsql/src/decoding/pgoutput.rs:204-229 | the insert event or the first error, in the order of the reads |
| `PgOutput.PgOutputDecoder.DecodeUpdate` | services/pgsql/src/decoding/pgoutput.rs:231-260 | the update event with its optional old tuple, or the first error |
| `PgOutput.PgOutputDecoder.DecodeDelete` | services/pgsql/src/decoding/pgoutput.rs:262-285 | the delete event or the first error |
| `PgOutput.PgOutputDecoder.DecodeTruncate` | services/pgsql/src/decoding/pgoutput.rs:287-312 | the first relation's event, nothing when it is unknown, or an error |
| `PgOutput.ReplicationStream.ProcessMessage` | services/pgsql/src/replication/stream.rs:54-68 | an error moves neither the position nor the table |
| `PgWire.InsertOf` | services/pgsql/src/decoding/pgoutput.rs:204-229 | a laid-out insert reads as its meaning and uses up every byte; a tag other than `N` is an error |
| `PgWire.UpdateOf` | services/pgsql/src/decoding/pgoutput.rs:231-260 | the same for an update with no, key or full old tuple |
| `PgWire.DeleteOf` | services/pgsql/src/decoding/pgoutput.rs:262-285 | the same for a delete |
| `PgWire.TruncateOf` | services/pgsql/src/decoding/pgoutput.rs:287-312 | a laid-out truncation decodes to its first relation |
| `PgWire.RelationOf` | services/pgsql/src/decoding/pgoutput.rs:147-202 | a laid-out relation replaces the entry of its OID |
| `PgWire.ReadTupleOf` | services/pgsql/src/decoding/pgoutput.rs:358-431 | a laid-out tuple reads as its row and leaves what follows; `PgWire.TupleColumn` spells the row out |
| `PgWire.TupleColumn` | services/pgsql/src/decoding/pgoutput.rs:366-428 | column i: name and type from the relation, or its number and no type beyond it; text as is, binary as `\x` and two digits for each byte, null, unchanged and unknown kinds as no value |
| `PgWire.DecodeWire` | services/pgsql/src/decoding/pgoutput.rs:77-119 | every laid-out message, also with tags the documentation does not list, decodes to its meaning under any relation table |
| `PgWire.TableIsLatest` | services/pgsql/src/decoding/pgoutput.rs:147-202 | after any run the table holds the latest relation of each OID |
| `PgWire.TableOnlyLatest` | services/pgsql/src/decoding/pgoutput.rs:147-202 | and nothing else |
| `PgWire.RunDecodes` | services/pgsql/src/decoding/pgoutput.rs:77-119 | in any run each message decodes to its meaning under the relations before it |
| `PgWire.HexLossless` | services/pgsql/src/decoding/pgoutput.rs:434-436 | the hexadecimal text of a binary value determines it |
| `PgCut.CutIff` | services/pgsql/src/decoding/pgoutput.rs:77-119 | every proper prefix of every well-laid message: refused iff not empty, of a decoded tag, and no truncation with its first relation present; the empty one decodes to nothing, the others that decode give the meaning of the whole |
| `PgCut.TrailingIgnored` | services/pgsql/src/decoding/pgoutput.rs:77-119 | bytes behind a complete message change nothing |
| `PgCut.TupleExtends` | services/pgsql/src/decoding/pgoutput.rs:358-431 | a tuple read from the front of a message is read the same when more bytes follow |
| `Intake.ReadRelationFits` | services/pgsql/src/decoding/pgoutput.rs:147-202 | names in a relation message of at most 64 KiB fit the codec |
| `Intake.ShortNamesFit` | services/pgsql/src/decoding/pgoutput.rs:77-119 | so no message of at most 64 KiB can spoil the table |
| `Intake.DecodedEventFits` | services/pgsql/src/decoding/pgoutput.rs:77-119 | every event decoded under fitting names from a message below 2^31 - 1 bytes survives the codec unchanged; only a relation message with longer names can spoil the table |
| `Intake.FedFits` | services/pgsql/src/replication/stream.rs:54-68 | over every stream of messages below 2^31 - 1 bytes whose relation names stay below 64 KiB, well-laid or not, every event emitted fits the codec |
| `Intake.FedIncreasing` | services/pgsql/src/replication/stream.rs:54-68 | rising message positions give events with rising LSNs |
| `Intake.FedIsStored` | core/src/storage/rocks/tenant.rs:58-119 | events of any such stream, written in any batches, read back as the page they determine; all are readable iff different ones never share an LSN |
| `Intake.FedIsDurable` | services/pgsql/src/replication/ack.rs:42-95 | from the wire to the acknowledgement: each decoded event at or below any reported flush LSN is read back first from the stored bytes |
| `Wal.SegmentReadsBack` | core/src/storage/wal/batch.rs:47-63 | a segment of fitting records parses to exactly those records |
| `Wal.RecordReadsBackIff` | core/src/storage/wal/batch.rs:47-63 | a record parses back iff its length fits the 32-bit field |
| `Wal.SegmentReadsBackIff` | core/src/storage/wal/batch.rs:47-63 | a segment parses back iff every record in it does |
| `Wal.RecordLayout` | core/src/storage/wal/batch.rs:53-60 | the offset and content of the length, the LSN and the payload |
| `Wal.AppendOnlyAdds` | core/src/storage/wal/batch.rs:47-93 | whatever the directory holds, an append keeps every file and adds the record to the current segment |
| `Wal.WalWriter.Append` | core/src/storage/wal/batch.rs:47-63 | the new files and counters in full, after rotating when needed |
| `Wal.WalWriter.Rotate` | core/src/storage/wal/batch.rs:74-93 | the new files and counters in full |
| `Wal.WalWriter.GcSegments` | core/src/storage/wal/batch.rs:96-115 | which files are left, and how many went |
| `Wal.RunKeeps` | core/src/storage/wal/batch.rs:47-115 | over every run the segments hold, in order, exactly the appended records |
| `Wal.WalFraming` | core/src/storage/wal/batch.rs:47-115 | files left are the last segments, each parses to whole records, together a suffix of history; a segment reaches the maximum with its last record only and closed ones do reach it |
| `Wal.LastLsnIsLast` | core/src/storage/wal/batch.rs:47-63 | over every run the remembered LSN is that of the last record |
| `Wal.CollectLeavesThree` | core/src/storage/wal/batch.rs:96-115 | a collection leaves exactly the current segment and the two before it |
| `Credits.CreditThrottle.TryConsume` | core/src/backpressure/throttle.rs:29-43 | takes one credit exactly when there is one, however often the weak exchange fails |
| `Credits.CreditThrottle.Replenish` | core/src/backpressure/throttle.rs:46-50 | adds the capped amount modulo 2^32 |
| `Credits.GrpcBackpressure.OnAck` | http/src/egress/grpc/backpressure.rs:26-29 | pending less the count, never below zero |
| `Credits.LoneConsume` | core/src/backpressure/throttle.rs:29-43 | a thread left alone takes one credit iff there is one |
| `Credits.CreditConservation` | core/src/backpressure/throttle.rs:29-50 | in every interleaving credits + consumed + 2^32 times the wraps = window + grants |
| `Credits.NoLossIff` | core/src/backpressure/throttle.rs:46-50 | in every interleaving no credit is lost iff each replenishment found room for its capped amount; a total below 2^32 ensures it |
| `Credits.FullReplenishLoses` | core/src/backpressure/throttle.rs:46-50 | one full replenishment of an untouched window of at least 2^31 loses 2^32 credits |
| `Credits.PairedKeeps` | http/src/egress/grpc/backpressure.rs:22-34 | when acknowledgements drive both counters, credits + on the way + pending + owed = window at every step |
| `Credits.PauseIffNoCredit` | http/src/egress/grpc/backpressure.rs:22-34 | a paused stream has no credit; when settled, it is paused iff credits are out |
| `Credits.AckBalancedIff` | http/src/egress/grpc/backpressure.rs:22-34 | an acknowledgement keeps the balance iff it covers no more than is pending, or all of the window is pending |
| `Fingerprint.HashText` | services/pgsql/src/schema/fingerprint.rs:11-43 | the byte loop is the FNV-1a fold from any start |
| `Fingerprint.HashColumn` | services/pgsql/src/schema/fingerprint.rs:11-43 | one column hashes as its text |
| `Fingerprint.Compute` | services/pgsql/src/schema/fingerprint.rs:11-43 | the nested loops take exactly the steps of 64-bit FNV-1a, from its offset basis, over the bytes of the schema, 0x2E, the table, and for each column 0x7C, name, 0x3A, type |
| `Fingerprint.FingerprintIsFnv1a` | services/pgsql/src/schema/fingerprint.rs:11-43 | the fingerprint the other results speak of is that hash |
| `Fingerprint.IsFnv1aUnique` | services/pgsql/src/schema/fingerprint.rs:11-43 | the steps of FNV-1a lead to one hash only |
| `Fingerprint.Anchor` | services/pgsql/src/schema/fingerprint.rs:11-23 | the fingerprint of empty names without columns |
| `Fingerprint.FnvConcat` | services/pgsql/src/schema/fingerprint.rs:11-43 | hashing a concatenation is hashing its parts in turn |
| `Fingerprint.FnvInjective` | services/pgsql/src/schema/fingerprint.rs:11-43 | for any text the fold is injective in its start value modulo 2^64 |
| `Fingerprint.OneByteChangesHash` | services/pgsql/src/schema/fingerprint.rs:11-43 | texts of one length differing in one byte never collide |
| `Fingerprint.FingerprintSensitive` | services/pgsql/src/schema/fingerprint.rs:11-43 | the same for schemas by their canonical texts |
| `Fingerprint.CanonicalInjective` | services/pgsql/src/schema/fingerprint.rs:11-43 | among schemas whose separators can be found again, texts are equal iff the schemas are |
| `Fingerprint.DottedNamesCollide` | services/pgsql/src/schema/fingerprint.rs:11-43 | a dot in a name belongs to schema or table alike: text and fingerprint are one |
| `Fingerprint.SwallowedColumnsCollide` | services/pgsql/src/schema/fingerprint.rs:11-43 | a table name can swallow the columns: every table with columns shares text and fingerprint with one without |
| `Fingerprint.IdentifiedIff` | services/pgsql/src/schema/fingerprint.rs:11-43 | a text stands for one schema alone iff it has no columns, no dot in either name and no bar with a colon behind it in the table name |
| `Ingestion.ParseFilterExpr` | core/src/pipeline/ingestion.rs:142-165 | the loop collects what the trimmed clauses contribute, in order |
| `Expressions.FilterMeaning` | core/src/pipeline/ingestion.rs:71-112 | which events a table configured with an expression accepts: no operation named or its own, and every comparison satisfied; other tables are untouched and no rule admits everything |
| `Expressions.OperationsMeaning` | core/src/pipeline/ingestion.rs:152-158 | `op:` and names admits an event iff a comma part, trimmed, is one of the three spellings of its operation, or no part is a spelling of any |
| `Expressions.SpellingIff` | shared/src/event/types.rs:26-34 | each operation has exactly its three spellings |
| `Expressions.TrimMeaning` | core/src/pipeline/ingestion.rs:147 | on every text, trimming drops exactly the Unicode white space at both ends |
| `Expressions.SplitMeaning` | core/src/pipeline/ingestion.rs:146-154 | the parts hold no separator and give the text back |
| `Expressions.FindMeaning` | core/src/pipeline/ingestion.rs:178 | the first occurrence, or none |
| `Ingestion.ParseTakes` | core/src/pipeline/ingestion.rs:167-190 | the symbol that is tried first among those that occur decides the comparison |
| `Ingestion.ComparisonMeaning` | core/src/pipeline/ingestion.rs:115-137 | all six comparisons are decided by the bytes behind the common prefix; a missing or null value satisfies only the null test |
| `Ingestion.ContainsMeaning` | core/src/pipeline/ingestion.rs:115-137 | containing means being that text with something around it, starting with it means something behind it only, both ways |
| `Ingestion.GetTextFirst` | core/src/pipeline/ingestion.rs:78-112 | the first column of the name decides, or there is no value |
| `Ingestion.RuleMembers` | core/src/pipeline/ingestion.rs:142-165 | a rule holds exactly what its clauses contribute |
| `Ingestion.ClauseOrderIrrelevant` | core/src/pipeline/ingestion.rs:142-165 | order, repetition and surrounding space of clauses never change which events are admitted |
| `Ingestion.PredicateClauseIff` | core/src/pipeline/ingestion.rs:167-190 | a rendered comparison reads back from its clause iff it is trimmed, no operation clause, and its symbol stands |
| `Ingestion.RenderParseIff` | core/src/pipeline/ingestion.rs:142-190 | a rule of comparisons reads back from the documented format iff each predicate does and holds no semicolon |
| `Ingestion.RenderParse` | core/src/pipeline/ingestion.rs:142-190 | in particular every rule of comparisons of plain texts does |
| `TokenBucket.ReplicationThrottle.TryAcquire` | services/pgsql/src/replication/throttle.rs:46-56 | the grant and the new bucket in full; `TokenBucket.RefusedIff` says what they mean over runs |
| `TokenBucket.ReplicationThrottle.BackoffDuration` | services/pgsql/src/replication/throttle.rs:59-66 | the wait, or no value where the conversion panics: infinite, negative or beyond the longest duration |
| `TokenBucket.ReplicationThrottle.Refill` | services/pgsql/src/replication/throttle.rs:68-74 | the new bucket in full |
| `TokenBucket.TokensStay` | services/pgsql/src/replication/throttle.rs:46-74 | tokens stay within [0, burst] over every run with a nondecreasing clock |
| `TokenBucket.TokensStayIff` | services/pgsql/src/replication/throttle.rs:46-74 | and do so iff the rate is not negative |
| `TokenBucket.RateBound` | services/pgsql/src/replication/throttle.rs:46-74 | any stretch of length t grants at most burst + rate * t |
| `TokenBucket.InHandIsLeast` | services/pgsql/src/replication/throttle.rs:46-74 | the tokens in hand are the least that any window of attempts leaves of burst + rate * t |
| `TokenBucket.RefusedIff` | services/pgsql/src/replication/throttle.rs:46-56 | an attempt is granted iff it keeps every window that ends with it within burst + rate * t |
| `TokenBucket.FirstBurst` | services/pgsql/src/replication/throttle.rs:46-56 | the first `burst` attempts on a new bucket are all granted |
| `TokenBucket.BackoffIff` | services/pgsql/src/replication/throttle.rs:59-66 | after a refusal there is a backoff iff the rate brings the missing part of a token within the longest duration, and a later attempt is granted iff it is over |
| `Circuit.CircuitBreaker.AllowRequest` | http/src/egress/webhook/circuit.rs:44-65 | the decision and the new state in full |
| `Circuit.CircuitBreaker.OnSuccess` | http/src/egress/webhook/circuit.rs:68-80 | the new state in full |
| `Circuit.CircuitBreaker.OnFailure` | http/src/egress/webhook/circuit.rs:83-103 | the new state in full |
| `Circuit.OpensExactly` | http/src/egress/webhook/circuit.rs:83-103 | a closed breaker opens exactly on the max(threshold, 1)-th failure in a row; the opening time is set iff not closed |
| `Circuit.NoGrantAfterTrip` | http/src/egress/webhook/circuit.rs:44-65 | nothing is granted within the timeout of a trip, whatever happens in between |
| `Circuit.OpenGrantsIff` | http/src/egress/webhook/circuit.rs:44-65 | while open since a trip, a request is granted iff the timeout is over |
| `Circuit.OneProbe` | http/src/egress/webhook/circuit.rs:44-103 | after a probe requests are refused until its outcome, which closes or reopens the breaker |
| `Circuit.ProbesApart` | http/src/egress/webhook/circuit.rs:44-103 | probes with no closed state between them are at least the timeout apart |

## Left out

- RocksDB, the lock-free queue, the concurrent maps and channels: an ordered map, a bounded FIFO and maps visited in any order stand in for them.
- Store write and file errors, RocksDB's own log and syncing, crashes in the middle of a file append.
- The capacity reserved before a read (core/src/storage/rocks/tenant.rs:103), which aborts for huge limits: the model accepts any limit.
- Overflow of 64-bit counters and byte totals, and of the breaker's 32-bit failure count: counters are unbounded.
- Rounding of `f64` rates and of durations: reals are exact, clocks are explicit arguments.
- `size_of::<ChangeEvent>()`: the constant 128 stands in; no result depends on its value.
- The log's file names and a directory that already holds segments: numbered files and an empty directory stand in.
- The decoder's own relation hash: a parameter, so nothing depends on its choice.
- A truncation's relations after the first: the code reports only the first.
- The loop that reads page after page: the code supplies the range and the page size, the model repeats reads behind the last LSN until the end of the range.
- The renderer of filter rules: the code only parses; rendering follows the documented format.
- The reader of log segments: the code only writes the log; the model's reader follows the framing it writes.
- `reset` of the credit counter in interleaved runs: it discards the balance by design.
- The rate-unlimited throttle, the table of filters built from configuration, filter builders: one-line constructors.
- Snapshot SQL, connector, event triggers, gRPC and webhook shells, retry, dead letters, memory budget, lag policy, metrics, configuration, DDL parsing: plumbing or one-branch decisions.
- Layers that exist only in the design documents (projection, encryption, publication reconciliation, SDK).
