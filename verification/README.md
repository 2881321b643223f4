# Verified model of logregator

logregator is two log-structured storage engines and the protocol in front of them. This
project models both in Dafny and proves what they keep over whole runs.

**logregator-core** is a single-threaded backend with a memtable, frozen memtables, a set of
table files and a write-ahead log. It hands flushes and compactions to a worker whose jobs
finish in any order or never. `CoreSystem` describes it as a step system: insert, sync, issue,
finish, apply and lose a flush or a compaction, fail a rotation in any of its steps, crash and
reopen. `CoreSafety` proves one invariant over every run and draws the main results from it:
what is visible is exactly what was recovered or inserted since; what reached a log file stays
on disk; what a crash loses was only in the log buffer. `CoreLogs` and `CoreRestart` say which
log holds what, and when a rotation or a restart loses records. `CoreEngine`,
`CoreBackend`, `CoreIter`, `CoreMemtable`, `CoreRecord` and `CoreWal` are the code itself, in
classes and loops, each method proved to be a step of the system or to compute what its
specification says, so that a range query is a filter over everything inserted.

**logregator-tsdb** is the newer engine: records and their framed files (`TsdbRecord`,
`TsdbFramed`), blocks and sorted string tables (`TsdbBlock`, `TsdbSst`, with the wire form of
their filters in `TsdbBloom`), label maps and the stream registry (`TsdbLabel`,
`TsdbRegistry`), the manifest with its snapshots (`TsdbManifestCodec`, `TsdbManifest`), the
memtable and its flush into a table (`TsdbMemtable`, `TsdbFlush`) and the write path of the
tree (`TsdbLsm`). `Proto` is the wire protocol. `Framing` holds what all decoders of
self-delimiting frames have in common, `Sequences` and `Bytes` what they are made of.

Where the code does not keep what its comments or tests promise, the model follows the code,
and a lemma states when it keeps the promise and when not:

- The log deletion loop of core stops for good at the first compaction id, and after any
  restart that finds a table (`CompactionStopsDeletion`, `RestartStopsDeletion`).
- A restart numbers its first log after the newest table, and a log of that number is renamed
  over (`RestartKeepsLogsIff`, `TwoCrashesLoseARecord`).
- A compaction drops inputs it could not open (`SkippedInputLosesRecordsIff`).
- A log cut inside a record is given up as a whole, with its synced records (`RecoverCutFile`,
  `WrittenSurviveIff`), and one cut inside a length prefix is spoiled by the next record that
  goes behind the rest (`RestSpoilsLog`). A length of 2^63 or more panics every restart
  (`RecoverAll`, `RestPanicsRestart`).
- Decoding a frame panics when it is empty or a string length runs past its end
  (`ClientPanicsIff`, `ServerPanicsIff`).
- The unfinished branch of the block encoder is reachable exactly above the limit 65531
  (`GuardReachableIff`).
- The manifest reads every id of a compaction from the place of the first
  (`RereadSameIff`, `RunRecoversExactlyIff`, `SecondTableStaysLive`), and cannot read a file
  back in which a read ends inside an entry (`ManifestReadsBackIff`, `LongFlushLogFails`).
- The manifest's entries stay in a buffer that a crash loses, after `append` has reported
  success (`CrashKeepsStateIff`, `AppendThenCrash`).
- No table of the tsdb engine is ever finished and no flush returns one: the filter encoder
  panics on every buffer that is long enough (`EncodeNeverSucceeds`, `NoTableIsFinished`,
  `FlushAsWritten`). What is said about reading tables back holds of the block region that is
  in the file by then, or of a repaired encoder, as each row says.
- A flush of the tsdb memtable writes what lies between the first and the last key to arrive,
  not between the least and the greatest (`FlushCompleteIff`, `TwoStreamsLoseARecord`).
- A batch panics on label strings of 0 or 255 bytes that the label decoder accepts
  (`EmptyLabelPanics`), and accepts payloads that no table can hold, which then fail the whole
  flush (`StrippedFitsIff`, `OneByteRecordCannotBeFlushed`).
- A lost flush result keeps all later frozen memtables queued (`DrainedIff`), and a label query
  ignores labels it does not know (`IntersectionExactIff`, `UnknownLabelIsIgnored`).

What comes from outside is a parameter: clocks, checksums, UTF-8 validity, which files open,
how reads split a stream, which step of a rotation fails. `dafny verify dfyconfig.toml` checks
the whole project.

## Model

| member | source | states |
|---|---|---|
| `CoreRecord.ExtractEncode` | logregator-core/src/storage/record.rs:23-40 | extraction inverts the record layout, whatever bytes follow the record |
| `CoreRecord.EncodeExtract` | logregator-core/src/storage/record.rs:136-176 | extraction succeeds only on bytes that begin with the encoding of what it returns |
| `CoreRecord.BelowTransitive` | logregator-core/src/storage/record.rs:216-240 | the record order is transitive |
| `CoreRecord.BelowTotal` | logregator-core/src/storage/record.rs:216-240 | the record order is total and antisymmetric |
| `CoreRecord.CompareIsRankOrder` | logregator-core/src/storage/record.rs:216-240 | for any bytes long enough to be compared, the byte-wise comparison is the lexicographic order on (source as unsigned, timestamp as unsigned, sequence number, key bytes), in all three outcomes |
| `CoreRecord.CompareBytesIsRankOrder` | logregator-core/src/storage/record.rs:216-240 | for encoded records it is that order on their fields |
| `CoreRecord.MemtableBoundsCutWindow` | logregator-core/src/storage/memtable.rs:50-54 | the two bounds of a memtable range cut out exactly the half-open time window of the source, for every source id, negative ones included |
| `CoreRecord.TableBoundsCutWindow` | logregator-core/src/storage/iter.rs:98-109 | the table bounds, which carry the queried key, cut out the same window among records of that key |
| `CoreIter.RestIsFilter` | logregator-core/src/storage/iter.rs:68-118 | what a filtered table scan still yields is exactly the matching part of what it has not read, in order |
| `CoreIter.NothingMatchesAfterEnd` | logregator-core/src/storage/iter.rs:98-109 | on a sorted table nothing behind the first record past the end bound matches; so stopping there loses nothing |
| `CoreIter.Advance` | logregator-core/src/storage/iter.rs:68-118 | one step of a table or memtable scan yields the next record that matches and leaves exactly the rest; it ends only when nothing matches any more |
| `CoreIter.Least` | logregator-core/src/storage/iter.rs:206-218 | a heap pop takes some entry that no other precedes; which of several equal ones is left open |
| `CoreIter.PopIsLeastPending` | logregator-core/src/storage/iter.rs:308-326 | the popped record precedes or equals every record still pending in any source |
| `CoreIter.PopKeepsPrimed` | logregator-core/src/storage/iter.rs:284-305 | after a pop and refill every source with records left has exactly its head in the heap |
| `CoreIter.SkipDuplicate` | logregator-core/src/storage/iter.rs:308-326 | dropping a record that repeats the last output changes nothing that is still to come |
| `CoreIter.EmitLeast` | logregator-core/src/storage/iter.rs:308-326 | a record that is output is the least rank not yet output, and exactly that rank leaves the set of ranks to come |
| `CoreIter.MergeIter.constructor` | logregator-core/src/storage/iter.rs:250-282 | a new merge is primed: each source has its head in the heap and nothing is lost |
| `CoreIter.MergeIter.Fill` | logregator-core/src/storage/iter.rs:284-305 | a refill takes the next matching record of one source into the heap and leaves the other sources alone |
| `CoreIter.MergeIter.Turn` | logregator-core/src/storage/iter.rs:308-326 | one turn of the loop outputs the least rank to come or drops a repeat, and the merge shrinks |
| `CoreIter.MergeIter.Next` | logregator-core/src/storage/iter.rs:308-326 | yields the least rank not yet output and removes exactly that rank; ends only when none is left |
| `CoreIter.MergeIter.Drain` | logregator-core/src/storage/iter.rs:250-326 | draining terminates with a strictly increasing sequence whose ranks are the union of the ranks of all sources |
| `CoreMemtable.InsertElements` | logregator-core/src/storage/memtable.rs:41-48 | an ordered insert removes nothing, adds at most the record, and its rank is then present |
| `CoreMemtable.InsertAllKeepsOrder` | logregator-core/src/storage/memtable.rs:41-48 | inserting many records keeps the set strictly sorted and loses none when ranks identify records |
| `CoreMemtable.SliceIsWindow` | logregator-core/src/storage/memtable.rs:50-54 | a range of the ordered set holds exactly the records of the time window |
| `CoreMemtable.MemTable.Put` | logregator-core/src/storage/memtable.rs:41-48 | inserts into the ordered set, adds the size, and reports when the limit is exceeded |
| `CoreMemtable.MemTable.CloneRange` | logregator-core/src/storage/memtable.rs:50-54 | returns exactly the records of the window, sorted, and changes nothing |
| `CoreMemtable.MemTable.Freeze` | logregator-core/src/storage/memtable.rs:61-71 | hands over all records and leaves an empty memtable with the same limit |
| `CoreSystem.Advance` | logregator-core/src/storage/backend.rs:306-330 | the log deletion loop terminates, passes only ids whose own flush and the next one were applied, and stops at the first id where that fails |
| `CoreSafety.InsertStep` | logregator-core/src/storage/engine.rs:183-229 | an insert or batch insert keeps the whole invariant |
| `CoreSafety.SyncStep` | logregator-core/src/storage/backend.rs:389-397 | writing out the log buffer keeps the invariant |
| `CoreSafety.IssueFlushStep` | logregator-core/src/storage/backend.rs:277-304 | freezing, rotating the log with a failure at any of its steps, also behind an earlier failure, and sending the job keep the invariant |
| `CoreSafety.WriteFlushStep` | logregator-core/src/storage/io_worker.rs:149-168 | a finished flush file keeps the invariant |
| `CoreSafety.ApplyFlushStep` | logregator-core/src/storage/backend.rs:306-330 | applying a flush result, with its log deletions, keeps the invariant |
| `CoreSafety.IssueMergeStep` | logregator-core/src/storage/backend.rs:332-360 | choosing and marking compaction inputs keeps the invariant, also when the worker is gone |
| `CoreSafety.WriteMergeStep` | logregator-core/src/storage/io_worker.rs:170-205 | a finished compaction file keeps the invariant |
| `CoreSafety.ApplyMergeStep` | logregator-core/src/storage/backend.rs:362-387 | replacing the inputs by the merged table keeps the invariant |
| `CoreSafety.LoseFlushStep` | logregator-core/src/storage/io_worker.rs:105-139 | a flush job that never reports keeps the invariant |
| `CoreSafety.LoseMergeStep` | logregator-core/src/storage/io_worker.rs:105-139 | a compaction job that never reports keeps the invariant |
| `CoreSafety.CrashStep` | logregator-core/src/storage/wal.rs:89-103 | a crash that lets any number of whole buffered records through to the log file, and the restart from the files, keep the invariant; cuts at other bytes are those of `CoreWal.CutLog` |
| `CoreSafety.StepKeepsInv` | logregator-core/src/storage/backend.rs:78-149 | every step of the system keeps the invariant |
| `CoreSafety.RunKeepsInv` | logregator-core/src/storage/backend.rs:78-149 | the invariant holds in every state of every run from an empty directory |
| `CoreSafety.VisibleIsInserted` | logregator-core/src/storage/backend.rs:277-386 | in every reachable state memtable, frozen memtables and live tables together hold exactly the records recovered at the last restart or inserted since, over every interleaving, lost job and failed rotation |
| `CoreSafety.CrashKeepsIff` | logregator-core/src/storage/engine.rs:65-181 | a crash and restart keep a record if and only if it is in a log, in a table file, or among the buffered records that got through |
| `CoreSafety.CrashLosesOnlyBuffered` | logregator-core/src/storage/engine.rs:65-181 | as long as no rotation renamed over a log, what a crash loses was only in the log buffer and had never reached a file |
| `CoreSafety.RunLosesOnlyBuffered` | logregator-core/src/storage/backend.rs:277-386 | over any number of restarts: a record that was ever known is known in every later state, unless it was in the log buffer and in no file when some crash between the two fell, or some rotation renamed over a log |
| `CoreSafety.SyncedIsDurable` | logregator-core/src/storage/wal.rs:133-163 | a record whose log bytes reached a file stays in some file and stays visible, through every later step and every restart after a crash between two records, unless a rotation renamed over an existing log |
| `CoreSafety.FirstLifeNeverClobbers` | logregator-core/src/storage/wal.rs:133-163 | before the first crash no rotation renames over an existing log |
| `CoreSafety.FirstLifeIsDurable` | logregator-core/src/storage/backend.rs:277-321 | until the first crash every inserted record is in the log buffer, in a log that still exists, or in a table file |
| `CoreSafety.LogDeletedIff` | logregator-core/src/storage/backend.rs:306-330 | a rotated log n is gone exactly when the flushes 1 to n + 1 have all been applied |
| `CoreSafety.CompactionStopsDeletion` | logregator-core/src/storage/backend.rs:306-330 | once a compaction has taken id c, no log from c - 1 on is ever deleted, because compaction ids never become applied flushes |
| `CoreSafety.RestartStopsDeletion` | logregator-core/src/storage/engine.rs:171-175 | after a restart that found a table file no log of that life is ever deleted |
| `CoreSafety.OnlyNewestLogLeft` | logregator-core/src/storage/backend.rs:306-330 | without compactions and restarts, when all flushes have been applied, exactly the newest log is left |
| `CoreSafety.CompactionsAreIndependent` | logregator-core/src/storage/backend.rs:332-377 | in every run compactions in flight share no input, each input stays live and unchanged until its own completion, and no id serves both a flush and a compaction |
| `CoreLogs.RotationMirrorsIff` | logregator-core/src/storage/wal.rs:133-163 | a rotation keeps logs and memtables in step if and only if it succeeds |
| `CoreLogs.LogHoldsItsMemtable` | logregator-core/src/storage/backend.rs:277-321 | in every run without a crash or a failed rotation, log N still exists and holds exactly the records of frozen memtable N, and the active log those of the memtable |
| `CoreRestart.FirstLifeIsFresh` | logregator-core/src/storage/wal.rs:133-163 | until the first crash each record has at most one log copy and one place in memory, and a record in a table file has left the active log |
| `CoreRestart.RotationKeepsDiskIff` | logregator-core/src/storage/wal.rs:138-163 | any successful rotation of any run keeps every record that is on disk if and only if each record of a log that already has its number is also in another log, in the log buffer or in a table file |
| `CoreRestart.RestartKeepsLogsIff` | logregator-core/src/storage/wal.rs:142-144 | the first rotation after the first restart of a run keeps every record that is on disk if and only if no log with records has the number it takes, which is one more than the newest table |
| `CoreRestart.TwoCrashesLoseARecord` | logregator-core/src/storage/engine.rs:171-175 | a concrete run of seven states in which a synced, visible record is lost after the second restart |
| `CoreRestart.CutIsCrash` | logregator-core/src/storage/wal.rs:105-130 | a crash that cuts the active log of any state at any byte behind what was written lets a known number of whole buffered records through; the restart knows those and the written ones unless the cut falls inside a record, and what the other files hold |
| `CoreRestart.CutStepKnows` | logregator-core/src/storage/wal.rs:105-130 | when the cut does not fall inside a record the restart knows exactly what the crash step of the system knows |
| `CoreRestart.SyncedSurvivesCutIff` | logregator-core/src/storage/wal.rs:105-130 | in every state of every run in which no rotation renamed over a log: a synced record survives a cut of the active log at any byte if and only if the cut does not fall inside a record, or the record is in another log or in a table file |
| `CoreRestart.SkippedInputLosesRecordsIff` | logregator-core/src/storage/io_worker.rs:180-194 | a compaction that skips inputs it cannot open keeps the visible records if and only if it opened all of them |
| `CoreWal.WriteMany` | logregator-core/src/storage/wal.rs:69-86 | the log file is the row of frames, each record behind its 8-byte length |
| `CoreWal.RecoverFile` | logregator-core/src/storage/wal.rs:105-130 | the recovery loop comes out as reading the frames one by one does: with the records, with an error, or with a panic on the first length of 2^63 or more, whose buffer cannot be allocated |
| `CoreWal.RecoverWholeFile` | logregator-core/src/storage/wal.rs:105-130 | an uncut log gives back exactly the records written, in order |
| `CoreWal.RecoverCutFile` | logregator-core/src/storage/wal.rs:105-130 | a log cut at any byte gives back the records before the cut if the cut falls within a length prefix or between records, and nothing of the whole file otherwise |
| `CoreWal.RestSpoilsLog` | logregator-core/src/storage/wal.rs:29-48 | after a cut inside a length prefix the restart reads all records; once a record of any size is appended behind the rest, for every log and every rest, the next restart panics if and only if the byte of its length that comes to stand on top is 128 or more, gives the whole file up if the mixed length runs past the end, and otherwise reads a foreign record; below 2^32 it never reads on unless the low bytes of the size are all 0 |
| `CoreWal.RestPanicsRestart` | logregator-core/src/storage/wal.rs:105-130 | behind a rest of 7 bytes a record of 200 bytes makes every restart panic, whatever the log |
| `CoreWal.CutLog` | logregator-core/src/storage/wal.rs:105-130 | a crash that cuts the active log at any byte behind the written records: the restart takes exactly the whole records before the cut, or nothing of the file when the cut falls inside the body of a record |
| `CoreWal.WrittenSurviveIff` | logregator-core/src/storage/wal.rs:105-130 | the written records survive such a crash if and only if there are none or the cut leaves less than a whole length prefix behind the last whole record |
| `CoreWal.RecoverAll` | logregator-core/src/storage/wal.rs:88-103 | from the bytes of all log files: files that cannot be read are passed over; the blobs of all others form one ordered set with one blob of each rank; it panics if and only if reading some file meets a length of 2^63 or more, or there are two blobs or more and one is too short to be compared |
| `CoreWal.AddFile` | logregator-core/src/storage/wal.rs:94-101 | one file more: the set grows by its blobs, or the recovery panics in the file or in the comparison |
| `CoreWal.RecoveredRecords` | logregator-core/src/storage/wal.rs:88-103 | when all blobs are records and ranks identify them, exactly their records are recovered |
| `CoreEngine.Wal.FlushBuffer` | logregator-core/src/storage/wal.rs:132-136 | moves the buffered records to the file |
| `CoreEngine.Wal.Rotate` | logregator-core/src/storage/wal.rs:138-163 | files, buffer and writer after a rotation, for success and for a failure of each of its four steps, also when an earlier rotation had failed after its rename |
| `CoreEngine.SeekLosesNothing` | logregator-core/src/storage/iter.rs:27-66 | starting a scan at any sound index position yields the same matching records as starting at the first |
| `CoreEngine.Engine.MemoryWindow` | logregator-core/src/storage/engine.rs:232-292 | the windows of the memtable and of all frozen memtables, as one sorted set without loss |
| `CoreEngine.Engine.TableScans` | logregator-core/src/storage/engine.rs:232-292 | the scans cover exactly the matching records of the tables that open; the Bloom filter and the index lose none |
| `CoreEngine.Engine.Range` | logregator-core/src/storage/engine.rs:232-292 | a range query is strictly sorted, without duplicates, and holds exactly the visible records with the source, time window, key and substring; it fails exactly on a negative or reversed window |
| `CoreEngine.Engine.PrepareFlush` | logregator-core/src/storage/engine.rs:297-305 | the memtable becomes the frozen table of the next id |
| `CoreEngine.Engine.BatchInsert` | logregator-core/src/storage/engine.rs:183-229 | records get consecutive sequence numbers, all go to the log and to the memtable, and a flush is due exactly when the memtable ends over its limit |
| `CoreEngine.Engine.OldestIds` | logregator-core/src/storage/engine.rs:386-393 | the n least ids that no compaction is working on |
| `CoreEngine.Engine.TotalSize` | logregator-core/src/storage/engine.rs:323-325 | the sum of the table sizes |
| `CoreBackend.MergeFiles` | logregator-core/src/storage/io_worker.rs:180-194 | the output of a compaction is strictly sorted and holds exactly the records of the inputs that open |
| `CoreBackend.IoWorker.HandleFlush` | logregator-core/src/storage/io_worker.rs:149-168 | writes the frozen table under its id |
| `CoreBackend.IoWorker.HandleCompaction` | logregator-core/src/storage/io_worker.rs:170-205 | writes the merge of the inputs that open under its id and leaves every other file alone |
| `CoreBackend.Backend.constructor` | logregator-core/src/storage/backend.rs:48-71 | starts in the empty state of the step system |
| `CoreBackend.Backend.HandleInsert` | logregator-core/src/storage/backend.rs:151-210 | is the insert step of the step system |
| `CoreBackend.Backend.HandleRange` | logregator-core/src/storage/backend.rs:212-275 | in every reachable state a range query returns, sorted, exactly the matching records recovered at the last restart or inserted since |
| `CoreBackend.Backend.SyncWal` | logregator-core/src/storage/backend.rs:389-397 | is the sync step |
| `CoreBackend.Backend.SendFlush` | logregator-core/src/storage/backend.rs:277-304 | is the flush-issue step, for every failure of this and of an earlier rotation and for a dead worker, and nothing on an empty memtable |
| `CoreBackend.Backend.FinishFlush` | logregator-core/src/storage/io_worker.rs:149-168 | the worker's part of a flush is the flush-write step |
| `CoreBackend.Backend.FinishCompaction` | logregator-core/src/storage/io_worker.rs:170-205 | the worker's part of a compaction is the compaction-write step when every input opens, and the same with the merge of what opens otherwise |
| `CoreBackend.Backend.ApplyFlushResult` | logregator-core/src/storage/backend.rs:306-330 | is the flush-result step |
| `CoreBackend.Backend.DeleteLogs` | logregator-core/src/storage/backend.rs:306-330 | the deletion loop ends where the step system says and removes exactly the known logs it passed |
| `CoreBackend.Backend.SendCompaction` | logregator-core/src/storage/backend.rs:332-360 | issues exactly when the size threshold is reached and two idle tables exist, and then is the compaction-issue step |
| `CoreBackend.Backend.ApplyCompactionResult` | logregator-core/src/storage/backend.rs:362-387 | is the compaction-result step |
| `Proto.ClientAcceptsIff` | logregator-core/src/proto.rs:206-291 | the server reads a body as a message if and only if the body begins with the bytes of that message, its strings are strings and a batch has less than 2^32 records |
| `Proto.ServerAcceptsIff` | logregator-core/src/proto.rs:414-458 | the same for the client |
| `Proto.ClientPanicsIff` | logregator-core/src/proto.rs:145-166 | decoding a client body panics if and only if it is empty, or it is an insert, a range or a batch in which all is in order up to a string whose length runs past the end |
| `Proto.ServerPanicsIff` | logregator-core/src/proto.rs:389-411 | the same for the bodies that the client decodes |
| `Proto.ClientBodyReads` | logregator-core/src/proto.rs:206-291 | the server reads every message body that the client writes, batches of any length included |
| `Proto.ServerBodyReads` | logregator-core/src/proto.rs:414-458 | the client reads every message body that the server writes |
| `Proto.ClientMessagesArrive` | logregator-core/src/proto.rs:133-166 | any client messages under 2^32 bytes, encoded back to back and delivered in arbitrary chunks, decode to exactly the messages sent |
| `Proto.ServerMessagesArrive` | logregator-core/src/proto.rs:377-411 | the same from server to client |
| `Proto.EncodeClient` | logregator-core/src/proto.rs:325-370 | appends one frame behind what the buffer holds; the length is patched in afterwards |
| `Proto.EncodeServer` | logregator-core/src/proto.rs:172-203 | appends one frame behind what the buffer holds; the length is patched in afterwards |
| `Proto.PutBatch` | logregator-core/src/proto.rs:348-359 | the loop writes the count and then the records in order |
| `Proto.DecodeBatch` | logregator-core/src/proto.rs:254-291 | the loop over the running offset reads what the reader of single records reads, one behind the other, with its errors and panics |
| `Proto.TakeFrame` | logregator-core/src/proto.rs:136-149 | takes one complete frame off the buffer and leaves exactly what follows; an incomplete one stays |
| `Proto.DecodeClient` | logregator-core/src/proto.rs:133-166 | decodes one frame, waits without consuming, fails or panics, as its bytes say; a frame that is not waited for is consumed exactly |
| `Proto.DecodeServer` | logregator-core/src/proto.rs:377-411 | decodes one frame, waits without consuming, fails or panics, as its bytes say; a frame that is not waited for is consumed exactly |
| `Framing.ReadInChunks` | logregator-tsdb/src/codec.rs:189-210 | for any decoder that only waits on a cut frame, every chunking of a stream of frames yields exactly its items |
| `Framing.ParseCutStream` | logregator-tsdb/src/codec.rs:189-210 | for such a decoder a stream cut at any byte yields exactly the items wholly before the cut, without an error |
| `TsdbRecord.KeyOrder` | logregator-tsdb/src/record.rs:109-118 | keys are totally ordered by stream, timestamp, sequence number and source |
| `TsdbRecord.DecodeEncodeKey` | logregator-tsdb/src/record.rs:152-192 | decoding inverts the key layout, whose field order differs from the key order |
| `TsdbRecord.DecodeEncode` | logregator-tsdb/src/record.rs:228-306 | decoding inverts encoding and ignores what follows |
| `TsdbRecord.DecodePart` | logregator-tsdb/src/record.rs:273-306 | a cut record is never an error, only a wait for more bytes |
| `TsdbRecord.Decode` | logregator-tsdb/src/record.rs:273-306 | a decoded record is valid and re-encodes to exactly the bytes it took; a wait means fewer bytes than the longest record |
| `TsdbFramed.FramedReader.Compact` | logregator-tsdb/src/codec.rs:153-160 | moves the window to the front of the buffer without changing it |
| `TsdbFramed.FramedReader.Fill` | logregator-tsdb/src/codec.rs:153-174 | one fill loses no byte of the stream, reports the end exactly at the end, passes a read error on, and keeps the buffer at 4096 or 8192 bytes |
| `TsdbFramed.FramedReader.Next` | logregator-tsdb/src/codec.rs:189-210 | terminates, and takes exactly one record off the undecoded bytes, or reports the end, a bad length or a failed read and takes none |
| `TsdbFramed.ReadAll` | logregator-tsdb/src/codec.rs:189-210 | iterating to the end yields the parse of the stream, however reads split it; a failed read ends it with a first part of that |
| `TsdbFramed.CutStream` | logregator-tsdb/src/codec.rs:189-210 | a stream of valid records cut at any byte parses to exactly the records wholly before the cut, without an error |
| `TsdbFramed.FramedWriter.Write` | logregator-tsdb/src/codec.rs:266-275 | appends exactly the encoding and counts it; a rejected record leaves the stream as it was |
| `TsdbFramed.WriteThenRead` | logregator-tsdb/src/codec.rs:189-275 | any list of valid records reads back as written, through every split of the bytes, when no read fails |
| `TsdbBlock.BlockWriter.Write` | logregator-tsdb/src/block.rs:368-398 | takes, refuses or rejects a record exactly by the size estimate and the payload length; a first valid record is always taken, and a rejected one leaves the writer unsound |
| `TsdbBlock.EncodeBlock` | logregator-tsdb/src/block.rs:65-129 | every error of the encoder in its order, and otherwise the sealed body |
| `TsdbBlock.DecodeBlock` | logregator-tsdb/src/block.rs:136-239 | every error of the decoder in its order, and otherwise the block |
| `TsdbBlock.BlockOfIsSlotted` | logregator-tsdb/src/block.rs:368-398 | offsets of a written block fit 16 bits, strictly increase, and delimit each record exactly |
| `TsdbBlock.DecodeSealed` | logregator-tsdb/src/block.rs:136-239 | a sealed body decodes to its block |
| `TsdbBlock.SealDecoded` | logregator-tsdb/src/block.rs:136-239 | whatever decodes is the sealed form of the block it decodes to |
| `TsdbBlock.WrittenBlockRoundTrips` | logregator-tsdb/src/block.rs:65-239 | under every limit up to 65531 every block that a run of writes built encodes without reaching the unfinished branch, and decodes to itself |
| `TsdbBlock.GuardReachableIff` | logregator-tsdb/src/block.rs:86-99 | a run of valid records reaches the unfinished branch of the encoder if and only if the limit is above 65531 |
| `TsdbBlock.DecodedIsReadable` | logregator-tsdb/src/block.rs:552-581 | in every decoded block all slices of the cursor are in bounds |
| `TsdbBlock.BlockCursor.Search` | logregator-tsdb/src/block.rs:499-538 | binary search finds the only position that splits a sorted block at the key |
| `TsdbBlock.BlockCursor.Seek` | logregator-tsdb/src/block.rs:499-538 | positions the cursor at the first record at or above the key |
| `TsdbBlock.BlockCursor.Next` | logregator-tsdb/src/block.rs:488-492 | moves one slot and decodes it |
| `TsdbBlock.ScanFrom` | logregator-tsdb/src/block.rs:488-581 | in any readable block with increasing keys, seek and repeated next yield the records from the first slot at or above the key on; for a block of any list of records exactly those with key at or above it, in order |
| `TsdbBlock.WrittenBlockYields` | logregator-tsdb/src/block.rs:368-398 | every block of valid records in key order is such a block, and yields its records |
| `TsdbBlock.FillBlock` | logregator-tsdb/src/block.rs:368-398 | a run of writes takes every record of each list that fits, so the lists that fit are exactly what a writer can hold |
| `TsdbSst.SstWriter.constructor` | logregator-tsdb/src/sst.rs:139-165 | an empty writer |
| `TsdbBloom.EncodeNeverSucceeds` | logregator-tsdb/src/bloom.rs:122-139 | for every filter and every buffer the encoder reports a buffer that is too short, and panics on any other |
| `TsdbBloom.DecodeRepaired` | logregator-tsdb/src/bloom.rs:141-166 | with each field copied to its own place the decoder reads the filter back, whatever follows it |
| `TsdbSst.SstWriter.FlushBlocks` | logregator-tsdb/src/sst.rs:294-349 | seals the current block into the file with its index entry, or fails exactly by size, emptiness or the unfinished branch; nothing written is lost |
| `TsdbSst.SstWriter.Commit` | logregator-tsdb/src/sst.rs:323-347 | the stored 32-bit offset is the exact position of the block |
| `TsdbSst.SstWriter.Write` | logregator-tsdb/src/sst.rs:168-188 | appends the record or fails; for valid records and limits up to 65531 it succeeds exactly when the table has room, and a size failure loses nothing; a block is flushed at most once per record, so the retry happens at most once |
| `TsdbSst.SstWriter.Settle` | logregator-tsdb/src/sst.rs:207-217 | flushes the rest; the blocks together hold exactly the records written; it fails if and only if there are no records or the last block flush fails, with its error; neither happens to records below the size bound under limits up to 65531 |
| `TsdbSst.SstWriter.Finish` | logregator-tsdb/src/sst.rs:207-262 | the block region and the index behind it are in the file as settled when the filter is encoded, and the filter's encoding alone then decides between a table, an error and a panic |
| `TsdbSst.NoTableIsFinished` | logregator-tsdb/src/sst.rs:236-262 | with the encoder as written, finishing fails if settling did and panics otherwise: it never returns a table |
| `TsdbSst.RepairedFinishes` | logregator-tsdb/src/sst.rs:236-262 | with the repaired encoder it returns the table if and only if settling succeeded and the bitmap is below 2^32 bytes |
| `TsdbSst.IndexTiles` | logregator-tsdb/src/sst.rs:571-597 | index offsets tile the block region without a gap, and the bytes between two of them are exactly one sealed block |
| `TsdbSst.IndexIsOrdered` | logregator-tsdb/src/sst.rs:333-347 | first and last keys of the index are in order whenever the records were |
| `TsdbSst.ReadBlock` | logregator-tsdb/src/sst.rs:571-597 | reads exactly the i-th block written, and fails exactly out of bounds |
| `TsdbSst.ReadAll` | logregator-tsdb/src/sst.rs:571-597 | reading all blocks in index order returns exactly the records written |
| `TsdbSst.WriteTable` | logregator-tsdb/src/sst.rs:168-262 | from a list of records: under limits up to 65531 and below the size bound every list of valid records is settled into blocks that hold it; a table comes out if and only if the filter can also be encoded |
| `TsdbSst.WriteThenRead` | logregator-tsdb/src/sst.rs:168-262 | with any filter encoder, whatever comes back is the list written, in full and in order, over any number of blocks; for valid records below the size bound and limits up to 65531 it comes back if and only if the filter is encoded, so never with the encoder as written |
| `TsdbSst.EncodeMetas` | logregator-tsdb/src/sst.rs:1119-1149 | the loop writes the count, the entries in order and a checksum |
| `TsdbSst.DecodeMetas` | logregator-tsdb/src/sst.rs:1152-1228 | accepts exactly a count, that many entries and a matching checksum, and reads each entry at its place |
| `TsdbSst.IndexRoundTrip` | logregator-tsdb/src/sst.rs:1119-1228 | an encoded index decodes to itself, whatever follows it |
| `TsdbLabel.InsertOrdered` | logregator-tsdb/src/label.rs:275-294 | an entry goes to its place in the ordered map |
| `TsdbLabel.InsertIsUpdate` | logregator-tsdb/src/label.rs:275-294 | the map is a dictionary: the last value of a key wins |
| `TsdbLabel.DecodeEncode` | logregator-tsdb/src/label.rs:297-367 | decoding inverts encoding for every map the encoder accepts, whatever follows |
| `TsdbLabel.DecodeCut` | logregator-tsdb/src/label.rs:263-294 | a cut label map is always an error, never a wait |
| `TsdbLabel.DecodedIsMap` | logregator-tsdb/src/label.rs:275-309 | whatever decodes is an ordered map of strings that ends within the input |
| `TsdbLabel.DecodedCount` | logregator-tsdb/src/label.rs:275-294 | a decoded map never has too many labels to encode; only its strings can be out of range |
| `TsdbLabel.ParseLabels` | logregator-tsdb/src/label.rs:275-309 | the parsing loop over the remaining bytes |
| `TsdbLabel.EncodeLabels` | logregator-tsdb/src/label.rs:311-367 | writes exactly the encoding at the start of the buffer and nothing behind it; every error in its order, with the buffer untouched |
| `TsdbRegistry.StreamRegistry.Insert` | logregator-tsdb/src/label.rs:79-98 | the three maps after an insert; they stay consistent when stream and labels are new |
| `TsdbRegistry.IndexExactIff` | logregator-tsdb/src/label.rs:79-98 | an insert keeps the label index equal to a scan if and only if the stream is new or loses no label |
| `TsdbRegistry.InverseKeptIff` | logregator-tsdb/src/label.rs:79-98 | the two stream maps stay inverse if and only if the stream had no other labels and the labels no other stream |
| `TsdbRegistry.StreamRegistry.From` | logregator-tsdb/src/label.rs:46-75 | the rebuilt index always equals a scan; the rebuilt registry is consistent if and only if no two streams share their labels |
| `TsdbRegistry.IndexUnique` | logregator-tsdb/src/label.rs:46-75 | the index is determined by the stream map |
| `TsdbRegistry.StreamRegistry.LabelIntersection` | logregator-tsdb/src/label.rs:129-158 | returns exactly the streams that carry every known label of the query, none when no label is known, whatever the early exit skips |
| `TsdbRegistry.IntersectionExactIff` | logregator-tsdb/src/label.rs:129-158 | the answer is the set of streams carrying all queried labels if and only if the index knows all of the labels, or none, or no stream carries all the known ones; the query without labels is answered rightly only when there is no stream |
| `TsdbRegistry.UnknownLabelIsIgnored` | logregator-tsdb/src/label.rs:129-158 | one stream and a query with one label that is not known: the stream is found though it does not carry that label |
| `TsdbRegistry.SortBySize` | logregator-tsdb/src/label.rs:144-145 | a permutation sorted by size |
| `TsdbManifestCodec.DecodeEncode` | logregator-tsdb/src/manifest.rs:424-611 | an encoded entry decodes to itself, except that every id of a compaction becomes the first one |
| `TsdbManifestCodec.RereadSameIff` | logregator-tsdb/src/manifest.rs:554-568 | writing and reading keeps an entry if and only if it is not a compaction of different ids |
| `TsdbManifestCodec.TwoIdsMerge` | logregator-tsdb/src/manifest.rs:554-568 | the compaction of tables 1 and 2 reads back as that of table 1 twice |
| `TsdbManifestCodec.ReadIds` | logregator-tsdb/src/manifest.rs:554-568 | the loop that never moves its index |
| `TsdbManifestCodec.DecodeCut` | logregator-tsdb/src/manifest.rs:497-607 | a cut entry is an error, unless nothing of it is there |
| `TsdbManifestCodec.ReadEntries` | logregator-tsdb/src/codec.rs:189-210 | the reader's loop over the chunks that reads return |
| `TsdbManifestCodec.ManifestReadsBackIff` | logregator-tsdb/src/manifest.rs:224-259 | a manifest file reads back, as entries reread, if and only if no read ends inside an entry |
| `TsdbManifestCodec.LongFlushLogFails` | logregator-tsdb/src/manifest.rs:224-259 | a manifest of flushes whose first read fills the reader's 4096 bytes cannot be read back |
| `TsdbManifestCodec.OneReadIsAligned` | logregator-tsdb/src/manifest.rs:224-259 | a manifest file that arrives in one read always reads back |
| `TsdbManifest.FromEntries` | logregator-tsdb/src/manifest.rs:224-259 | the fold over the log with its inner loop over compaction ids |
| `TsdbManifest.DeltaReplays` | logregator-tsdb/src/manifest.rs:224-259 | the snapshot of a log says exactly what the log does to any state |
| `TsdbManifest.ReplayTwice` | logregator-tsdb/src/manifest.rs:264-303 | replaying a log a second time changes nothing |
| `TsdbManifest.Merge` | logregator-tsdb/src/manifest.rs:284-303 | the merged snapshot holds the older live tables that the delta does not remove, the delta's live tables, and the delta's labels over the older ones, in any iteration order |
| `TsdbManifest.WriteTo` | logregator-tsdb/src/manifest.rs:264-282 | the stored snapshot becomes the state that replaying the log on top of the old one gives, with or without an old one |
| `TsdbManifest.RunRecovers` | logregator-tsdb/src/manifest.rs:141-175 | over every mix of appends, snapshots, snapshots torn before the truncation, shutdowns and crashes, a restart that can read the log back finds what one straight replay of the entries that reached a file gives, as reread, and after a clean shutdown also those of the buffer behind them |
| `TsdbManifest.WithoutCrashAllIsKept` | logregator-tsdb/src/manifest.rs:141-175 | in a run without a crash those entries and the buffer are together exactly what was appended, in order |
| `TsdbManifest.StepRecovers` | logregator-tsdb/src/manifest.rs:141-175 | each step changes what a crash leaves by exactly the entries it brings into a file |
| `TsdbManifest.CrashKeepsStateIff` | logregator-tsdb/src/manifest.rs:141-149 | a crash leaves what a clean shutdown would if and only if the buffered entries say only what was known: the tables they leave live are live, those they remove are not, and their labels are there |
| `TsdbManifest.FirstAppendIsLost` | logregator-tsdb/src/manifest.rs:141-149 | a run of one append and a crash, after which a restart finds nothing |
| `TsdbManifest.RunRecoversExactlyIff` | logregator-tsdb/src/manifest.rs:141-175 | what a restart finds, after a crash or after a clean shutdown, is what the same entries as appended give if and only if no table is stranded among them: named by a compaction after its last flush, and by none as its first table |
| `TsdbManifest.LiveIff` | logregator-tsdb/src/manifest.rs:224-259 | a table is live after a log if and only if it was flushed and no compaction named it since |
| `TsdbManifest.LiveWhenRereadIff` | logregator-tsdb/src/manifest.rs:554-568 | it is live after the log is reread if and only if it was flushed and no compaction named it first since |
| `TsdbManifest.WrongIffStranded` | logregator-tsdb/src/manifest.rs:554-568 | rereading gets a table wrong if and only if it is stranded |
| `TsdbManifest.SecondTableStaysLive` | logregator-tsdb/src/manifest.rs:554-568 | two flushes and the compaction of both: after rereading the second table is still live |
| `TsdbManifest.CompactionRightIff` | logregator-tsdb/src/manifest.rs:554-568 | a compaction that went through the log drops only its first id; the live tables are right if and only if no other named table was live |
| `TsdbManifest.RereadKeepsLive` | logregator-tsdb/src/manifest.rs:224-303 | rereading never loses a live table or a label |
| `TsdbManifest.Manifest.FlushBuffer` | logregator-tsdb/src/codec.rs:296-298 | the buffered entries go into the file behind the others |
| `TsdbManifest.Manifest.Put` | logregator-tsdb/src/codec.rs:266-275 | an append step of a run: file and buffer together grow by the entry's bytes, and an entry that fits into the buffer leaves the file as it was |
| `TsdbManifest.Manifest.WriteSnapshot` | logregator-tsdb/src/manifest.rs:169-171 | writes the snapshot if and only if no read ends inside an entry, and otherwise changes nothing |
| `TsdbManifest.Manifest.SnapshotTruncate` | logregator-tsdb/src/manifest.rs:169-175 | a whole snapshot step of a run if and only if no read ends inside an entry, and otherwise only the buffer is written out |
| `TsdbManifest.Manifest.Reopen` | logregator-tsdb/src/manifest.rs:43-53 | after a crash a restart reads the flushed entries, after a clean shutdown all of them; it succeeds if and only if no read ends inside one, and then comes up with what a run says it finds |
| `TsdbManifest.Manifest.Append` | logregator-tsdb/src/manifest.rs:141-149 | what a clean shutdown would leave changes by exactly the entry, whether a snapshot follows, fails or is not due; a snapshot is due on every append once the bytes ever written exceed the limit; without one an entry that fits into the buffer changes nothing of what a crash would leave |
| `TsdbManifest.AppendThenCrash` | logregator-tsdb/src/manifest.rs:141-149 | open, append a flush, crash, reopen: the append reports success and the restart finds nothing |
| `TsdbMemtable.MutMemtable.Append` | logregator-tsdb/src/memtable.rs:169-188 | rejects exactly when it holds something and the record would exceed the limit; otherwise takes the record and reports when the limit is reached |
| `TsdbMemtable.MutMemtable.Freeze` | logregator-tsdb/src/memtable.rs:224-228 | hands over the contents and leaves an empty memtable under the new id |
| `TsdbMemtable.KeptAll` | logregator-tsdb/src/memtable.rs:182 | no record is dropped as a duplicate when keys are distinct |
| `TsdbFlush.FlushCompleteIff` | logregator-tsdb/src/io.rs:32-48 | the write loop of a flush takes the whole memtable if and only if the first record to arrive has the least key, the last one the greatest, and the table codec takes every record |
| `TsdbFlush.SteadyFlushIsComplete` | logregator-tsdb/src/io.rs:32-48 | the write loop takes the whole of a memtable of valid records of one stream with a clock that never runs backwards |
| `TsdbFlush.TwoStreamsLoseARecord` | logregator-tsdb/src/memtable.rs:177-180 | three valid records of two streams of which a flush writes two, and two records on which it panics |
| `TsdbFlush.InOrder` | logregator-tsdb/src/io.rs:45-48 | iterating the ordered set gives all its records by rising key |
| `TsdbFlush.FlushMemtable` | logregator-tsdb/src/io.rs:13-55 | for any filter encoder: the block region, once settled, holds exactly the records in range, by rising key, and below the size bound it is settled if and only if the range is not reversed and all its records are valid; a table comes out if and only if the filter is encoded then; missing bounds, a limit too large and every cause of a panic are told apart |
| `TsdbFlush.FlushAsWritten` | logregator-tsdb/src/io.rs:13-55 | no flush of any memtable returns a table; below the size bound it reports missing bounds, fails on a record that is not valid, and panics in all other cases |
| `TsdbFlush.FlushThenRead` | logregator-tsdb/src/io.rs:13-55 | with the repaired encoder the table of a flush, read block by block, gives back exactly the records in range; below the size bound it succeeds if and only if the range is not reversed and all its records are valid |
| `TsdbLsm.LsmTree.constructor` | logregator-tsdb/src/lsm.rs:155-180 | a new tree over any memtable, table handles and consistent registry satisfies the invariant of all runs |
| `TsdbLsm.LsmTree.IssueFlush` | logregator-tsdb/src/lsm.rs:480-497 | freezes a non-empty memtable under the next id, sends it with all updates not yet announced, and keeps every property of the run; it fails only without a worker |
| `TsdbLsm.LsmTree.Resolve` | logregator-tsdb/src/lsm.rs:286-339 | finds or allocates the stream of a label map; the two label-state errors cannot occur; a map the manifest cannot store panics |
| `TsdbLsm.LsmTree.Put` | logregator-tsdb/src/lsm.rs:341-373 | the record gets the next sequence number, is logged before it can be flushed, and enters a memtable; the re-append after a flush never fails; only a lost worker fails it |
| `TsdbLsm.LsmTree.AppendOne` | logregator-tsdb/src/lsm.rs:271-374 | the exact outcome of one payload, and the record made of it |
| `TsdbLsm.LsmTree.AppendBatch` | logregator-tsdb/src/lsm.rs:266-381 | every payload before the first bad one becomes a record, in order, with its own stream, and the outcome names what is wrong with the one it stopped at, or that the worker is gone; a sync event ends a full batch; streams keep their labels; all properties of the run hold again unless a label map panicked or the worker is gone |
| `TsdbLsm.MapCodecIsSound` | logregator-tsdb/src/label.rs:297-309 | the label codec of the repository has the two properties that the tree relies on |
| `TsdbLsm.IntervalOfGroup` | logregator-tsdb/src/lsm.rs:341-373 | every frozen memtable holds one interval of sequence numbers, right behind the one before and behind the records there at the start, and all records put into it |
| `TsdbLsm.JobCompleteIff` | logregator-tsdb/src/io.rs:32-48 | the write loop of a flush job takes its whole memtable if and only if the first arrival has the least key, the last the greatest, and the table codec takes every record |
| `TsdbLsm.OneByteRecordCannotBeFlushed` | logregator-tsdb/src/lsm.rs:271-357 | a batch takes the payload [0, 7], and the flush of a memtable with its record fails |
| `TsdbLsm.EmptyLabelPanics` | logregator-tsdb/src/lsm.rs:330-333 | a label map that decodes but panics, because its strings are empty |
| `TsdbLsm.StrippedFitsIff` | logregator-tsdb/src/lsm.rs:271-357 | the stripped record can be written to a table if and only if two bytes follow the labels; the size test looks at the whole payload |
| `TsdbLsm.Rebuild` | logregator-tsdb/src/lsm.rs:323-335 | folding all announced and buffered stream updates and rebuilding gives the running registry in all three maps |
| `TsdbLsm.RegisteredIff` | logregator-tsdb/src/lsm.rs:286-339 | the registered streams are the initial ones and exactly one per update, with consecutive ids |
| `TsdbLsm.LsmTree.DrainSstQueue` | logregator-tsdb/src/lsm.rs:446-464 | takes in all results and keeps the queue a tail of the issued jobs; results that are the next jobs in order let go of one memtable each |
| `TsdbLsm.Drive` | logregator-tsdb/src/lsm.rs:446-464 | over any run of batches and of reports in the order of issue the queue is always exactly the jobs not yet reported |
| `TsdbLsm.Perform` | logregator-tsdb/src/lsm.rs:446-464 | one operation of such a run: each report meets its memtable at the front of the queue |
| `TsdbLsm.InOrderDrains` | logregator-tsdb/src/lsm.rs:446-464 | results in the order of issue let go of exactly their memtables |
| `TsdbLsm.SubsequenceIffEmbeds` | logregator-tsdb/src/lsm.rs:446-464 | the greedy match of results against the queue finds an increasing embedding whenever there is one |
| `TsdbLsm.DrainedIff` | logregator-tsdb/src/lsm.rs:446-464 | the queue empties if and only if the queued ids lie in the results at increasing positions; a lost result keeps its memtable and all later ones queued |

## Left out

- CoreEngine.Engine.Range: takes as requirements that the Bloom filter of a table never denies a record it holds and that the index seek lands no later than the first record of the window; the table file format is not part of this model.
- CoreEngine.Engine.BatchInsert: requires the sequence counter to stay below 2^64; wrap-around of 64-bit counters is not modelled anywhere.
- CoreSafety.CrashStep: a crash step cuts the active log between two records. CoreRestart.CutIsCrash and CoreRestart.SyncedSurvivesCutIff add a cut at any byte to the end of any run; what is then appended behind the rest of a record is described by CoreWal.RestSpoilsLog and not carried into later steps. The scan of table files in `Engine::open` is taken as reading them faithfully.
- CoreSafety.SyncedIsDurable: the crashes within the run cut between two records; CoreRestart.SyncedSurvivesCutIff says for each state of a run which cuts lose what was synced.
- CoreRestart.RestartKeepsLogsIff: speaks of the first restart; a log may have copies after later ones, and for all rotations CoreRestart.RotationKeepsDiskIff holds.
- CoreWal.RecoverFile: every allocation below 2^63 bytes succeeds, and a record is smaller than that.
- CoreWal.RecoverAll: reading the directory never fails, and a file that cannot be opened is the same as one that is given up.
- TsdbLsm.LsmTree.AppendBatch: requires stream ids and sequence numbers to stay below 2^64; memtable ids are unbounded; what a panic or a lost worker leaves behind is not described beyond the records accepted before it.
- TsdbLsm.LsmTree.constructor: requires a consistent registry whose ids lie below the next stream id; recovery of a tree from disk is unfinished in the source.
- TsdbMemtable.MutMemtable.Append: takes the in-memory size of a record as 48 bytes plus its payload, as on 64-bit targets.
- TsdbSst.SstWriter.Finish: the contents of the Bloom filter are a parameter; the footer and the whole-file checksum behind it are not part of this model.
- TsdbFlush.FlushMemtable: the table file is always created; a memtable at or above the size bound of a table may fail in the writer.
- TsdbManifest.Manifest.Append: file operations do not fail, except a read-back that ends inside an entry; what is written to a file stays in it; the JSON form of a snapshot is taken as faithful.
- TsdbManifest.RunRecovers: speaks of restarts that can read the log back; TsdbManifest.Manifest.Reopen says which can.
- TsdbManifestCodec.DecodeEncode: strings are byte strings with an arbitrary validity predicate in place of UTF-8.
- TsdbLabel.EncodeLabels: the fingerprint of a label map is not modelled; it is a function of the entries, so equality is equality of entries.
- Proto.DecodeClient: memory is unlimited, also for the list that a batch reserves for its record count.
- CoreBackend.IoWorker.HandleFlush: the write to the table file is one step; fsync timing is not modelled.
- Cursor over several blocks, merge iterator, labelled iterator and range query of logregator-tsdb: unfinished in the source.
- The write-ahead log of logregator-tsdb and `logregator-net`: unfinished in the source.
- TCP server and client, channels, metrics, tracing, benchmarks and tools: input, output and reporting.
- Simple getters, constructors of configuration and error texts.
