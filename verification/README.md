# A verified model of DistributedDB

This project models a small key/value database written in C++17 and proves properties of the
model in Dafny. Five connected parts are covered.

- **The log.** Records are encoded behind a 25-byte header, framed by a 4-byte length and appended
  to one file, which is a byte sequence here. The reader stops at the first torn, oversized or
  undecodable frame. What it returns is folded into a map.
- **The database.** PUT and DELETE change the live map, then append, and undo if the append fails.
  Appends may succeed, throw, or tear and leave the stream failed. The live map is compared with
  the log over every run of operations, and the log is cut at every byte.
- **Concurrency.** Transactions interleave one lock operation, map access or append at a time under
  the reader/writer lock and the log's own mutex. COMMIT is appended outside the data lock.
- **The wire.** Messages, their size checks, the scan text that the server prints and the client
  searches, the dispatcher, and the client's calls end to end.
- **Connections and workers.** Handlers, the accept chain, the connection counter and the request
  queue are step systems, interleaved in every way.

The modules, from the bottom up: `Bytes`, `WalRecord`, `WalStream`, `LogFile`, `ReopenedLog`, `Replay`,
`RangeScan`, `History`, `Database`, `Transactions`, `ScanText`, `Protocol`, `Connections`,
`Server`, `InterleavedHandlers`, `Atomicity`, `EndToEnd`, `WorkerQueue`. State changes follow one
pattern: a value datatype with a transition function carries the theorems, and a class with the
fields and methods of the C++ class is proved to make exactly those transitions.
`dafny verify dfyconfig.toml` checks everything.

## What the code does that one might not expect

Where the code and its description differ, the model follows the code.

- A PUT whose append fails erases its key and does not bring back the old value
  (`src/core/persistent_database.cpp:40-44`). The live map is then the replay of the log without
  exactly those *lost* keys (`Database.LiveMapVersusLog`, `Database.RefusedOverwriteLosesKey`).
- The log reader refuses records over 1048576 bytes, and the server accepts messages of that
  size, whose log record is 12 bytes longer. A PUT with 1048552 to 1048563 bytes of key and value is
  acknowledged, cannot be read back, and hides every record behind it
  (`Server.AcknowledgedPutSurvivesIff`, `Server.LargePutIsAcknowledgedAndLost`).
- `read_all_records` reopens a file behind a torn write in append mode. Later records are then
  acknowledged, and they are read back if and only if their bytes happen to fall into place behind
  the torn ones (`ReopenedLog.LaterRecordsAreReadIff`). A single record never does behind one stray
  byte, and none does behind a torn frame that stays unfinished. A torn frame that the new ones
  complete brings the refused record back with their bytes for its end
  (`ReopenedLog.RefusedRecordComesBackFilledUp`). There are torn tails that hide nothing
  (`ReopenedLog.TornTwinIsReadBack`). Inside the repository only `recover_from_wal`, on a log just
  opened, and `recover_from_checkpoint`, which is left out, call `read_all_records`, so this is a case
  for other users of the public class.
- `compact` starts an empty log and keeps no snapshot. Recovery from the new file gives the live map
  if and only if every key of the replay before the compaction that was not touched since is lost
  and no lost key was touched since (`Database.RecoveryAfterCompaction`). Where nothing is lost,
  that is: if and only if every key alive at the compaction was touched since
  (`Database.CompactionForgetsKey`).
- A truncation that cannot open its new file keeps the counters of the old one until the next that
  can (`LogFile.AccountingIff`, `LogFile.CountersOutliveFile`).
- The repository's README promises ACID transactions with commit and rollback. Replay ignores
  COMMIT and `rollback` only prints. So a crash leaves all or nothing of a transaction if and only if
  nothing of it can be read back or it logged at most one PUT or DELETE (`Atomicity.RunAtomicIff`,
  `Atomicity.TwoPutsCutApart`). The server's own transactions never log more than one
  (`Atomicity.ServerTransactionsAreAtomic`). What holds of COMMIT itself is
  `Transactions.CommitDiscipline` and `Transactions.CommitIsLoggedIff`.
- Scan text is not escaped, as section 7 of RFC 8259 would ask. The round trip holds if and only if
  the pairs returned contain no double quote (`ScanText.PrintParseRoundTripIff`,
  `ScanText.QuoteIsNotReadBack`).
- GET reports a key whose value is empty as not found (`EndToEnd.SessionRefinesMap`,
  `EndToEnd.EmptyValueIsNotFound`).
- A handler whose operation is aborted never calls its disconnect callback, so its place in the
  connection counter is never given back (`Connections.LostPlacesStayCounted`,
  `Connections.AbortedRunLeaksAPlace`). Operations are aborted by `ConnectionHandler::stop`, which
  nothing in the repository calls.
- The client refuses an answer over 1 MiB by its length and leaves the rest on the stream, where the
  next call takes it for its own answer. The server carries that call out and the client throws
  (`EndToEnd.ScanLeavesUnreadIff`, `EndToEnd.LargestPairIsNotScanned`,
  `EndToEnd.CallAfterLongScanThrows`).

## Model

| member | source | states |
|---|---|---|
| Bytes.U32AtIsLowByteFirst | src/storage/wal.cpp:65-69 | a 32-bit integer lies in the data low byte first |
| Bytes.ToU32Wraps | src/storage/wal.cpp:344 | the cast of a size to 32 bits keeps its low bits |
| WalRecord.Serialize | src/storage/wal.cpp:9-43 | the bytes pushed one part at a time are the record's encoding, to which the codec lemmas apply |
| WalRecord.Deserialize | src/storage/wal.cpp:45-85 | the offset-driven reads yield the specified record, or fail on exactly the inputs that are too short for the header or for the lengths in it |
| WalRecord.HeaderLayout | src/storage/wal.cpp:13-34 | the encoding has the type at byte 0 and timestamp, transaction id and both lengths at offsets 1, 9, 17 and 21, then key and value |
| WalRecord.DecodeOfEncode | src/storage/wal.cpp:9-85 | a record with true length fields decodes from its own encoding |
| WalRecord.EncodeOfDecode | src/storage/wal.cpp:45-85 | whatever decodes has true lengths and re-encodes to a prefix of the bytes it came from |
| WalRecord.CodecIsFaithfulIff | src/storage/wal.cpp:9-85 | a record survives the codec if and only if its length fields are true |
| WalRecord.CutRecordFails | src/storage/wal.cpp:46-48 | no proper prefix of a record's encoding decodes |
| WalRecord.DecodesAsIff | src/storage/wal.cpp:45-85 | data decode as an honest record if and only if they start with its encoding |
| WalRecord.DecodeFailsIff | src/storage/wal.cpp:46-75 | decoding fails on exactly the data that start with no honest record, as too short below 25 bytes |
| WalStream.FitsIff | src/storage/wal.cpp:161 | a record fits the reader if and only if its lengths are true and it has at most 1048576 bytes, 25 of them header |
| WalStream.StopAtOversizedFrame | src/storage/wal.cpp:161-164 | reading stops in front of a frame over the 1048576-byte limit, whatever follows |
| WalStream.StopAtTornFrame | src/storage/wal.cpp:159-173 | reading stops in front of any proper part of a frame |
| WalStream.ReadFittingFrames | src/storage/wal.cpp:154-183 | fitting frames in front of any bytes are read whole, and reading goes on behind them |
| WalStream.ReadBackIff | src/storage/wal.cpp:139-195 | the frames of any list read back as that list if and only if each record is honest and within the limit |
| WalStream.FramesInjective | src/storage/wal.cpp:340-358 | two readable lists with the same file bytes are the same list |
| WalStream.AppendOneFrameIff | src/storage/wal.cpp:161-164 | one more frame on a readable log adds exactly that record to what is read, if and only if it fits |
| WalStream.ConsumedIsFramedPrefix | src/storage/wal.cpp:154-183 | on arbitrary bytes the consumed part is a prefix of the input made of length-framed bodies |
| WalStream.ReaderStopsWhereNothingReads | src/storage/wal.cpp:154-183 | on arbitrary bytes one record comes back per consumed frame, and no frame reads where it stopped |
| WalStream.RecordsArePrefixesOfBodies | src/storage/wal.cpp:176-178 | on arbitrary bytes every returned record re-encodes to a prefix of its own body, which is within the limit |
| WalStream.WholeFramesIsGreatest | src/storage/wal.cpp:340-358 | the number of surviving frames is the greatest whose bytes lie within the cut |
| WalStream.WholeFramesMonotone | src/storage/wal.cpp:154-183 | a later cut never leaves fewer whole frames |
| WalStream.ReadCutLog | src/storage/wal.cpp:154-183 | the frames of honest records cut at any byte read back as the whole frames within the cut, up to the first oversized record |
| LogFile.WriteKeepsSound | src/storage/wal.cpp:340-358 | every outcome of a write leaves the file as whole frames plus at most one torn frame, with the stream failed if torn |
| LogFile.ReadCutFile | src/storage/wal.cpp:139-195 | the log file, torn or not, cut at any byte reads back as its first j whole records |
| LogFile.ReadWholeFileIff | src/storage/wal.cpp:139-195 | the log file, torn or not, reads back as all its whole records if and only if each fits |
| LogFile.LogAccounting | src/storage/wal.cpp:125-127 | after any appends, checkpoints and truncations, whatever writes and opens failed: if the last truncation could not open its file, the file is empty and the stream failed; otherwise file length = total_bytes + 4 * total_records + checkpoint frames + torn bytes, the last being none while the stream is good, and total_records is the number of records in the file that are no checkpoints |
| LogFile.AccountingIff | src/storage/wal.cpp:284-291 | over the same runs the account of the file length holds if and only if the last truncation opened its file or no record is counted |
| LogFile.CountersOutliveFile | src/storage/wal.cpp:284-291 | a run with the failing side: one append, a truncation that cannot open its file, an empty file and one record counted |
| LogFile.AppendOutcome | src/storage/wal.cpp:110-137 | an append succeeds if and only if it is written whole; the record is then the last one, with its own time or the clock's; a failed one changes neither records nor counters |
| LogFile.CheckpointOutcome | src/storage/wal.cpp:197-223 | a checkpoint succeeds if and only if a record of type 4 with the name for its key is written whole |
| LogFile.TruncateOutcome | src/storage/wal.cpp:277-300 | a truncation succeeds if and only if the new file opens, and leaves no record either way |
| LogFile.ReopenOutcome | src/storage/wal.cpp:144-188 | reading back changes no byte and leaves a good stream if and only if the file opened twice |
| LogFile.WriteAheadLog.WriteRecordToFile | src/storage/wal.cpp:340-358 | the object's file, stream state and result follow the write transition in all three outcomes |
| LogFile.WriteAheadLog.AppendRecord | src/storage/wal.cpp:110-137 | a zero timestamp is filled in, the frame is written, and the counters move only on success |
| LogFile.WriteAheadLog.CreateCheckpoint | src/storage/wal.cpp:197-223 | the checkpoint record is written and the counters stay |
| LogFile.WriteAheadLog.TruncateLog | src/storage/wal.cpp:277-300 | the log moves to an empty file; the counters restart only if it opened |
| LogFile.WriteAheadLog.ReadAllRecords | src/storage/wal.cpp:139-195 | the reading loop returns what the recursive reader specifies on the whole file; the stream is good afterwards only if both the read and the reopening for append succeeded |
| ReopenedLog.LaterRecordsAreReadIff | src/storage/wal.cpp:187-188 | behind a reopen, whatever a torn write left in the file and however many records are acknowledged after it, the first k of them are read back in their place if and only if, read from the torn bytes on, each length found is within bounds and spans bytes that start with the next record's encoding |
| ReopenedLog.NextRecordIsReadIff | src/storage/wal.cpp:187-188 | the case of one record, with nothing behind it |
| ReopenedLog.NothingTornIsReadBack | src/storage/wal.cpp:187-188 | with nothing torn the acknowledged records are read back, and nothing behind them |
| ReopenedLog.UnfinishedFrameStrandsLaterRecords | src/storage/wal.cpp:170-173 | if the torn frame claims more bytes than all new frames bring together, none of the acknowledged records is read back, nor anything else |
| ReopenedLog.OversizedTearStrandsLaterRecords | src/storage/wal.cpp:161-164 | likewise if the torn record was over the reader's limit, whatever follows |
| ReopenedLog.OneStrayByteStrandsLaterRecords | src/storage/wal.cpp:155-164 | one torn byte multiplies the first length by 256, which hides all acknowledged records if the product is over the reader's limit or longer than their frames |
| ReopenedLog.OneStrayByteStrandsNextRecord | src/storage/wal.cpp:155-164 | one torn byte always hides a single acknowledged record |
| ReopenedLog.RefusedRecordComesBackFilledUp | src/storage/wal.cpp:166-178 | if the torn bytes reach past the header and the new frames together complete them, the refused record is read back, its last bytes taken from the new frames |
| ReopenedLog.OneByteShortIff | src/storage/wal.cpp:340-358 | a record torn one byte short and then appended again is read back if and only if its last byte is the low byte of its length |
| ReopenedLog.TornTwinIsReadBack | src/storage/wal.cpp:340-358 | an input at which a torn tail hides nothing: the 26-byte record that ends in 26 |
| Replay.ReplayRecords | src/core/persistent_database.cpp:234-250 | the recovery loop computes the fold of the records over the starting map |
| Replay.ReplayConcat | src/core/persistent_database.cpp:234-250 | replaying a log in two parts is replaying it at once |
| Replay.ReplayIsLastWriter | src/core/persistent_database.cpp:237-242 | a key's value after replay is what the last PUT or DELETE of that key says |
| Replay.ReplayKeepsUntouchedKey | src/core/persistent_database.cpp:235-250 | a key without PUT or DELETE keeps what it had |
| Replay.ReplayDependsOnUntouchedKeysIff | src/core/persistent_database.cpp:235-250 | two starting maps replay to the same map if and only if they agree on the keys the log does not touch |
| Replay.ReplayFromOwnPrefix | src/core/persistent_database.cpp:235-250 | replaying a log over the replay of any of its own prefixes gives the same map |
| Replay.ReplayIdempotent | src/core/persistent_database.cpp:235-250 | replaying twice is replaying once |
| Replay.ReplayIgnoresInertRecords | src/core/persistent_database.cpp:243-248 | COMMIT, CHECKPOINT and unknown records may be inserted anywhere without effect |
| Replay.RecoveryAfterCompactionIff | src/storage/wal.cpp:277-294 | replaying a log over nothing and over a base map gives the same if and only if it touches every key of the base |
| Replay.RecoveryIsLiveIff | src/storage/wal.cpp:277-294 | replaying a log over nothing gives the live map, some keys of which are lost, if and only if every key of the base that it does not touch is lost and it touches no lost key |
| Replay.ReplayIsApplyWrites | src/core/persistent_database.cpp:235-250 | replay is the application of the log's PUTs and DELETEs alone |
| RangeScan.Scan | src/core/persistent_database.cpp:86-95 | the visiting loop returns the first max(limit, 1) matches in visiting order, for the range that the next two rows fix |
| RangeScan.LessIff | src/core/persistent_database.cpp:89 | the order of keys is that of byte strings: the first difference decides, and a proper prefix is smaller |
| RangeScan.InRangeIff | src/core/persistent_database.cpp:89 | a key is in the range if and only if it is the start or above it, and below the end |
| RangeScan.ScanOfIsScan | src/core/persistent_database.cpp:82-96 | for every visiting order: no key twice, only live pairs with start <= key < end, exactly min(max(limit, 1), matches) of them |
| RangeScan.EveryScanHasAnOrder | src/core/persistent_database.cpp:88-93 | conversely, every result with these properties is that of some visiting order |
| RangeScan.UnlimitedScanIsComplete | src/core/persistent_database.cpp:88-93 | a scan whose limit covers the map returns every key in the range |
| RangeScan.RangesSplit | src/core/persistent_database.cpp:89 | for a <= b <= c every key of [a,c) is in exactly one of [a,b) and [b,c) |
| RangeScan.ScansPartition | src/core/persistent_database.cpp:82-96 | for a <= b <= c, unlimited scans of [a,b) and [b,c), in any visiting orders, together are the scan of [a,c), without overlap |
| History.LostIff | src/core/persistent_database.cpp:40-44 | a key is lost exactly when some PUT of it failed while it was present and no PUT of it succeeded since |
| History.LiveIsReplayWithoutLost | src/core/persistent_database.cpp:24-80 | in every correct history the live map is the logged writes' map without the lost keys |
| History.LiveIsSubmapOfReplay | src/core/persistent_database.cpp:24-80 | the live map is part of that map, and equal to it if and only if nothing is lost |
| Database.PersistentTransaction.Get | src/core/persistent_database.cpp:18-22 | an absent key reads as the empty string |
| Database.PersistentTransaction.Put | src/core/persistent_database.cpp:24-48 | map, log, flag and result after a PUT, including the erased key when the append fails |
| Database.PersistentTransaction.Del | src/core/persistent_database.cpp:50-80 | map, log, flag and result after a DELETE, including the restored value when the append fails |
| Database.PersistentTransaction.Scan | src/core/persistent_database.cpp:82-96 | the result is a scan of the live map for any order in which the hash map is visited |
| Database.PersistentTransaction.Commit | src/core/persistent_database.cpp:98-112 | a COMMIT is appended only by a transaction with writes; the map stays |
| Database.PutOutcome | src/core/persistent_database.cpp:24-48 | a PUT succeeds if and only if a record of type 1 with its key, value and id is written whole; else the key is gone and the flag is off |
| Database.DelOutcome | src/core/persistent_database.cpp:50-80 | a DELETE succeeds if and only if the key is there and a record of type 2 is written whole; else map and log stay |
| Database.CommitOutcome | src/core/persistent_database.cpp:98-112 | without writes nothing is logged and it succeeds; with writes it succeeds if and only if a record of type 3 with the transaction's id is written whole |
| Database.NextIdWraps | src/core/persistent_database.cpp:168 | ids advance by one and wrap at 2^64 |
| Database.PersistentDatabase.Initialize | src/core/persistent_database.cpp:134-150 | the map becomes the replay of what the opened file holds and the log is on that file; an exception in the fold leaves the records so far applied, the database as uninitialized as it was, and an error result; a failed reopening goes unreported |
| Database.PersistentDatabase.BeginTransaction | src/core/persistent_database.cpp:163-170 | a fresh transaction with the next id, or none before initialization |
| Database.PersistentDatabase.Compact | src/core/persistent_database.cpp:191-196 | the log is truncated, the map stays, and success is reported even if the truncation failed |
| Database.PersistentDatabase.Backup | src/core/persistent_database.cpp:198-204 | one CHECKPOINT record is written, or an error without a log |
| Database.PersistentDatabase.Shutdown | src/core/persistent_database.cpp:152-161 | one CHECKPOINT record is written if the database was in use |
| Database.StepKeepsConsistent | src/core/persistent_database.cpp:24-112 | each operation, with any outcome of its append, keeps map, history and log in agreement |
| Database.RunIsConsistent | src/core/persistent_database.cpp:24-112 | so they agree after every run of operations by any number of transactions |
| Database.CallsAreEvents | src/core/persistent_database.cpp:18-80 | each GET, PUT and DELETE of a run is one event of its history |
| Database.BeginsAreCounted | src/core/persistent_database.cpp:163-170 | until they wrap, a run's ids count its begun transactions |
| Database.RunFlagIff | src/core/persistent_database.cpp:27-76 | after every run a transaction's flag is on if and only if its last PUT, or DELETE that found its key, was logged |
| Database.RunCommitIff | src/core/persistent_database.cpp:98-112 | so a commit adds a record of type 3 with its id if and only if that was so and the write comes through |
| Database.BackupOutcome | src/core/persistent_database.cpp:198-204 | a backup adds a record of type 4 if and only if the write comes through, and changes nothing else |
| Database.LiveMapVersusLog | src/core/persistent_database.cpp:40-77 | after every run the live map is the replay over the base map minus the lost keys, so a part of the replay, and equal to it if and only if no key is lost |
| Database.CrashRecovery | src/core/persistent_database.cpp:222-259 | for every run, compactions included, whatever appends failed or tore: the log file cut at any byte yields its first j records; replayed over the base they give the map live when those had been logged, up to keys lost by then; recovery from nothing gives that replay if and only if the j records touch all of the base |
| Database.CrashRecoveryExact | src/core/persistent_database.cpp:222-259 | without failed PUTs it is exactly that live map, at every moment at which the log held those records; j counts the whole frames and never falls with the cut; without forgotten records it is what recovery gives |
| Database.CrashRecoveryWithoutCompaction | src/core/persistent_database.cpp:222-259 | in runs without compaction and without failed PUTs, recovery from the cut file alone gives the live map of the moment |
| Database.RecoveryAfterCompaction | src/core/persistent_database.cpp:191-196 | the current file recovers the live map if and only if every key of the base not touched since is lost and no lost key was touched since; it recovers the replay of the whole history if and only if every key of the base was touched since |
| Database.RefusedOverwriteLosesKey | src/core/persistent_database.cpp:40-44 | a run in which a PUT over a present key is refused by the log: the key is lost, the live map is empty, and recovery brings the old value back |
| Database.CompactionForgetsKey | src/core/persistent_database.cpp:191-196 | a PUT and a compaction: the key is live and recovery gives nothing |
| Transactions.LocksKept | src/core/persistent_database.cpp:19-51 | every step keeps the locks exclusive: readers or one writer on the map, one holder of the log's mutex |
| Transactions.ReachedInv | src/core/persistent_database.cpp:18-112 | the invariant over locks, map, log, flags, calls and ids holds in every reachable state |
| Transactions.ReadersSeeLoggedMap | src/core/persistent_database.cpp:18-22 | while a reader holds the lock, nobody is inside a PUT or DELETE and the map is the replay of the log minus the lost keys |
| Transactions.NothingChangesUnderReaders | src/core/persistent_database.cpp:98-112 | while a reader holds the lock no step changes the map or the logged writes, though COMMITs may be appended |
| Transactions.LiveMapWhenUnlocked | src/core/persistent_database.cpp:40-77 | in every reachable state without a writer the map is the replay of the log minus the lost keys, part of the replay, equal to it if and only if nothing is lost |
| Transactions.GetReturnsLastLoggedWriteIff | src/core/persistent_database.cpp:18-22 | a GET answers with the last PUT or DELETE of its key in log order at that moment, if and only if the key is not lost or was last logged with an empty value; a lost key reads as empty though the log replays to it |
| Transactions.NothingLostWithoutFailures | src/core/persistent_database.cpp:40-44 | when every append of a change succeeds no key is ever lost |
| Transactions.Linearizable | src/core/persistent_database.cpp:18-112 | in every schedule the calls take effect one by one, inside their own intervals, as the sequential map answers them, in an order whose logged writes are the log's, and which respects calls that did not overlap |
| Transactions.LaterCallsStartLater | src/core/persistent_database.cpp:18-51 | a call that starts after another returned is recorded so |
| Transactions.CommitDiscipline | src/core/persistent_database.cpp:98-112 | ids are issued in increasing order, and every COMMIT in the whole history follows a logged PUT or DELETE with its id |
| Transactions.CommitIsLoggedIff | src/core/persistent_database.cpp:27-76 | commit goes to the log if and only if the transaction's last PUT, or DELETE that found its key, was logged |
| Transactions.ChangeIsAppended | src/core/persistent_database.cpp:32-72 | the append of a PUT or DELETE adds its record, of type 1 or 2, or nothing |
| Transactions.CommitIsAppended | src/core/persistent_database.cpp:102-106 | the append of a commit adds a record of type 3 with the transaction's id, or nothing |
| Transactions.CheckpointIsAppended | src/storage/wal.cpp:202-209 | a checkpoint adds a record of type 4 with its name, or nothing |
| Transactions.TruncationEmptiesTheFile | src/storage/wal.cpp:277-294 | a truncation leaves every record behind and the current file empty |
| Transactions.CrashRecovery | src/core/persistent_database.cpp:222-259 | stop any schedule with keys, values and checkpoint names under 4 GiB anywhere and cut its log file, torn or not, at any byte: the surviving records, over the base behind the file, replay to the map after some prefix of the linearized calls, up to keys lost by then, and that prefix logged exactly the surviving writes |
| Transactions.StoredPairsPass | src/core/persistent_database.cpp:24-80 | whatever condition every PUT that is called meets, every stored pair meets in every reachable state, values put back by a failed DELETE included |
| Transactions.NobodyIsStuck | src/core/persistent_database.cpp:19-110 | the two locks cannot deadlock: in every reachable state each call or commit under way can take its next step, whatever becomes of its append, or waits for the log's mutex, whose holder can |
| Transactions.EntryWaitsForSomebody | src/core/persistent_database.cpp:25-51 | a PUT or DELETE that cannot enter waits for another call that is under way |
| Transactions.ReadersShareTheLock | src/core/persistent_database.cpp:19-85 | a reader can enter whenever no PUT or DELETE is under way, whoever else reads |
| Transactions.OthersWaitForNobody | src/core/persistent_database.cpp:98-170 | in every reachable state beginning and committing wait for nobody, and a checkpoint or truncation only for the log's mutex |
| Transactions.IssuedCount | src/core/persistent_database.cpp:168 | the n-th transaction has id n |
| Transactions.AloneIsSequential | src/core/persistent_database.cpp:24-80 | the steps of one undisturbed PUT or DELETE, of an absent key as well, have the effect of the sequential call |
| ScanText.Print | src/network/server.cpp:165-172 | the appending loop builds the printed form to which the round trip applies |
| ScanText.TwoPairsPrinted | src/network/server.cpp:166-172 | the text of a list of two, spelled out in characters |
| ScanText.NothingPrinted | src/network/server.cpp:166-172 | an empty list prints as two brackets |
| ScanText.FindPair | src/network/client.cpp:104-115 | the four searches of one turn, breaking off where one finds nothing |
| ScanText.Parse | src/network/client.cpp:99-121 | the loop ends and returns what the recursive parser specifies |
| ScanText.FindsFirst | src/network/client.cpp:104-113 | a search gives the first occurrence at or after its start, or nothing if there is none |
| ScanText.ParserOnAnyText | src/network/client.cpp:103-121 | on any text: at most max(limit, 1) pairs, each of quote-free substrings, key before value, behind all pairs before it |
| ScanText.QuoteFreeRoundTrip | src/network/server.cpp:166-172 | quote-free pairs are read back as printed, the first max(limit, 1) of them, whatever braces, brackets, commas or marks they contain |
| ScanText.PrintParseRoundTripIff | src/network/client.cpp:99-123 | for any list and limit the parser returns the first max(limit, 1) printed pairs if and only if those pairs are quote-free |
| ScanText.QuoteIsNotReadBack | src/network/server.cpp:168-169 | a list with the failing side: one key that is a double quote |
| Protocol.Serialize | src/network/protocol.cpp:7-36 | the bytes pushed one part at a time are the message's encoding |
| Protocol.Deserialize | src/network/protocol.cpp:38-78 | the offset-driven reads yield the specified message or the specified error |
| Protocol.MessageLayout | src/network/protocol.cpp:11-33 | type at byte 0, id and both lengths at offsets 1, 5 and 9, then key and value |
| Protocol.EncodeOfDecode | src/network/protocol.cpp:61-77 | whatever decodes is within the field limits with true lengths and re-encodes to a prefix of its bytes |
| Protocol.DecodeOfEncode | src/network/protocol.cpp:7-78 | a message within the field limits decodes from its own encoding |
| Protocol.CodecIsFaithfulIff | src/network/protocol.cpp:7-78 | a message survives the codec if and only if its lengths are true and within the field limits |
| Protocol.DecodesAsIff | src/network/protocol.cpp:38-78 | data decode as a message if and only if it is within the field limits and they start with its encoding |
| Protocol.DecodeRejectsIff | src/network/protocol.cpp:39-68 | decoding rejects exactly the data that start with no message within the limits, and which error it gives |
| Protocol.ReceivedIsDeliverable | src/network/server.cpp:36-68 | whatever is received from a stream is within all size limits |
| Protocol.DeliveredIff | src/network/client.cpp:150-187 | a sent message arrives unchanged, with the stream behind it intact, if and only if it is within all size limits |
| Protocol.DeliverableIff | include/network/protocol.h:38-47 | the size limits in numbers: 256 bytes of key, 1048576 bytes with the 13 of the header |
| Protocol.ReceiveConsumes | src/network/client.cpp:168-187 | a frame is read to its end, or only its length if that is over 1048576; with too few bytes nothing is decided |
| Connections.OrderlyKept | src/network/server.cpp:28-96 | every callback, and `stop` at any moment, keeps one thing at a time per handler |
| Connections.ConnectionProtocol | src/network/server.cpp:28-96 | in every run at most one read or write is outstanding, the disconnect callback is called at most once with nothing after it, and the ids answered are in order those received, but for at most the last |
| Connections.StartedReadsAHeader | src/network/server.cpp:18-28 | a started handler waits for a header |
| Connections.HeaderCallback | src/network/server.cpp:35-52 | undisturbed, a header of at most 1048576 leads to a body read; any other ending is reported, but for an abort |
| Connections.BodyCallback | src/network/server.cpp:64-78 | undisturbed, a body that decodes leads to one response with its id; any other ending is reported, but for an abort |
| Connections.WriteCallback | src/network/server.cpp:219-228 | undisturbed, a written response leads to the next header read; any other ending is reported, but for an abort |
| Connections.StopIsForGood | src/network/server.cpp:22-26 | a handler is active if and only if it was never stopped |
| Connections.StoppedIssuesNothing | src/network/server.cpp:28-56 | a stopped handler issues no read and no write |
| Connections.ConnectionCounter | src/network/server.cpp:281-308 | with check and increment as separate steps and any disconnects between, the counter is admitted connections minus disconnect callbacks, never wraps and never exceeds the maximum |
| Connections.AcceptOutcome | src/network/server.cpp:281-304 | undisturbed, an accepted connection is counted and started if and only if the server runs and fewer than 50000 are counted; the next is waited for if and only if the server runs |
| Connections.CheckAdmitsIff | src/network/server.cpp:284-299 | in every interleaving the check admits if and only if fewer than 50000 are counted, and what it admits is counted and started |
| Connections.AcceptChainGoesOn | src/network/server.cpp:300-304 | while the server runs the accept chain does not break off |
| Connections.NothingIsHeldUp | src/network/server.cpp:22-96 | whatever else goes on, an outstanding operation may complete in any way, and every handler and the server may be stopped |
| Connections.DecrementWraps | src/network/server.cpp:306-308 | the counter falls by one modulo 2^32 |
| Connections.EndsSilentlyIff | src/network/server.cpp:47-51 | a handler has come to rest without a report if and only if in its run an operation was aborted, or a `stop` came between a callback's check and the next call's |
| Connections.AbortedRunLeaksAPlace | src/network/server.cpp:47-51 | a run in which one connection is admitted and its first read aborted: the handler is at rest and its place is still counted |
| Connections.LostPlacesStayCounted | src/network/server.cpp:281-308 | places of such handlers are never given back, and once they reach the maximum no connection is admitted |
| Connections.DatabaseServer.HandleAccept | src/network/server.cpp:281-304 | an undisturbed accept callback makes the steps of the accept chain |
| Connections.DatabaseServer.OnClientDisconnect | src/network/server.cpp:306-308 | the counter falls by one, as an unsigned 32-bit integer |
| Server.ConnectionHandler.OnHeaderRead | src/network/server.cpp:35-52 | the header callback's effect on the connection, and the body size it accepts |
| Server.ConnectionHandler.OnBodyRead | src/network/server.cpp:64-78 | the body callback's effect on connection and database, and the response frame it hands out |
| Server.ConnectionHandler.WriteResponse | src/network/server.cpp:204-229 | one write is issued for an active connection, with the framed response |
| Server.ConnectionHandler.OnWritten | src/network/server.cpp:219-228 | the next request is read, or the end is reported unless the write was aborted |
| Server.ConnectionHandler.ProcessRequestSync | src/network/server.cpp:98-202 | the switch over begin, put, del, scan and commit has the dispatcher's effect on map, log and ids and gives its response, which the rows below fix |
| Server.ConnectionHandler.Exchange | src/network/server.cpp:28-96 | the callbacks of one turn, chained over the arriving bytes, serve exactly one framed request; the connection is then ready again if and only if it was answered |
| Server.ResponseCarriesRequestId | src/network/server.cpp:98-100 | every response has its request's id, an empty key and, under 4 GiB, true lengths |
| Server.OtherRequestsChangeNothing | src/network/server.cpp:181-191 | nothing but a PUT or DELETE changes map, log or state |
| Server.AnswerTypes | src/network/server.cpp:104-191 | only a PING is answered PONG; unknown types, and the other requests before initialization, get an error and change nothing; an id is taken by the other four types only |
| Server.GetAnswer | src/network/server.cpp:104-120 | a GET succeeds with the value if and only if there is one and it is not empty |
| Server.PutAnswer | src/network/server.cpp:122-138 | a PUT succeeds if and only if it is logged, and the map then holds the pair; else the key is gone |
| Server.DelAnswer | src/network/server.cpp:141-157 | a DELETE succeeds if and only if it finds its key and is logged, and the key is then gone; else nothing changes |
| Server.ScanAnswerIsScan | src/network/server.cpp:160-173 | a SCAN is answered with the printed form of a scan of at most 1000 pairs |
| Server.StoredPairsStayBounded | src/network/protocol.cpp:61-68 | whatever bytes arrive and whatever appends fail, every stored pair has at most 256 bytes of key and 13 + key + value <= 1048576 |
| Server.InterleavedPairsStayBounded | src/network/protocol.cpp:61-68 | the same in every reachable state of interleaved transactions whose PUTs came in through messages |
| Server.AnswersAreDeliverable | src/network/server.cpp:107-110 | over bounded pairs every answer but a scan's passes the client's size checks |
| Server.DeliverableIsServed | src/network/server.cpp:28-96 | a request within the size limits reaches the dispatcher as sent and is answered |
| Server.ScanAnswerIsDeliverableIff | src/network/client.cpp:174 | a scan's answer passes them if and only if its text fits one message |
| Server.LoggedPutIsReadableIff | src/storage/wal.cpp:87-90 | among PUTs a client can send, the logged record is within the reader's limit if and only if key + value <= 1048551 |
| Server.PutIsAcknowledged | src/network/server.cpp:122-130 | a PUT whose append succeeds is answered OK, whatever becomes of the commit, and its frame is the next in the file |
| Server.AcknowledgedPutSurvivesIff | src/storage/wal.cpp:161-164 | that PUT is read back if and only if key + value <= 1048551; otherwise every later record is lost with it |
| Server.LargePutIsAcknowledgedAndLost | src/network/server.cpp:122-130 | a PUT with 1048552 bytes of key and value: within the message limits, acknowledged, stored, and not recovered |
| EndToEnd.DatabaseClient.SendRequest | src/network/client.cpp:138-148 | offline, nothing happens; otherwise link and outcome are those of one exchange, which throws one exception for a failed send and another for a failed receive |
| EndToEnd.DatabaseClient.SendMessage | src/network/client.cpp:150-166 | the server takes its turn on the bytes that got out, all or a proper part; its reply comes in behind what is unread |
| EndToEnd.DatabaseClient.ReceiveMessage | src/network/client.cpp:168-187 | one reply is read from the first unread byte on: decoded, or refused by its length with its body left unread, or refused by its content, or waited for in vain, or cut off by the end of the connection |
| EndToEnd.DatabaseClient.Get | src/network/client.cpp:46-59 | the stub's answer, the state behind the server and the unread bytes are those of the specified call, on any link |
| EndToEnd.DatabaseClient.Put | src/network/client.cpp:61-72 | likewise for PUT |
| EndToEnd.DatabaseClient.Del | src/network/client.cpp:74-83 | likewise for DELETE |
| EndToEnd.DatabaseClient.Scan | src/network/client.cpp:85-127 | likewise for SCAN, with the parsed pairs or the exception |
| EndToEnd.CallIsIdeal | src/network/client.cpp:46-83 | one call within the limits on an idle link is answered as a plain map answers it, the log goes on replaying to that map and the link is idle again |
| EndToEnd.AskOnline | src/network/client.cpp:138-187 | on an open link with nothing unread, a deliverable request with a deliverable answer gets that answer and leaves the link open with nothing unread |
| EndToEnd.SessionRefinesMap | src/network/client.cpp:46-83 | so is every sequence of calls, and the link stays idle throughout; an empty value reads as not found and deleting an absent key is refused |
| EndToEnd.EmptyValueIsNotFound | src/network/server.cpp:107-114 | an empty value is put and acknowledged, and the GET behind it throws |
| EndToEnd.SessionRecoversIff | src/storage/wal.cpp:154-183 | after any such session the file reads back as all its records if and only if every PUT had key + value <= 1048551, and then recovery gives the plain map |
| EndToEnd.PutArrivesIff | src/network/protocol.cpp:61-68 | a PUT within the size limits is answered and leaves the link open with nothing unread; any other changes nothing, loses the connection and throws |
| EndToEnd.OutsideLimitsThrows | src/network/client.cpp:168-187 | any call over the size limits throws, changes nothing and loses the connection |
| EndToEnd.LostConnectionThrows | src/network/client.cpp:168-187 | so does every call on a lost connection |
| EndToEnd.CutSendThrows | src/network/client.cpp:143-145 | a request that does not get out whole throws its own exception, and only a proper part of it has reached the server |
| EndToEnd.UnreadStays | src/network/client.cpp:150-166 | what is unread stays in front of what comes in, and on a lost connection nothing happens |
| EndToEnd.AskedIsFirstUnread | src/network/client.cpp:168-187 | on any link a request gets what the first unread bytes say, and the rest of them is what remains unread |
| EndToEnd.AnswersComeFromReplies | src/network/client.cpp:46-83 | on any link a call's answer is what the first unread bytes say: a response, an exception, or none |
| EndToEnd.PutIsAcknowledgedIff | src/network/client.cpp:61-72 | on an idle link a PUT returns true if and only if it fits and is logged, and the map then holds the pair |
| EndToEnd.DelIsAcknowledgedIff | src/network/client.cpp:74-83 | a DELETE returns true if and only if it fits, finds its key and is logged, and the key is then gone |
| EndToEnd.GetReturnsIff | src/network/client.cpp:46-59 | a GET returns the value if and only if the key fits and the value is there and not empty; else it throws |
| EndToEnd.CallOnTheWire | src/network/client.cpp:46-83 | what goes out: the length, type 1, 2 or 3, and the call's id |
| EndToEnd.RequestIdsAdvance | src/network/client.cpp:49 | the n-th call has the n-th id, which wraps at 2^32 |
| EndToEnd.ScanLeavesUnreadIff | src/network/client.cpp:174-176 | a scan on an idle link leaves bytes unread if and only if its answer does not fit one message; then it throws, the link stays open and the whole answer but its length is unread |
| EndToEnd.LargestPairIsNotScanned | src/network/client.cpp:174-176 | a database of one pair, as large as a message can bring, whose scan throws and leaves bytes unread |
| EndToEnd.CallAfterLongScanThrows | src/network/client.cpp:168-187 | the next request is then carried out by the server, and yet the client throws, because it reads the old answer for the new one |
| EndToEnd.ClientScanIff | src/network/client.cpp:85-127 | a client scan returns the first max(limit, 1) of the at most 1000 pairs found if and only if their text fits one message and those returned are quote-free |
| EndToEnd.ScansComeFromReplies | src/network/client.cpp:96-126 | on any link a scan parses a response of type SUCCESS and throws on any other, on a refused reply and on a lost connection |
| InterleavedHandlers.AnswerAlike | src/network/server.cpp:98-202 | for each call that took effect on a map, with its appends failing or not, the dispatcher alone on that map gives the handler's answer and the same next map |
| InterleavedHandlers.InterleavedAnswersAreSequential | src/network/server.cpp:81-96 | the answers of handlers interleaved in any schedule are those of one dispatcher given the same requests one after another, in the order in which the calls took effect; it ends with the same map |
| Atomicity.AtomicIff | src/core/persistent_database.cpp:235-250 | wherever a log file is cut, recovery finds all PUTs and DELETEs of a transaction or none, if and only if it finds none in the whole file or the transaction logged at most one |
| Atomicity.AtomicInOneFileIff | src/core/persistent_database.cpp:235-250 | in one readable file: if and only if it holds at most one write of the transaction |
| Atomicity.RunAtomicIff | src/core/persistent_database.cpp:98-112 | the same after every run of the database, over all records ever logged |
| Atomicity.TwoPutsCutApart | src/core/persistent_database.cpp:98-112 | two PUTs and a COMMIT, all logged; cut behind the first record, recovery gives one of the two keys |
| Atomicity.DispatchWritesOnce | src/network/server.cpp:122-157 | a request makes its transaction write at most once, with a new id, and commit what was logged |
| Atomicity.ServerTransactionsAreAtomic | src/network/server.cpp:98-202 | so until the ids run out every transaction of the server survives a cut whole or not at all, whatever bytes arrive and whatever appends fail or tear |
| WorkerQueue.QueueConservation | src/network/server.cpp:310-338 | in every interleaving of producers, workers and shutdown: what was submitted is what was taken followed by what waits, each request taken is in one worker's hands or answered once, no pop meets an empty queue |
| WorkerQueue.PushAddsLast | src/network/server.cpp:334-336 | a submitted request is the last in the queue |
| WorkerQueue.ProducerTurnOutcome | src/network/server.cpp:331-338 | a producer that gets the mutex adds its request and gives the mutex back |
| WorkerQueue.MutexIsGivenBack | src/network/server.cpp:311-336 | in every run the pool can be stopped, and whoever holds the mutex can give it back |
| WorkerQueue.WorkerTurnOutcome | src/network/server.cpp:311-322 | on its turn a worker takes the oldest request, or sleeps if there is none, or leaves once the pool is stopped |
| WorkerQueue.WokenWorkerOutcome | src/network/server.cpp:313-317 | a woken worker goes on to pop, sleeps again, or leaves, by queue and running flag |
| WorkerQueue.AnswerHandsOver | src/network/server.cpp:324-326 | what is answered is the request the worker held |
| WorkerQueue.PoolRunsUntilStopped | src/network/server.cpp:256-257 | the pool runs until it is stopped, with its workers |
| WorkerQueue.RequestQueue.ProcessRequestAsync | src/network/server.cpp:331-338 | the request joins the end of the queue |
| WorkerQueue.RequestQueue.NextTask | src/network/server.cpp:317-322 | the oldest request not yet taken, or nothing exactly when the queue is empty at shutdown |

## Left out

- Transactions.ReachedInv: a transaction is begun only while fewer than 2^64 ids were issued; beyond that the code's ids would repeat. The sequential model wraps. Each transaction is used by one thread at a time; the code reads `has_writes_` without a lock (`src/core/persistent_database.cpp:101`), and a transaction shared by threads is not modelled.
- Transactions.Linearizable: a scan reads the map in one step under the shared lock; nothing changes under that lock (Transactions.NothingChangesUnderReaders). An append either adds its record or not: torn bytes come in only with the file, in Transactions.CrashRecovery.
- Database.CrashRecovery: runs start from a fresh, open log and do not contain a reopen, which the database does only when it is initialized. Keys, values and checkpoint names are under 4 GiB, so that their 32-bit lengths are true.
- LogFile.LogAccounting: the counters are unbounded integers and not `size_t`.
- EndToEnd.DatabaseClient.SendRequest: a request whose body is 4 GiB or longer leaves bytes unread at the server, which are forgotten here; a send that fails ends the server's turn as the end of the stream would.
- EndToEnd.SessionRefinesMap: one client at a time; for interleaved clients see InterleavedHandlers, which starts at the decoded requests and does not follow their bytes.
- Server.ConnectionHandler.Exchange: the sockets become one call with the bytes that arrive; header and body buffers are reduced to the bytes handed to the callback and the body size. The interleaving of handlers is in Connections, on values.
- `rollback`: it only prints.
- Durability across process restarts: the constructor opens a new timestamped file, and recovery reads only that one. Recovery is stated over the file the records went to. The name of a new file is taken to be fresh.
- The buffer of the output stream: it is unbuffered here, and flushing does nothing; the code does not look at its outcome.
- `recover_from_checkpoint` and `restore`: they lock a mutex twice and rebuild no map.
- `DatabaseServer::process_request`: a second copy of the dispatcher. The workers' answer is the `Answer` step.
- Liveness: that workers wake and that `stop` returns. The running flag is set without the queue mutex; only safety is proved.
- The lifetime of the buffers handed to asynchronous writes, allocation failures and the dispatcher's handler for them.
- Host byte order is fixed to little-endian. Clocks and the outcomes of writes and opens are parameters.
- Statistics, console output, the PING stub, connecting and disconnecting, the mains and the benchmarks.
- The B-tree and transaction-manager headers, which declare operations without giving them bodies.
