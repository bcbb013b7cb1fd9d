# SinterDB, verified

A Dafny model of the parts of SinterDB (a document database written in TypeScript) that have to
be right for its promises to hold, and proofs of those promises:

- **Durability.** The write-ahead log, its record format, snapshots, replay, pruning and recovery.
  The directory is data; every disk call takes its outcome as a parameter, so each method is proved
  for every pattern of these outcomes, and ghost fields collect the directory after every single disk
  step: an invariant says that the last one collected is the directory as it is. From each of these
  steps, whatever a power loss leaves, recovery restores a prefix of what was written that contains
  everything acknowledged, unless it refuses the directory. It does that only at steps at which the
  log has left files behind that it could neither complete nor remove, and exactly if they are not
  tolerated: the directory is then the segments and these files in the order of their names, and it
  is accepted only with one such file, after the last segment (`Leftovers.Tolerates`).
- **Group commit.** Many sessions, one committer, one log: in every interleaving every request gets
  one reply, in order, and a command's reply reaches its socket only when the records it depends on
  are on stable storage.
- **Inspection and repair.** A second reading of the log that agrees with recovery on every
  directory, and repair plans that leave a log the server opens, with the exact exception.
- **Indexes and queries.** `FieldIndex`, `IndexSet`, the planner and the collection: every plan gives
  the naive result in insertion order or in the one stable order of the sort keys; batches succeed
  exactly when the final documents satisfy every unique index; indexes are always what a rebuild would
  give, with the exact calls after which they are not.
- **Codecs and batching.** The canonical document codec, transaction records, snapshot files, the
  incremental frame decoder, cursors, and updates whose instructions can run in any order.

Each class of the source that changes its fields is a Dafny class with the same fields; loops are
loops, proved against specification functions; pure code is functions and lemmas. Strings are
their UTF-8 bytes, a document is a map from keys to values, and integers are unbounded with the
widths of the formats written out.

Functions the proofs do not depend on are constants without a definition, so every theorem holds for
any choice of them: one step of CRC-32 (`CRC_STEP`; checksums fold it, and no theorem claims that
damage is detected), which bytes are UTF-8 (`UTF8`), which index specifications are normal
(`NORMALIZED`), which number a bit pattern stands for (`FLOAT`, `NUMERIC`), UTF-16 units (`UNITS`),
sums that are not
exact integers (`SUM`), operator spellings (`OPERATORS`), and which payloads a message
kind accepts (`ACCEPTS`).

## Where the code does not keep a promise

Each of these is a lemma with the input that shows it, next to the exact condition under which the
code does keep it:

- A string, key or name that starts with U+FEFF does not survive, because `TextDecoder` drops the
  mark: `DocumentRoundTrip`, `TransactionRoundTrip` and `SnapshotRoundTrip` are equivalences. An
  operation with a marked name is replayed with another effect than it had (`MarkedNamesDiverge`).
- Two keys that differ only in the mark make a document that can be stored but never read
  (`CollidingKeysUnreadable`); `ReadableExactly` says which documents can. In an indexed collection
  `insertMany` throws at such a document without undoing what it has tracked, so indexes and documents
  disagree exactly if it accepted one before (`InsertMany`, and `Strand` with the batch). Without an
  index such documents are stored, by inserts and by `updateMany`, and then cannot be read
  (`InsertMany`, `Update`, and `MarksWearOff` with the document and the update). `Run` ends at
  exactly these calls; without an index the calls after them still keep indexes and documents in
  agreement, but none ever removes the unreadable document, and every call that reads all documents
  or builds an index fails (`RunHarmed`, `RunOn`).
- Opening a log after a killed process does not flush what it found. A record that was written but
  never acknowledged is then part of the log and handed to readers while nothing is reported as
  unsynced, and a power loss can still take it (`ReopenedUnflushed`). `Open` says exactly for which
  files this happens. What was acknowledged before was flushed.
- A segment file that could be neither completed nor removed is not always tolerated. The next start
  refuses the log as soon as anything is named after that file, a segment or another file left behind.
  While the file comes last, it refuses the log if a record has been appended since, unless the
  header in the file is incomplete, and if a power loss took part of a record
  (`ExactlyTolerated`, `CrashedDirectory`, `LeftoverInLog`).
- A checkpoint inside `createIndex` may hold an index whose record then never reaches the log; a later
  drop of that index cannot be replayed from an older snapshot (`CreateIndex`, `StrandedIndex`).
- Cutting a damaged segment that is also disconnected from the one before leaves the log damaged
  (`RepairSound`, `StuckExample`); the quarantine marked lossless loses records when a segment
  it moves reports a last LSN above the snapshot, which takes segments that overlap
  (`PrefixIsLossless`, `DisjointIsLossless`, `OverlapLoses`).
- A message that arrives in the same chunk as a refused one is dropped, one that arrives in an
  earlier chunk is not (`PushAll`, `RefusalDropsMessages`).

## Model

| member | source | states |
|---|---|---|
| `Bytes.CrcChain` | packages/storage/src/engine/checkpoint.ts:138-149 | the checksum continued chunk by chunk is the checksum of the whole |
| `Text.PlainExact` | packages/protocol/src/document-decoder.ts:181-192 | decoding a string gives it back exactly when it is UTF-8 and has no leading U+FEFF |
| `WalFormat.HeaderRoundTrip` | packages/storage/src/wal/format.ts:26-66 | a segment header decodes to its first LSN, whatever follows |
| `WalFormat.ScanRecord` | packages/storage/src/wal/format.ts:93-168 | a record is only found with the expected LSN and inside the bytes; the end is reported exactly at the end |
| `WalFormat.ScanWhole` | packages/storage/src/wal/format.ts:68-168 | a whole encoded record is read back, whatever surrounds it |
| `WalFormat.ScanCut` | packages/storage/src/wal/format.ts:68-168 | a record cut anywhere reads as torn, never as damage |
| `WalFormat.ScanBody` | packages/storage/src/wal/format.ts:93-168 | scanning encoded records returns exactly them and goes on after them |
| `WalFormat.TornTailExact` | packages/storage/src/wal/write-ahead-log.ts:606-635 | every prefix of a segment scans to exactly the whole records in it and is never corrupt; clean exactly at a record boundary |
| `WalFormat.ZeroTailExact` | packages/storage/src/wal/format.ts:114-119 | a segment followed by any number of zero bytes scans to exactly its records, torn or clean |
| `WalFormat.ScanIsEncoding` | packages/storage/src/wal/format.ts:93-168 | whatever a scan accepts is byte for byte the encoding of the records it returns |
| `WalRecovery.ScanRecords` | packages/storage/src/wal/write-ahead-log.ts:606-635 | the record loop computes the scan of the segment |
| `WalRecovery.RecoverSegments` | packages/storage/src/wal/write-ahead-log.ts:555-638 | opens exactly the intact directories, reports their names, valid end and last LSN, and otherwise the first bad segment |
| `WalRecovery.SoundRecovers` | packages/storage/src/wal/write-ahead-log.ts:555-638 | a directory written in order recovers to all earlier segments and the whole records of the last |
| `WalRecovery.PowerLossRecovers` | packages/storage/src/wal/write-ahead-log.ts:555-638 | after any power loss a settled directory is intact and holds a prefix of the records that reaches the durable LSN |
| `Leftovers.LeftoverSegment` | packages/storage/src/wal/write-ahead-log.ts:668-676 | a log with one leftover after its last segment is readable iff that segment ends with a whole record and the leftover is incomplete or next in line |
| `Leftovers.SegmentFollows` | packages/storage/src/wal/write-ahead-log.ts:555-604 | a leftover that a segment follows in the order of names makes recovery refuse |
| `Leftovers.TwoFollow` | packages/storage/src/wal/write-ahead-log.ts:555-604 | so do two leftovers after the last segment |
| `Leftovers.ExactlyTolerated` | packages/storage/src/wal/write-ahead-log.ts:555-638 | with any number of leftovers anywhere: which directories recovery accepts |
| `Leftovers.ToleratedContents` | packages/storage/src/wal/write-ahead-log.ts:555-638 | an accepted directory recovers to the records of its segments |
| `Leftovers.LossSplits` | packages/storage/src/wal/write-ahead-log.ts:561-563 | a power loss of the whole directory is one of the segments and one of the leftovers |
| `Leftovers.CrashedDirectory` | packages/storage/src/wal/write-ahead-log.ts:555-638 | after any power loss, with whatever was left behind: exactly when recovery accepts the directory, and then it finds a prefix that reaches the durable LSN |
| `WriteAheadLog.ScanAfter` | packages/storage/src/wal/write-ahead-log.ts:365-389 | the record loop of `records` yields exactly the scanned records above the LSN |
| `WriteAheadLog.ReadSegments` | packages/storage/src/wal/write-ahead-log.ts:346-391 | with segment skipping, exactly the whole records above the LSN, in order |
| `WriteAheadLog.AfterIsSuffix` | packages/storage/src/wal/write-ahead-log.ts:379-385 | on consecutive LSNs the records above one are a suffix |
| `WriteAheadLog.WriteAheadLog.WriteTail` | packages/storage/src/wal/write-ahead-log.ts:504-522 | a failed write is cut off or breaks the log; every directory on the way keeps what was durable |
| `WriteAheadLog.WriteAheadLog.FsyncTail` | packages/storage/src/wal/write-ahead-log.ts:315-323 | flushing makes the whole active segment durable or breaks the log |
| `WriteAheadLog.WriteAheadLog.Flush` | packages/storage/src/wal/write-ahead-log.ts:275-302 | pending records are written or stay queued; nothing else changes |
| `WriteAheadLog.WriteAheadLog.Commit` | packages/storage/src/wal/write-ahead-log.ts:308-324 | success means every record appended so far is durable; it succeeds unless the flush fails or the log is broken |
| `WriteAheadLog.WriteAheadLog.Sync` | packages/storage/src/wal/write-ahead-log.ts:326-337 | success means every record is durable, whatever the write concern; on a log in use it succeeds if the disk does |
| `WriteAheadLog.WriteAheadLog.CreateSegment` | packages/storage/src/wal/write-ahead-log.ts:648-680 | created iff its name is free and the disk allows it, and then it follows on from the last; a failure leaves the log as it was, with at most a file named after the next LSN left beside it |
| `WriteAheadLog.WriteAheadLog.Rotate` | packages/storage/src/wal/write-ahead-log.ts:464-497 | rotation keeps the records and everything durable at every step; only a failed one can leave a file behind |
| `WriteAheadLog.WriteAheadLog.MakeRoom` | packages/storage/src/wal/write-ahead-log.ts:211-218 | a record that does not fit the active segment opens the next one |
| `WriteAheadLog.WriteAheadLog.Enqueue` | packages/storage/src/wal/write-ahead-log.ts:219-245 | the queue gains the record, or a full disk leaves queue, LSN and records unchanged |
| `WriteAheadLog.WriteAheadLog.WriteRecord` | packages/storage/src/wal/write-ahead-log.ts:247-273 | the record is in the log, and durable when appends are flushed; failures are atomic unless the log breaks |
| `WriteAheadLog.WriteAheadLog.Append` | packages/storage/src/wal/write-ahead-log.ts:206-273 | in all write concerns: on success the next record, and it succeeds if the disk does and no file is in the way; a segment outgrows its limit only for a single record; a failure that leaves the log usable leaves its records unchanged, and only then can a file be left behind; every step passed is recoverable |
| `WriteAheadLog.WriteAheadLog.TruncateThrough` | packages/storage/src/wal/write-ahead-log.ts:397-427 | removes whole old segments only, never past the LSN; every step leaves a suffix of the log; a directory flush that fails is reported with the segments gone |
| `WriteAheadLog.WriteAheadLog.ReadRecords` | packages/storage/src/wal/write-ahead-log.ts:339-391 | every record above the LSN; on a failed log the wholly written ones |
| `WriteAheadLog.WriteAheadLog.Close` | packages/storage/src/wal/write-ahead-log.ts:429-462 | flushes and commits unless the log is broken, then refuses everything |
| `WriteAheadLog.IntactIsSound` | packages/storage/src/wal/write-ahead-log.ts:133-147 | cutting a torn tail off any intact directory leaves one that holds the same records and can be appended to |
| `WriteAheadLog.CutIsStable` | packages/storage/src/wal/write-ahead-log.ts:149-174 | opening leaves everything stable iff all segments were, or the last had a tail to cut |
| `WriteAheadLog.Open` | packages/storage/src/wal/write-ahead-log.ts:98-174 | refuses exactly what recovery refuses; in flushed mode the log keeps its promises iff every segment found was stable, or is the last one and had a torn tail to cut; collects the directories on the way |
| `WriteAheadLog.OpeningIntact` | packages/storage/src/wal/write-ahead-log.ts:133-162 | wherever opening stops, the next start finds the same records |
| `WriteAheadLog.OpeningCrash` | packages/storage/src/wal/write-ahead-log.ts:133-162 | so it does after a power loss while opening what an earlier one left |
| `WriteAheadLog.ReopenedUnflushed` | packages/storage/src/wal/write-ahead-log.ts:149-174 | a log opened after a killed process holds a record, with nothing unsynced, that a power loss takes |
| `WriteAheadLog.LeftoverInLog` | packages/storage/src/wal/write-ahead-log.ts:668-676 | seen from a running log with any leftovers: its directory is readable iff there is none, or one that comes last and is incomplete or has no record after it |
| `Operations.TransactionRoundTrip` | packages/storage/src/engine/operations.ts:54-215 | a transaction decodes to its operations iff no name starts with U+FEFF |
| `Operations.EncodeTransaction` | packages/storage/src/engine/operations.ts:54-111 | the encoding loop, failing exactly when an operation does not fit |
| `Operations.DecodeTransaction` | packages/storage/src/engine/operations.ts:113-179 | the decoding loop, on any bytes |
| `Operations.SpecRead` | packages/storage/src/engine/operations.ts:181-215 | an index definition is read back exactly, or never as itself |
| `Replaying.ReplayAppend` | packages/storage/src/engine/storage-engine.ts:892-914 | replaying a log in two parts is replaying it whole; a record that cannot be applied stops it |
| `Replaying.CreateIndexTwice` | packages/storage/src/engine/storage-engine.ts:980-995 | creating an index that is already there changes nothing |
| `Replaying.DropIndexExactly` | packages/storage/src/engine/storage-engine.ts:1000-1012 | replaying a drop fails iff no definition has the name, and otherwise takes away that one and keeps every other, in order, with all documents |
| `Replaying.CreateIndexExactly` | packages/storage/src/engine/storage-engine.ts:980-995 | replaying a creation adds the definition last if its name is free, changes nothing if it is there, and fails if another has the name |
| `Replaying.CreateCollectionExactly` | packages/storage/src/engine/storage-engine.ts:953-969 | replaying the creation of a collection never touches one that is there |
| `Replaying.ReplayKeepsNames` | packages/storage/src/engine/storage-engine.ts:892-914 | no log leads to a collection with two definitions of one name |
| `Replaying.MarkedNamesDiverge` | packages/storage/src/engine/operations.ts:54-215 | an operation that changes something is replayed with the same effect iff no name in it starts with U+FEFF |
| `EngineRecovery.FaithfulReplays` | packages/storage/src/engine/storage-engine.ts:874-914 | replaying from a snapshot gives what replaying from the beginning gives |
| `EngineRecovery.RecoverFromAnyBase` | packages/storage/src/engine/storage-engine.ts:849-914 | recovery from any snapshot the log reaches on both sides gives the state of the whole log |
| `EngineRecovery.CrashRefinement` | packages/storage/src/engine/storage-engine.ts:816-946 | after any power loss and any loss of snapshots below the retention, recovery accepts the directory iff its leftovers are tolerated, and then restores a prefix of the history with every acknowledged record |
| `EngineRecovery.AnyBaseEquivalent` | packages/storage/src/engine/storage-engine.ts:638-685 | which snapshots were lost changes no document and no order, and nothing at all unless the log ends at a snapshot taken early |
| `EngineRecovery.StrandedIndex` | packages/storage/src/in-memory-collection.ts:549-559 | after an early snapshot and a failed append, dropping the index replays from an older base iff it was there before |
| `StorageEngine.SizeIsEncodedSize` | packages/storage/src/engine/storage-engine.ts:892-895 | the size counted for records is the bytes they take in the log |
| `StorageEngine.StorageEngine.BeginCheckpoint` | packages/storage/src/engine/storage-engine.ts:608-636 | what a begun checkpoint will write is durable, faithful and newer than every snapshot |
| `StorageEngine.StorageEngine.WriteSnapshot` | packages/storage/src/engine/checkpoint.ts:209-229 | a snapshot appears whole or not at all, replacing one of the same LSN |
| `StorageEngine.StorageEngine.Prune` | packages/storage/src/engine/storage-engine.ts:648-659 | only snapshots beyond the retained ones go, one safe step at a time |
| `StorageEngine.StorageEngine.TruncateLog` | packages/storage/src/engine/storage-engine.ts:663-665 | the log keeps everything above the oldest retained snapshot |
| `StorageEngine.StorageEngine.FinishCheckpoint` | packages/storage/src/engine/storage-engine.ts:638-685 | the byte account moves on exactly, never clamped, and the next checkpoint is due after another threshold; it succeeds if every unlink does |
| `StorageEngine.StorageEngine.Checkpoint` | packages/storage/src/engine/storage-engine.ts:499-524 | success leaves the newest snapshot at the end of the log, holding the databases, and nothing to account for; it succeeds if every disk call does |
| `StorageEngine.StorageEngine.CheckpointAsync` | packages/storage/src/engine/storage-engine.ts:539-601 | starts a background checkpoint unless one runs |
| `StorageEngine.StorageEngine.StepCheckpoint` | packages/storage/src/engine/storage-engine.ts:570-596 | a background checkpoint finishes with the bytes it began with, or is dropped when cancelled |
| `StorageEngine.StorageEngine.RunDueCheckpoint` | packages/storage/src/engine/storage-engine.ts:787-814 | a due checkpoint runs first and may fail without harm; after a failure the next is due a threshold later |
| `StorageEngine.StorageEngine.Write` | packages/storage/src/engine/storage-engine.ts:759-781 | memory follows the log: on success both have the operations, on failure neither; acknowledged means durable; it succeeds if the log takes the record |
| `StorageEngine.StorageEngine.Store` | packages/storage/src/engine/storage-engine.ts:764-780 | the operations reach log, history and memory together, or none of them |
| `StorageEngine.StorageEngine.CreateIndex` | packages/storage/src/in-memory-collection.ts:545-562 | memory changes first; the engine stays consistent unless the append fails after a due checkpoint; a definition too long to encode leaves no trace |
| `StorageEngine.StorageEngine.CreateFitting` | packages/storage/src/in-memory-collection.ts:545-562 | the same for a definition that fits: done if the disk does as asked |
| `StorageEngine.StorageEngine.Journal` | packages/storage/src/engine/storage-engine.ts:764-780 | a record is in log and history, or a failure that leaves the log usable leaves no trace |
| `StorageEngine.StorageEngine.PlaceIndex` | packages/storage/src/in-memory-collection.ts:549-550 | memory is one definition ahead, and a snapshot taken now is still faithful |
| `StorageEngine.StorageEngine.Commit` | packages/storage/src/engine/storage-engine.ts:391-397 | under group commit this acknowledges everything written |
| `StorageEngine.StorageEngine.Close` | packages/storage/src/engine/storage-engine.ts:446-489 | a last checkpoint if asked for; every step stays recoverable |
| `StorageEngine.StorageEngine.EveryCrashRecovers` | packages/storage/src/engine/storage-engine.ts:816-946 | at every step of a run: a crash leaves a directory that is accepted iff its leftovers are tolerated, and then recovers a prefix of the history with everything acknowledged |
| `EngineOpening.ApplyOperations` | packages/storage/src/engine/storage-engine.ts:911-913 | applies a record as a whole or fails; what each operation does is `DropIndexExactly`, `CreateIndexExactly` and `EditsReplay` |
| `EngineOpening.ReplayRecords` | packages/storage/src/engine/storage-engine.ts:892-914 | the replay loop and the bytes it counts |
| `EngineOpening.FindBase` | packages/storage/src/engine/storage-engine.ts:825-847 | the newest snapshot that can be read |
| `EngineOpening.Recover` | packages/storage/src/engine/storage-engine.ts:816-946 | fails exactly on the two LSN checks or an unusable record, and otherwise restores base and log, with each operation doing what it did when it was journaled |
| `EngineOpening.StartEngine` | packages/storage/src/engine/storage-engine.ts:333-346 | the recovered state and accounts of a new engine |
| `EngineOpening.OpenEngine` | packages/storage/src/engine/storage-engine.ts:249-357 | opening after a crash at any safe step, with any retention and any snapshots damaged but one of those kept, succeeds iff the leftovers are tolerated and the disk calls succeed, and starts a valid engine again, unless the newest snapshot runs ahead of the log |
| `EngineOpening.CrashInOpening` | packages/storage/src/engine/storage-engine.ts:816-946 | a power loss during that opening, at any of its steps, restores the same prefix |
| `EngineRun.Perform` | packages/storage/src/engine/storage-engine.ts:499-814 | what a call says it did is what happened to databases and history; an acceptable call is done if the disk does as asked; what is done is acknowledged |
| `EngineRun.Run` | packages/storage/src/engine/storage-engine.ts:499-814 | any sequence of writes, index creations, commits and checkpoints keeps every directory recoverable and the byte account exact; the databases are those of the calls that were done; on a log with nothing left behind, if the disk does as asked, every acceptable call is done |
| `EngineRun.OneMore` | packages/storage/src/engine/storage-engine.ts:759-781 | the states of a run follow one another call by call |
| `GroupCommit.FirstExchange` | packages/server/src/session.ts:336-382 | a client that greets and then pings is answered twice at once; anything else first gets one error and the connection ends |
| `GroupCommit.KeepsStep` | packages/server/src/session.ts:163-214 | whatever happens, the replies of a connection answer its requests in order, one each, all of them while it can receive |
| `GroupCommit.MovedGrows` | packages/server/src/session.ts:278-317 | what was sent stays sent, and a finished socket is given nothing |
| `GroupCommit.LivedStep` | packages/server/src/session.ts:163-214 | the same for all connections of a server, old and new |
| `GroupCommit.CommitPays` | packages/server/src/session.ts:278-308 | after a flush that succeeded every open connection has been sent all its replies |
| `GroupCommit.StaysClean` | packages/server/src/group-commit.ts:45-52 | a log with nothing left behind does not break in a step of which every disk call succeeds, and its flush succeeds |
| `GroupCommit.MoreWork` | packages/server/src/session.ts:219-220 | the log work of a command adds up call by call to the records that were done |
| `GroupCommit.ServerSession.Write` | packages/server/src/session.ts:310-317 | the reply is the last of those held while holding, and is otherwise sent unless the socket is finished |
| `GroupCommit.ServerSession.SendError` | packages/server/src/session.ts:416-452 | an error keeps its place; one that ends the connection does so at once or after what is held |
| `GroupCommit.ServerSession.HandleHandshake` | packages/server/src/session.ts:336-382 | a client of this version gets the handshake reply and a ready session; anything else gets its one error and ends the connection |
| `GroupCommit.ServerSession.HandleHere` | packages/server/src/session.ts:163-214 | every message but a command that runs gets exactly one reply of the right kind under its number, and the state moves on |
| `GroupCommit.ServerSession.ReplyToCommand` | packages/server/src/session.ts:219-262 | a command gets its result, or the error it ended with, also where the result is too large |
| `GroupCommit.ServerSession.Release` | packages/server/src/session.ts:278-308 | after a flush everything held is sent in order and a pending end carried out; after a failed one nothing is, ever |
| `GroupCommit.ServerSession.Close` | packages/server/src/session.ts:121-131 | ends a session that can still receive, and no other |
| `GroupCommit.Server.RunWork` | packages/server/src/session.ts:219-220 | one call on the log: done if the disk does as asked, and the records are those it had and the new one |
| `GroupCommit.Server.Dispatch` | packages/server/src/session.ts:219-220 | all the log work of a command: the records done are at the end of the log in order, nothing durable is lost, no sent reply becomes wrong |
| `GroupCommit.Server.HoldUntilDurable` | packages/server/src/session.ts:269-276 | holds exactly if it held already or the log has something unsynced |
| `GroupCommit.Server.HandleCommand` | packages/server/src/session.ts:216-263 | the work is done, and the one reply is stamped with the last LSN and held iff that is not durable or others are held |
| `GroupCommit.Server.HandleMessage` | packages/server/src/session.ts:133-214 | every message of a connection that can receive gets its one reply; on any other connection nothing happens |
| `GroupCommit.Server.AcceptConnection` | packages/server/src/server.ts:263-276 | one new session, which awaits its handshake and has sent and held nothing |
| `GroupCommit.Server.SocketEvent` | packages/server/src/session.ts:89-115 | exactly what an end, a failure or a close of the socket changes |
| `GroupCommit.Server.ReleaseAll` | packages/server/src/group-commit.ts:54-56 | every session that held is released, each once, and no other changes |
| `GroupCommit.Server.Commit` | packages/server/src/group-commit.ts:39-57 | one flush for everyone waiting: success sends what they hold, failure drops exactly their connections; it succeeds if the disk does |
| `GroupCommit.Server.CloseEngine` | packages/server/src/server.ts:278-310 | the engine closes only when every socket has closed |
| `GroupCommit.Server.Perform` | packages/server/src/session.ts:89-317 | what one event does to the log and to every connection, also to those it is not about |
| `GroupCommit.Server.Run` | packages/server/src/session.ts:89-317 | in every interleaving each command reply sent is durable, each connection is sent a prefix of its replies, these answer its requests in order and one each, finished sockets get nothing more, and a final flush that the disk grants leaves no open connection without a reply |
| `Inspect.AnalyzeSegment` | packages/storage/src/inspect/inspect.ts:341-422 | status, LSNs, records and valid bytes of any segment |
| `Inspect.InspectSegments` | packages/storage/src/inspect/inspect.ts:319-336 | reports every segment and every gap |
| `Inspect.SummarizeLog` | packages/storage/src/inspect/inspect.ts:424-487 | damage exactly where recovery refuses, in the same segment, at the end of what can be read; otherwise the same LSNs; the count is that of the readable records |
| `Inspect.InspectLog` | packages/storage/src/inspect/inspect.ts:301-339 | the inspector agrees with recovery on every directory: damage, LSNs, offset and count |
| `Inspect.JudgeAgrees` | packages/storage/src/inspect/inspect.ts:510-565 | the verdict's problems are exactly the checks recovery makes, and its counts are what recovery finds and what would be replayed |
| `Repair.FirstCleanIndex` | packages/storage/src/inspect/repair.ts:348-368 | the longest suffix of segments that is usable and connected |
| `Repair.PrefixRepairs` | packages/storage/src/inspect/repair.ts:315-335 | what is left after the quarantine opens and starts at the kept segment |
| `Repair.PlanTruncation` | packages/storage/src/inspect/repair.ts:370-467 | always blocks, drops everything or cuts |
| `Repair.PrefixIsLossless` | packages/storage/src/inspect/repair.ts:321-326 | the quarantine removes no intact record above the snapshot iff every segment moved that has records reports a last LSN at or below it |
| `Repair.DisjointIsLossless` | packages/storage/src/inspect/repair.ts:321-326 | it is lossless when no two segments overlap |
| `Repair.OverlapLoses` | packages/storage/src/inspect/repair.ts:321-326 | two overlapping segments for which it takes records above the snapshot |
| `Repair.DropAllRepairs` | packages/storage/src/inspect/repair.ts:414-443 | dropping everything leaves a log that ends at the base |
| `Repair.TruncateWithin` | packages/storage/src/inspect/repair.ts:388-396 | cutting inside the first bad segment mends the log iff it follows on from the one before |
| `Repair.RepairSound` | packages/storage/src/inspect/repair.ts:292-467 | a plan that runs leaves an openable log that the base reaches, iff truncation did not keep a disconnected damaged segment |
| `Repair.StuckExample` | packages/storage/src/inspect/repair.ts:381-400 | a log for which it does keep one |
| `Repair.RepairLog` | packages/storage/src/inspect/repair.ts:104-175 | inspect, plan and run what is allowed: the same, for every directory; nothing changes without leave to lose data, and the quarantine is lossless iff the report says so |
| `Values.CompareBytes` | packages/protocol/src/document-encoder.ts:226-238 | the sign of the byte order |
| `Values.BeforeTransitive` | packages/protocol/src/document-encoder.ts:226-238 | the byte order is transitive |
| `DocumentCodec.ValueReads` | packages/protocol/src/document-decoder.ts:58-198 | decoding an encoding in front of any suffix gives the value and the suffix iff its strings survive |
| `DocumentCodec.DocumentRoundTrip` | packages/protocol/src/document-decoder.ts:30-56 | decode inverts encode iff no string or key starts with U+FEFF |
| `DocumentCodec.EncodingIsInjective` | packages/protocol/src/document-encoder.ts:32-246 | equal bytes iff equal values, whatever the key order; no encoding is a prefix of another |
| `DocumentCodec.CanonicalKeyExact` | packages/storage/src/indexing/values.ts:13-23 | canonical keys are equal exactly for equal values |
| `Legibility.LegibleExactly` | packages/protocol/src/document-decoder.ts:154-198 | the decoder reads an encoding iff every string decodes and no two keys of a document decode alike |
| `Legibility.ReadableExactly` | packages/protocol/src/document-decoder.ts:154-198 | what the encoder writes can be read back iff no two keys of a document collide |
| `Legibility.CollidingKeysUnreadable` | packages/protocol/src/document-decoder.ts:154-198 | a document with keys that decode alike can be written but not read |
| `Legibility.FieldsSurvive` | packages/protocol/src/document-decoder.ts:154-198 | what is read back has exactly the decoded keys, with the values that have no marks |
| `DocumentCodec.ReadValue` | packages/protocol/src/document-decoder.ts:58-114 | reading consumes bytes, so it terminates on every input |
| `DocumentWriter.BinaryWriter.EnsureCapacity` | packages/protocol/src/binary-writer.ts:64-87 | the buffer grows without losing bytes, up to the payload limit |
| `DocumentWriter.BinaryWriter.WriteBytes` | packages/protocol/src/binary-writer.ts:40-44 | appends exactly the bytes, or nothing past the limit |
| `DocumentWriter.WriteValue` | packages/protocol/src/document-encoder.ts:32-102 | writes the canonical encoding exactly when the value can be encoded and fits |
| `DocumentWriter.WriteLeaf` | packages/protocol/src/document-encoder.ts:45-86 | the canonical encoding of everything but arrays and documents |
| `DocumentWriter.WriteArray` | packages/protocol/src/document-encoder.ts:158-178 | the same for arrays |
| `DocumentWriter.WriteDocument` | packages/protocol/src/document-encoder.ts:180-213 | the same for documents, in the order of the keys' bytes |
| `DocumentWriter.EncodeDocumentValue` | packages/protocol/src/document-encoder.ts:23-30 | succeeds exactly on encodable values |
| `DocumentReader.BinaryReader.ReadBytes` | packages/protocol/src/binary-reader.ts:57-64 | takes bytes or fails, moving past what it took |
| `DocumentReader.ReadDocumentValue` | packages/protocol/src/document-decoder.ts:58-114 | the recursive reader does what the specification of reading says |
| `DocumentReader.ReadLeafValue` | packages/protocol/src/document-decoder.ts:78-100 | reads everything but arrays and documents |
| `DocumentReader.ReadText` | packages/protocol/src/document-decoder.ts:181-198 | reads a string or fails |
| `DocumentReader.ReadArray` | packages/protocol/src/document-decoder.ts:143-152 | the same for arrays |
| `DocumentReader.ReadDocument` | packages/protocol/src/document-decoder.ts:154-179 | the same for documents, refusing duplicate keys |
| `DocumentReader.DecodeDocumentValue` | packages/protocol/src/document-decoder.ts:30-56 | the same for a whole payload |
| `SnapshotFile.SnapshotRoundTrip` | packages/storage/src/engine/checkpoint.ts:122-330 | a snapshot reads back with the same documents in order and the same indexes iff no name starts with U+FEFF |
| `SnapshotFile.SnapshotWriter.Flush` | packages/storage/src/engine/checkpoint.ts:138-149 | flushing anywhere keeps contents and running checksum |
| `SnapshotFile.SnapshotWriter.AddSaved` | packages/storage/src/engine/checkpoint.ts:165-197 | writes a collection, pausing wherever enough is pending |
| `SnapshotFile.SnapshotWriter.AddEntry` | packages/storage/src/engine/checkpoint.ts:183-196 | writes a document, then flushes if enough is pending |
| `SnapshotFile.LoadSpecs` | packages/storage/src/engine/checkpoint.ts:298-310 | reads the index definitions |
| `SnapshotFile.LoadDocuments` | packages/storage/src/engine/checkpoint.ts:312-320 | reads the documents in order |
| `SnapshotFile.LoadSaved` | packages/storage/src/engine/checkpoint.ts:293-323 | reads one collection, of either version |
| `SnapshotFile.WriteSnapshot` | packages/storage/src/engine/checkpoint.ts:122-230 | the file is the same wherever the writer flushed |
| `SnapshotFile.LoadCheckpoint` | packages/storage/src/engine/checkpoint.ts:250-330 | the reading loops, on any bytes |
| `SnapshotFile.StateOfListing` | packages/storage/src/engine/storage-engine.ts:876-888 | the order of collections in a snapshot does not matter |
| `Filter.CompareLaws` | packages/storage/src/filter.ts:393-488 | comparison within a class is a total preorder |
| `Filter.ResolveField` | packages/storage/src/filter.ts:332-368 | the value at a path |
| `Filter.SplitJoins` | packages/storage/src/filter.ts:332-368 | splitting a path at its dots loses nothing |
| `Filter.ResolveStep` | packages/storage/src/filter.ts:332-368 | a path resolves segment by segment, through documents only |
| `Filter.CompareDirection` | packages/storage/src/filter.ts:393-488 | comparison is `<` on numbers, bigints and dates and the byte order on binaries and ids |
| `Filter.EqualityLaws` | packages/storage/src/filter.ts:163-261 | `$ne` is the complement of `$eq` and `$nin` of `$in`, also for a missing field; `$in` is `$eq` for some item, or an element of an array |
| `Filter.PresenceLaws` | packages/storage/src/filter.ts:263-289 | `$exists` asks whether the path resolves; `$not` is the complement of what it contains |
| `Filter.RangeLaws` | packages/storage/src/filter.ts:187-222 | `$gt` and `$lte`, `$gte` and `$lt` are complements on comparable values and all fail on others; a tie meets both inclusive ones |
| `Filter.IntegerRanges` | packages/storage/src/filter.ts:187-222 | on integers the range operators are those of integers |
| `Filter.ClausesConjoin` | packages/storage/src/filter.ts:49-67 | a document matches a filter iff it matches each clause |
| `Filter.ConnectiveLaws` | packages/storage/src/filter.ts:81-113 | `$and` is all, `$or` is any, `$nor` the complement of `$or`; of one clause the first two are that clause |
| `Filter.PathLaws` | packages/storage/src/filter.ts:69-79 | operators on a path all have to hold of the value there; any other value has to be it |
| `Filter.OperandLaws` | packages/storage/src/filter.ts:115-289 | which operators there are and which operands each takes |
| `Filter.OperatorsConjoin` | packages/storage/src/filter.ts:115-161 | operators are accepted one by one, and nothing else among them |
| `Filter.ValidityLaws` | packages/storage/src/filter.ts:31-113 | a filter compiles iff each clause does, and which clauses do |
| `FieldIndex.LowerBound` | packages/storage/src/indexing/field-index.ts:351-368 | splits sorted entries before a value |
| `FieldIndex.UpperBound` | packages/storage/src/indexing/field-index.ts:370-387 | splits sorted entries after a value |
| `FieldIndex.FindEntry` | packages/storage/src/indexing/field-index.ts:337-348 | finds a value among its ties |
| `FieldIndex.RangeEntries` | packages/storage/src/indexing/field-index.ts:174-194 | exactly the entries within the bounds |
| `FieldIndex.FieldIndex.Add` | packages/storage/src/indexing/field-index.ts:55-83 | value map, missing set, counters and order are again exactly those of the documents |
| `FieldIndex.FieldIndex.Remove` | packages/storage/src/indexing/field-index.ts:95-123 | the same after removing one |
| `FieldIndex.FieldIndex.InsertOrdered` | packages/storage/src/indexing/field-index.ts:296-322 | the ordered list of a class gains the value in place |
| `FieldIndex.FieldIndex.RemoveOrdered` | packages/storage/src/indexing/field-index.ts:324-349 | it loses exactly that value |
| `FieldIndex.FieldIndex.FinishBulk` | packages/storage/src/indexing/field-index.ts:85-93 | sorts what bulk loading left |
| `FieldIndex.SortEntries` | packages/storage/src/indexing/field-index.ts:86-90 | the same entries in order |
| `FieldIndex.FieldIndex.RemoveHolder` | packages/storage/src/indexing/field-index.ts:106-116 | an entry goes with its last document |
| `FieldIndex.FieldIndex.ConflictFor` | packages/storage/src/indexing/field-index.ts:129-164 | a conflict exactly when some document clashes |
| `FieldIndex.FieldIndex.LookupEqual` | packages/storage/src/indexing/field-index.ts:166-168 | exactly the documents with the value |
| `FieldIndex.FieldIndex.LookupRange` | packages/storage/src/indexing/field-index.ts:208-226 | exactly the documents with a value of the class within the bounds |
| `IndexSet.IndexSet.ApplyChanges` | packages/storage/src/indexing/index-set.ts:118-167 | succeeds iff the final documents satisfy every unique index; otherwise nothing changes |
| `IndexSet.IndexSet.Rollback` | packages/storage/src/indexing/index-set.ts:124-130 | undoing from the end takes every index back |
| `IndexSet.IndexSet.RemoveBefores` | packages/storage/src/indexing/index-set.ts:132-143 | all removals come first, each with its undo |
| `IndexSet.IndexSet.AddAfters` | packages/storage/src/indexing/index-set.ts:145-164 | additions go on exactly as long as every unique index allows |
| `IndexSet.IndexSet.RemoveFromAll` | packages/storage/src/indexing/index-set.ts:139-142 | one document leaves every index |
| `IndexSet.IndexSet.AddToAll` | packages/storage/src/indexing/index-set.ts:152-163 | one document enters every index, or it conflicts |
| `IndexSet.IndexSet.UndoChanges` | packages/storage/src/indexing/index-set.ts:166-166 | calling the returned function restores what was there |
| `IndexSet.IndexSet.Build` | packages/storage/src/indexing/index-set.ts:87-102 | a new index exactly when no documents clash |
| `IndexSet.IndexSet.Create` | packages/storage/src/indexing/index-set.ts:54-106 | created exactly when name and field are free, there is room and nothing clashes |
| `IndexSet.IndexSet.Drop` | packages/storage/src/indexing/index-set.ts:108-110 | removes exactly the named index |
| `IndexSet.IndexSet.Validate` | packages/storage/src/indexing/index-set.ts:170-267 | a valid set has nothing to report |
| `IndexSet.SameContents` | packages/storage/src/indexing/index-set.ts:170-243 | two valid indexes over the same documents hold the same |
| `Planner.Collect` | packages/storage/src/indexing/planner.ts:125-193 | collects exactly the constraints stated outside of `$or`, `$nor` and `$not`, and every matching document meets them |
| `Planner.CollectField` | packages/storage/src/indexing/planner.ts:145-191 | exactly the constraints of a field, met by every value that matches |
| `Planner.TighterExact` | packages/storage/src/indexing/planner.ts:331-349 | the tighter bound says what both say |
| `Planner.RangeStep` | packages/storage/src/indexing/planner.ts:281-309 | one more bound narrows the range to exactly the values that meet it too |
| `Planner.PlanRange` | packages/storage/src/indexing/planner.ts:276-329 | a range iff there are bounds and all of one class, and it holds exactly the values that meet them all |
| `Planner.PlanId` | packages/storage/src/indexing/planner.ts:195-231 | the shortest list of ids among those that equalities and memberships leave, and one iff there are any |
| `Planner.PlanIndex` | packages/storage/src/indexing/planner.ts:233-274 | every equality, membership without arrays, and range is offered, and finds what meets the constraints |
| `Planner.PlanQuery` | packages/storage/src/indexing/planner.ts:50-95 | ids first and as few as possible, a scan only if nothing was preferred to it; whichever plan is chosen leaves out no matching document |
| `Planner.CandidateKeys` | packages/storage/src/indexing/planner.ts:97-123 | exactly the keys the plan stands for, those of every matching document among them |
| `InMemoryCollection.SortBySequence` | packages/storage/src/in-memory-collection.ts:714-719 | sorting by sequence number gives insertion order |
| `InMemoryCollection.SetShape` | packages/storage/src/in-memory-collection.ts:759-766 | putting a document keeps its place if its id is there and goes last otherwise, and changes no other |
| `InMemoryCollection.DeleteShape` | packages/storage/src/in-memory-collection.ts:768-771 | deleting closes the gap and changes no other |
| `InMemoryCollection.EditsReplay` | packages/storage/src/in-memory-collection.ts:828-830 | replaying what was journaled does what the edits did |
| `InMemoryCollection.CreatedReplays` | packages/storage/src/in-memory-collection.ts:545-562 | replaying a journaled creation takes a recovered collection to the definitions the live one has |
| `InMemoryCollection.DroppedReplays` | packages/storage/src/in-memory-collection.ts:564-581 | so does replaying a journaled drop |
| `InMemoryCollection.ExistingReplays` | packages/storage/src/in-memory-collection.ts:545-562 | a creation that found the index there changes nothing on replay |
| `InMemoryCollection.CompiledDoes` | packages/storage/src/in-memory-collection.ts:882-893 | an accepted update fails iff an instruction throws or the result cannot be encoded, and otherwise each path has what its instruction asks and every other is as it was |
| `InMemoryCollection.MatchingExactly` | packages/storage/src/in-memory-collection.ts:868-874 | matching keeps exactly the documents that match, in order |
| `InMemoryCollection.SliceExactly` | packages/storage/src/in-memory-collection.ts:839-864 | skip and limit drop and keep exactly what they say |
| `InMemoryCollection.ChangedIsEdited` | packages/storage/src/in-memory-collection.ts:773-785 | what a batch does to the indexes is what it does to the documents |
| `InMemoryCollection.EditedSound` | packages/storage/src/in-memory-collection.ts:534-536 | after a batch of edits everything stored is readable iff everything put is |
| `InMemoryCollection.InMemoryCollection.Put` | packages/storage/src/in-memory-collection.ts:759-766 | keeps a key in its place or adds it last with the next number |
| `InMemoryCollection.InMemoryCollection.Remove` | packages/storage/src/in-memory-collection.ts:768-771 | removes a key and its number |
| `InMemoryCollection.InMemoryCollection.CommitEdits` | packages/storage/src/in-memory-collection.ts:404-421 | a write succeeds iff the result satisfies every unique index and the journal accepts it; otherwise nothing changes; the collection stays readable iff what is put is |
| `InMemoryCollection.InMemoryCollection.MakeChanges` | packages/storage/src/in-memory-collection.ts:405-411 | the index changes a batch of edits calls for |
| `InMemoryCollection.InMemoryCollection.ApplyEdits` | packages/storage/src/in-memory-collection.ts:534-536 | the documents and their numbers after the edits |
| `InMemoryCollection.InMemoryCollection.Candidates` | packages/storage/src/in-memory-collection.ts:702-728 | filtering the candidates of any plan is filtering all documents, in order |
| `InMemoryCollection.InMemoryCollection.Query` | packages/storage/src/in-memory-collection.ts:274-285 | any plan: the matches, sliced, in insertion order or in the stable order of the sort keys, in which the first key that tells two results apart rises or falls as asked; None exactly where filter or sort does not compile; what matches is stated by the laws of `Filter` |
| `InMemoryCollection.CarriedIsReadable` | packages/storage/src/in-memory-collection.ts:787-826 | what an insert stores is read back under its id iff no two of its keys collide |
| `InMemoryCollection.StreamMatches` | packages/storage/src/in-memory-collection.ts:839-864 | the streaming loop is the slice of the matches |
| `InMemoryCollection.InMemoryCollection.Locate` | packages/storage/src/in-memory-collection.ts:664-692 | the first match, also when looked up by id |
| `InMemoryCollection.CollectMatches` | packages/storage/src/in-memory-collection.ts:868-874 | the matches among the candidates |
| `InMemoryCollection.FirstMatch` | packages/storage/src/in-memory-collection.ts:683-689 | the first match among the candidates |
| `InMemoryCollection.InMemoryCollection.RemoveIndex` | packages/storage/src/in-memory-collection.ts:751-757 | the numbers go with the last index |
| `InMemoryCollection.InMemoryCollection.Delete` | packages/storage/src/in-memory-collection.ts:287-346 | deletes exactly the matching documents, or nothing |
| `InMemoryCollection.InMemoryCollection.Update` | packages/storage/src/in-memory-collection.ts:427-539 | with the instructions of an accepted update: exactly when it succeeds, what it changes (`CompiledDoes`), and exactly when it stores a document that cannot be read |
| `InMemoryCollection.UpdatesPrepared` | packages/storage/src/in-memory-collection.ts:882-893 | the edits of an accepted update keep every id, and can be read under it iff they can be read |
| `InMemoryCollection.UpdatesReadable` | packages/storage/src/in-memory-collection.ts:882-893 | the edits of an accepted update can be read under their ids iff they can be read |
| `InMemoryCollection.CompiledKeepsId` | packages/storage/src/in-memory-collection.ts:882-893 | an accepted update leaves a document under its id, readable iff its keys do not collide |
| `InMemoryCollection.PrepareUpdates` | packages/storage/src/in-memory-collection.ts:494-512 | decode, apply, encode and, where the source does, decode again: the edits, or None exactly where one throws |
| `InMemoryCollection.InMemoryCollection.Replace` | packages/storage/src/in-memory-collection.ts:348-425 | exactly when it succeeds, and the first match replaced in place under its id |
| `InMemoryCollection.InMemoryCollection.InsertMany` | packages/storage/src/in-memory-collection.ts:179-247 | inserts the longest acceptable prefix as one unit, or nothing; throws exactly at a document an indexed collection cannot decode, and then indexes agree with documents iff none was accepted before |
| `InMemoryCollection.InMemoryCollection.InsertDocuments` | packages/storage/src/in-memory-collection.ts:179-247 | the same from the documents given: exactly when it throws, and when indexes agree and everything stays readable afterwards |
| `InMemoryCollection.PrepareBatch` | packages/storage/src/in-memory-collection.ts:787-826 | encodes documents with their ids up to the first that has no proper id or cannot be encoded |
| `InMemoryCollection.InMemoryCollection.TrackBatch` | packages/storage/src/in-memory-collection.ts:192-210 | tracks documents up to the first that is refused or cannot be decoded, each undoable |
| `InMemoryCollection.InMemoryCollection.TrackInsert` | packages/storage/src/in-memory-collection.ts:773-781 | one document enters every index, conflicts, or cannot be decoded and throws |
| `InMemoryCollection.BatchSound` | packages/storage/src/in-memory-collection.ts:232-234 | after an insert everything stored is readable iff everything inserted is |
| `InMemoryCollection.InMemoryCollection.UndoInserts` | packages/storage/src/in-memory-collection.ts:222-224 | undoing in reverse restores every index |
| `InMemoryCollection.InMemoryCollection.StartSequence` | packages/storage/src/in-memory-collection.ts:739-746 | numbers the documents in order |
| `InMemoryCollection.InMemoryCollection.CreateIndex` | packages/storage/src/in-memory-collection.ts:545-562 | builds, journals, and takes back an index; replaying what it journaled gives the definitions it leaves |
| `InMemoryCollection.InMemoryCollection.DropIndex` | packages/storage/src/in-memory-collection.ts:564-581 | journals, then drops; replaying what it journaled gives the definitions it leaves |
| `InMemoryCollection.InMemoryCollection.ValidateIndexes` | packages/storage/src/in-memory-collection.ts:601-610 | nothing to report on a collection no call has harmed |
| `InMemoryCollection.Perform` | packages/storage/src/in-memory-collection.ts:158-610 | whether a call harms the collection, before and after |
| `InMemoryCollection.Run` | packages/storage/src/in-memory-collection.ts:158-610 | after any sequence of calls and journal failures indexes agree with documents and validation has nothing to report, up to exactly the first call that harms the collection |
| `HarmedCollection.LocateHarmed` | packages/storage/src/in-memory-collection.ts:664-692 | which document a write works on when one may be unreadable: the first match, or a throw at an unreadable document before it |
| `HarmedCollection.PerformHarmed` | packages/storage/src/in-memory-collection.ts:158-562 | one call on a collection with an unreadable document and no index: it stays, and a call that decodes every document fails and changes nothing |
| `HarmedCollection.RunHarmed` | packages/storage/src/in-memory-collection.ts:158-562 | after any such calls the collection is in agreement and still holds the unreadable document |
| `HarmedCollection.RunOn` | packages/storage/src/in-memory-collection.ts:158-610 | whole runs that go on after an unreadable document was stored without an index |
| `CollidingKeys.CollidingStored` | packages/storage/src/in-memory-collection.ts:787-826 | a document with keys that collide, encoded under its id, that cannot be read |
| `CollidingKeys.Strand` | packages/storage/src/in-memory-collection.ts:192-210 | a batch after which an empty collection refuses a document because its index holds one that is not stored |
| `CollidingKeys.MarksWearOff` | packages/storage/src/in-memory-collection.ts:497-507 | a readable document and an update of another field whose result cannot be read |
| `Sort.SortLaws` | packages/storage/src/sort.ts:181-250 | values of all kinds, present or missing, are totally preordered: by rank, numbers and bigints together with NaN first |
| `Sort.SortDirection` | packages/storage/src/sort.ts:181-250 | within one kind the order is `<` of numbers, bigints, dates and booleans and the byte or unit order; NaN comes before other numbers |
| `Sort.NumberDirection` | packages/storage/src/sort.ts:181-250 | numbers of whatever type compare as numbers, between the infinities |
| `Sort.KindOrder` | packages/storage/src/sort.ts:181-250 | a missing value, null, numbers, strings, binaries, ids, booleans, dates, arrays, documents, in this order |
| `Sort.CompareLaws` | packages/storage/src/sort.ts:39-52 | comparing documents by several keys in their directions is a total preorder |
| `Sort.StableOrderSorts` | packages/storage/src/sort.ts:39-54 | the stable order holds each document once, sorted, ties in their order |
| `Sort.StableSortIsUnique` | packages/storage/src/sort.ts:39-54 | an arrangement is sorted with ties in their order iff it is the stable order, whatever algorithm made it |
| `Sort.SortKeepsDocuments` | packages/storage/src/sort.ts:33-57 | sorting loses and repeats nothing and puts no document before a smaller one, in the directions of `SortedIsOrdered` |
| `Sort.FirstDifference` | packages/storage/src/sort.ts:39-52 | the first key that differs decides, in its direction |
| `Sort.SortedIsOrdered` | packages/storage/src/sort.ts:33-57 | of any two results, the first field that tells them apart rises in direction 1 and falls in direction -1 |
| `Sort.ParseSort` | packages/storage/src/sort.ts:69-117 | accepts exactly the valid sort specifications |
| `Update.Commute` | packages/storage/src/update.ts:219-316 | two instructions on paths that do not overlap can be applied in either order, failures included |
| `Update.OrderIndependent` | packages/storage/src/update.ts:37-45 | an accepted update gives the same document, or fails, in every order |
| `Update.IdUnchanged` | packages/storage/src/update.ts:176-181 | no accepted update changes `_id` |
| `Update.Overlaps` | packages/storage/src/update.ts:411-421 | exactly when one path is a prefix of the other |
| `Update.ParseOperator` | packages/storage/src/update.ts:133-142 | one instruction for each path, or refusal exactly when one is not allowed |
| `Update.Separate` | packages/storage/src/update.ts:145-156 | exactly when no two paths overlap |
| `Update.ParseUpdate` | packages/storage/src/update.ts:109-159 | accepts exactly the well formed updates without overlapping paths |
| `UpdateEffects.OperatorEffects` | packages/storage/src/update.ts:219-398 | what each operator leaves of the value it finds, and exactly when it throws |
| `UpdateEffects.WithoutPulls` | packages/storage/src/update.ts:261-274 | `$pull` keeps exactly the other items, in order |
| `UpdateEffects.AppliesAtPath` | packages/storage/src/update.ts:219-316 | an instruction is carried out iff nothing blocks a path it has to create and its operator does not throw, and then its path has what the operator leaves |
| `UpdateEffects.OthersStay` | packages/storage/src/update.ts:278-316 | every path that does not overlap resolves as before |
| `UpdateEffects.UpdateEffects` | packages/storage/src/update.ts:37-45 | an accepted update does at each path what is asked of the value before it, and leaves every other path alone |
| `UpdateEffects.UpdateSucceeds` | packages/storage/src/update.ts:37-45 | it fails iff one of its instructions fails on the document as it was |
| `MessageStream.HeaderReads` | packages/protocol/src/frame.ts:93-134 | a frame header is read back |
| `MessageStream.FrameReads` | packages/protocol/src/frame.ts:38-86 | a whole message is read back, whatever follows |
| `MessageStream.WholeIsEncoding` | packages/protocol/src/frame.ts:38-134 | whatever is accepted is byte for byte the encoding of a valid message |
| `MessageStream.RefusedIsNoMessage` | packages/protocol/src/frame.ts:93-134 | whatever is refused is the beginning of no valid message |
| `MessageStream.MessagesParse` | packages/protocol/src/message-stream-decoder.ts:26-52 | valid messages and part of another parse to exactly those and that |
| `MessageStream.ParseIsEncoding` | packages/protocol/src/message-stream-decoder.ts:26-52 | the messages of any stream are valid, and the stream is their encodings and an incomplete rest |
| `MessageStream.ParseAppend` | packages/protocol/src/message-stream-decoder.ts:26-52 | parsing on from what is left is parsing the whole |
| `MessageStream.MessageStreamDecoder.Append` | packages/protocol/src/message-stream-decoder.ts:60-73 | the buffer gains the chunk |
| `MessageStream.MessageStreamDecoder.Discard` | packages/protocol/src/message-stream-decoder.ts:46-49 | drops exactly what was consumed |
| `MessageStream.ScanMessages` | packages/protocol/src/message-stream-decoder.ts:28-44 | the loop computes the parse of the buffer |
| `MessageStream.MessageStreamDecoder.Push` | packages/protocol/src/message-stream-decoder.ts:14-53 | every message the buffer now completes, keeping the rest |
| `MessageStream.PushAll` | packages/protocol/src/message-stream-decoder.ts:14-53 | however a stream is cut, a push throws iff something in it is refused; otherwise the same messages and leftover |
| `MessageStream.RefusalDropsMessages` | packages/protocol/src/message-stream-decoder.ts:43-52 | two cuts of one stream, of which one yields the message before the refused one and the other drops it |
| `Cursor.EstimateEncodedSize` | packages/server/src/document-size.ts:18-62 | the encoded size and four bytes for each integer that takes four |
| `Cursor.FillBatch` | packages/server/src/cursor-manager.ts:208-236 | the batch loop loses and repeats nothing and ends exactly at the batch size, at the end, or where the next document would pass the byte limit |
| `Cursor.BatchIsDetermined` | packages/server/src/cursor-manager.ts:194-237 | sizes and documents determine where a batch ends |
| `Cursor.CursorState.TakeBatch` | packages/server/src/cursor-manager.ts:194-237 | a batch and what remains are what there was; it ends where `FillBatch` says; two or more documents stay within the limit |
| `Cursor.CursorManager.SweepExpired` | packages/server/src/cursor-manager.ts:131-143 | drops exactly the idle cursors |
| `Cursor.CursorManager.AllocateCursorId` | packages/server/src/cursor-manager.ts:155-180 | an unused id unless all are taken |
| `Cursor.CursorManager.Open` | packages/server/src/cursor-manager.ts:65-96 | the first batch, and a live cursor iff something remains; None only when every id is taken; other cursors stay or expire |
| `Cursor.CursorManager.Register` | packages/server/src/cursor-manager.ts:88-90 | a live cursor under an unused id |
| `Cursor.CursorManager.GetMore` | packages/server/src/cursor-manager.ts:98-129 | the next batch; the cursor goes with its last document; other cursors stay as they are or expire |
| `Cursor.ReadAll` | packages/server/src/cursor-manager.ts:65-129 | batches of any sizes concatenate to the result, and as many batches as documents reach its end whenever a cursor id is free |

## Left out

- Real file system calls, error numbers, timers and sockets: they are outcomes and events. Directory operations take effect in program order, so a file that was unlinked does not come back.
- The `memory` and `journaled` write concerns above the log: the engine is modelled with `flushed`, with and without group commit.
- The directory lock, backups, the manifest and format migrations, the driver, connection strings, command parameters, configuration, the command line tools and the website.
- Rebuilding indexes while recovering (`register`): recovery is proved for documents and index definitions; that a rebuild gives valid indexes is `IndexSet.Build`.
- Damage to snapshots is judged when a directory is opened: a damaged file stays in the list and is pruned like any other, and its contents count as lost from then on.
- Error messages, diagnostics, `checkpointFailure`, `explain` and cost estimates; plans are chosen by an arbitrary preference.
- Upserts and seeding a document from a filter: an upsert is an insert of one document.
- Cyclic documents and values JavaScript has but the database does not: a value is a finite tree. The check that a filter can be encoded.
- A cursor that reads a collection which changes while it is open: results are compared on one state.
- Update in place and aliasing in `applyInstruction`: instructions are functions on documents, and the key order of a document is not modelled. The sort of the JavaScript engine: any stable sort gives what `SortDocuments` gives.
- The order in which `collect`, `parseUpdate` and `estimateEncodedSize` visit keys: the loops take any key next.
- Payload contents of wire messages, beyond the role and version of a handshake; a command is the log work it does and how it ends.
- StorageEngine.StorageEngine.Write: takes operations that can be applied and whose names have no leading U+FEFF; with such a name memory and log part ways (`MarkedNamesDiverge`), and `EditsReplay` shows that document writes can be applied.
- InMemoryCollection.Run: ends at the first call that harms the collection. `HarmedCollection.RunOn` goes on without an index; what later calls do to an indexed collection whose indexes hold documents that are not stored is not modelled.
- Repair.RepairLog: the log steps of a repair; the manifest and lock steps, and a step that fails half way, are not modelled.
