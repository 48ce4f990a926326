# Verification of the file synchroniser

A Dafny model of the synchroniser's four parts and proofs about whole runs of them:

- **Remote sync protocol.** The client's byte stream (`SyncWire`, `SyncClient`, `Network`), the server that
  decodes it and builds files (`SyncServer`), one task on any tree (`SyncTask`), one session cut anywhere
  (`SyncSession`), an offset mismatch on any of its tasks (`SyncRestart`, `SyncMismatch`), sources that have
  changed since their offsets were recorded (`SyncChanged`), any number of interrupted and resumed sessions
  (`SyncRuns`) and what a session that is cut, loses bytes or fills the disk means for the next one (`SyncCut`).
  `SyncServerLoop` and `SyncClientLoop` hold the read, write and send loops as mutable classes, proved equal to
  the specification under every finite script of interrupted and short transfers. `Connection` joins both sides:
  the mode byte, what comes back, and what syncRemote returns.
- **Local engine.** Directory creation (`FileTree`), the progress file (`ProgressRecord`), the block-wise copy
  (`SequentialCopy`), the parallel chunked copy as a step machine (`ParallelCopy`) that comes to an end
  (`ParallelProgress`), syncFile and resumeSync, which settle conflicts (`Conflict`) and make, retry and clean
  up after those copies (`FileCopy`), tree walks (`Listing`), the planner and its tasks (`Planner`), a whole
  local sync (`LocalSync`) and its run on the pool (`SyncManager`).
- **Thread pool.** A step machine over queue, mutex, counter, running flag, condition variable and a program
  counter per thread (`ThreadPool`), and how its work gets done (`PoolProgress`).
- **RPC.** The Protocol Buffers wire format (`ProtoWire`), UTF-8 (`Utf8Text`), fields of later schema versions
  (`UnknownFields`), the eight messages (`ProtoMessages`, `ProtoRpc`), framing, dispatch and calls
  (`RpcService`), the server's loops (`RpcLoop`) and its two handlers (`RpcHandlers`).

`dafny verify dfyconfig.toml` checks everything.

## Conventions

- Widths are those of 64-bit little-endian Linux: int and mode_t 4 bytes, size_t and off_t 8.
- A path is a byte string and is never normalised: `a//b` and `a/b` are different names. A file system is a
  finite map from paths to files and directories.
- The network is a number of bytes it accepts, a number it delivers and an orderly or broken ending; the disk is
  a number of bytes it takes. Every theorem quantifies over all of them.
- The digest, modification times, permissions and the order in which readdir lists a directory are parameters.

## What was found

- The server can acknowledge a session and leave a wrong file. At the first offset mismatch of a session the
  restarted file takes whatever follows its offset on the wire; if the session is acknowledged, that file is
  right if and only if those bytes begin with its content (`SyncRestart.MismatchDecidesFile`). On the last task
  a mismatch is never acknowledged (`SyncRestart.LastMismatchNeverAcks`). Two ordinary visits, the first cut
  inside a block and the second resumed, reach an acknowledgement with a wrong file
  (`SyncMismatch.AckWithoutEquality`).
- An offset that matches in length is not enough either. If no file is restarted, an acknowledged file is right
  if and only if the server's copy began with the bytes before the offset (`SyncChanged.SessionByLength`). The
  recorded total is never compared with the source, so a source that has changed since its offset was recorded
  is resumed, acknowledged and wrong (`SyncChanged.ChangedSourceAcked`). With unchanged sources and no mismatch
  an acknowledgement is always right (`SyncSession.SessionOutcome`, `SyncRuns.RunsStaySound`).
- A client that is stopped inside a file records the whole blocks that the network took; the server keeps the
  bytes that arrived and fit, less the chunk it was reading if the connection broke. The next resumed session
  meets a mismatch unless the two agree, or no whole block is recorded, or the record cannot be loaded because
  the path is empty or holds white space: `SyncCut.NextOffsetMatchesIff` and `SyncCut.NextVisitCleanIff` say
  exactly when, for every number of bytes taken, delivered and written and both ways of ending. When all that
  was taken arrives, it depends on the block boundary alone (`SyncCut.DeliveredMatchesIffBlockBoundary`); when a
  byte is lost, a cut on a boundary mismatches too (`SyncMismatch.LostByteMismatches`).
- With the rename strategy the destination is moved away and its progress file stays, so the copy resumes behind
  nothing, reports success and leaves only the rest of the source (`FileCopy.PartedCorrupts`;
  `FileCopy.RenameAfterKill` gets there from a clean disk by one kill and one call). An undisturbed syncFile
  leaves exactly the source if and only if the strategy is overwrite, or there is no destination, or the
  strategy is rename and no record can be loaded (`FileCopy.UndisturbedExactIff`, and `Planner.TaskExactIff` for
  the planner's tasks).
- transferFile does not look at the write of its last, short block. If that write fails, the copy reports
  success, removes its record and leaves a truncated file (`SequentialCopy.CutTailReportsSuccess`);
  `FileCopy.SyncFileExactIff` gives the exact condition for a whole call of syncFile.
- A kill does harm when it leaves a record that is not the length of the destination: between a write and its
  save, after the last write and before the record is removed, in a resumed copy behind a renamed destination,
  or, when a resumed transfer has failed, before the first save of the fresh copy, which starts with the old
  record in place. `FileCopy.SyncKeepsSoundIff` has the exact condition over every byte at which a call can be
  killed and every write or save that can fail; `FileCopy.StaleRecordCorrupts` shows the last case reporting
  success on a wrong file.
- resumeSync does not clean up after a failed write. The next resumeSync or syncFile is exact if and only if
  nothing of the failed block was written (`FileCopy.FailedResumeThenResume`). A syncFile that fails while
  copying does clean up, so the call after it is always exact; one that the conflict step refuses changes
  nothing (`FileCopy.SyncAfterFailureExactIff`).
- A directory task whose destination is a regular file reports success, changes that file's mode and makes no
  directory (`Planner.DirectoryTaskTakesFile`). SyncManager::syncLocal returns true whenever it has waited for
  its tasks, whatever became of them (`SyncManager.FailureIsNotReported` is a tree whose only due task always
  fails).
- A file task whose destination is an empty directory removes it and fails, and succeeds when it is run again
  (`Planner.DirectoryAtDestination`).
- With a positive offset the parallel copy writes in place where transferFile appends. They agree if and only if
  the destination ends at the offset, or there is nothing to copy (`ParallelCopy.ParallelRefinesSequential`).
- `stop` sets the flag and notifies without the mutex and can miss a worker that is about to block.
  `ThreadPool.StopReachesAllIffNoneBlocking` gives the exact condition, `ThreadPool.StopCanMissAWorker` the run.
- A worker that stop finds blocked while there is work in the queue still takes the oldest task
  (`PoolProgress.WokenByStopTakesTask`).
- The number of chunks of a parallel copy is narrowed to int. The chunks cover the file if and only if the count
  fits (`ParallelCopy.ChunksCoverIffCountFits`). With one chunk more, and up to twice as many, it is negative:
  nothing is copied and success is reported (`ParallelProgress.HugeFileIsNotCopied`).
- Merging RPC requests or responses is not associative: a payload of another case in the middle clears what came
  before (`ProtoRpc.MergeAssociativeIff` and `ProtoRpc.ResponseMergeAssociativeIff` say exactly when,
  `ProtoRpc.MergeNotAssociative` gives three messages).
- Names that are not UTF-8 are sent but not read. A message parses back if and only if its strings are UTF-8
  (`ProtoRpc.RpcRequestRoundTrip`, `ProtoRpc.RpcResponseRoundTrip`): one such name in a directory makes its
  whole listing fail (`RpcHandlers.ReadableIffUtf8`), and a call with such a path ends the connection, so every
  later call on it fails too (`RpcService.CallsReturnHandlersAnswers` with `RpcService.HandlersResultAt`).
- handleRpcClient returns true exactly when it could not read even one request
  (`RpcLoop.Server.HandleRpcClient`).

## Model

| member | source | states |
|---|---|---|
| `SyncSession.SessionOutcome` | src/server/SyncServer.cpp:204-455 | For every task list, every source content and every cut of the session's stream, with each positive offset matching a server file that is a prefix of the source: ACK if and only if every byte arrives and fits on the disk; an ACK means the tasks were decoded exactly, no byte is left over and every file equals its source with its mode; in every case prefixes stay prefixes and no other path changes except for added parent directories. |
| `SyncSession.JobsAligned` | src/server/SyncServer.cpp:251-309 | The same for the task loop alone, followed by any further bytes: which bytes it consumes, when it succeeds and what it leaves. |
| `SyncSession.TaskAligned` | src/server/SyncServer.cpp:251-309 | One task of a cut stream: success exactly when its payload arrives and fits; then the file or directory is there and the rest of the stream is untouched; otherwise the file is still a prefix of its source. |
| `SyncSession.HandleModesOnStream` | src/server/SyncServer.cpp:208-249 | On the first k bytes of a session: closed when nothing arrives, NAK when the header is cut, otherwise exactly the client's tasks and exactly the remaining payload bytes reach the task loop. |
| `SyncServer.ModeByteDecides` | src/server/SyncServer.cpp:208-225 | For every world: the reply is Rpc if and only if bytes arrive and the first is 1, Ack or Nak if and only if it is 0, and Closed if and only if none arrive or the first is another; outside a synchronisation no task is processed, no file changes, and exactly the mode byte is consumed. |
| `Connection.FirstByteDecides` | src/server/SyncServer.cpp:208-317 | What handleClient returns and sends by the first byte: behind a 1 the frames with which the RPC server answers the remaining bytes and no change to the files; behind a 0 one of the two answers, and true exactly with the first; otherwise nothing. |
| `Connection.Serve` | src/server/SyncServer.cpp:204-317 | The same with the loops of both servers on one connection, under every script and every point at which the network fails. |
| `Connection.RpcConnection` | src/rpc/RpcClient.cpp:42-51 | The RPC client's mode byte and any calls behind it: the calls return the expected results, no file changes and no task is processed. |
| `SyncTask.FileTaskResult` | src/server/SyncServer.cpp:280-309 | One file task on any tree and any bytes: success if and only if its offset arrives, no directory above it is blocked by a regular file, the file has a place, and the wanted bytes arrive and fit; then the tree, the remaining bytes and the room are given exactly. |
| `SyncTask.DirTaskResult` | src/server/SyncServer.cpp:254-269 | One directory task on any tree: success if and only if its offset arrives and no level of it is blocked; then exactly the missing levels are added. |
| `SyncRestart.RestartNeedsWholeFile` | src/server/SyncServer.cpp:405-451 | After an offset mismatch the file is received from the beginning: success if and only if the whole file's length arrives, and the content is whatever arrives. |
| `SyncRestart.MismatchDecidesFile` | src/server/SyncServer.cpp:405-451 | For every session and every cut of it: if its first mismatch is on the i-th task and the server acknowledges, the earlier tasks are right, the restarted file holds exactly the bytes that followed its offset on the wire, and it equals its source if and only if those begin with its content. |
| `SyncRestart.TasksFrame` | src/server/SyncServer.cpp:251-309 | Whatever bytes arrive, the task loop changes only the files of its tasks and adds parent directories. |
| `SyncRestart.LastMismatchNeverAcks` | src/server/SyncServer.cpp:405-451 | A mismatch on the last task of a session aligned until then is never acknowledged, whatever part of the stream is delivered. |
| `SyncRestart.AckIffLastMatches` | src/server/SyncServer.cpp:405-451 | A fully delivered session aligned up to its last task is acknowledged if and only if the last offset equals the length of the server's file. |
| `SyncMismatch.AckWithoutEquality` | src/server/SyncServer.cpp:405-419 | For a whole family of files: from a server with correct files, one visit cut inside a block and one resumed visit, completely delivered, end with an ACK and a file that differs from its source. |
| `SyncMismatch.AwkwardFilesExist` | src/server/SyncServer.cpp:405-419 | Two concrete files of that family. |
| `SyncMismatch.LostByteMismatches` | src/server/SyncServer.cpp:405-419 | For the same family: a visit that is cut on a block boundary and loses one byte of what the network took makes the next resumed visit meet a mismatch. |
| `SyncRuns.VisitOutcome` | src/core/FileSync.cpp:271-305 | One session of client and server together without mismatch: every server file stays a prefix of its source; ACK if and only if all bytes are accepted, delivered and written; ACK implies equality. |
| `SyncRuns.RunsStaySound` | src/core/FileSync.cpp:271-305 | Over any number of cut and resumed sessions with unchanged sources and no mismatch: every server file is a prefix of its source, and every ACK is right. |
| `SyncChanged.SessionByLength` | src/core/FileSync.cpp:271-305 | Every cut of a session whose positive offsets match the server's files in length, whatever those hold: ACK if and only if every byte arrives and fits; after an ACK a file equals its source if and only if the server's file began with the source's bytes before the offset. |
| `SyncChanged.VisitByLength` | src/core/FileSync.cpp:271-305 | The same for one session of client and server together. |
| `SyncChanged.ChangedSourceAcked` | src/core/FileSync.cpp:271-305 | For every source of more than one block whose first block has changed since it was recorded: the resumed session is acknowledged and the file differs from its source. |
| `SyncCut.NextOffsetMatchesIff` | src/core/FileSync.cpp:271-305 | A session without mismatch, in which the client is stopped inside one of its files, whatever part of the bytes it sent is delivered and written and however the connection ends: the next resumed session meets a mismatch on that file if and only if its path is nonempty and free of white space, the recorded offset is positive, and the server's file does not have that length. The length is given in closed form from the bytes delivered, the ending and the room on the disk, the cases before the file's data included. |
| `SyncCut.NextVisitCleanIff` | src/core/FileSync.cpp:271-305 | The next resumed session over the same sources meets no mismatch on any file if and only if the client was not stopped, or it meets none on the file in which it was and the files after it would have met none before. |
| `SyncCut.ResumedVisitCleanIff` | src/core/FileSync.cpp:271-305 | If the stopped session was itself a resumed one, the next meets no mismatch on any file if and only if it meets none on the one in which the client was stopped. |
| `SyncCut.DeliveredMatchesIffBlockBoundary` | src/core/FileSync.cpp:271-305 | When all that was taken of the file arrives over an orderly close and fits: a mismatch if and only if the record can be loaded, covers a whole block, and the cut is not on a block boundary. |
| `SyncCut.LoopKeeps` | src/server/SyncServer.cpp:423-447 | The receive loop when fewer bytes arrive than it wants: the file has grown by those that arrived and fit, less the last incomplete buffer if the connection broke. |
| `SyncCut.WholeChunksIs` | src/server/SyncServer.cpp:423-435 | Of a broken connection the bytes beyond the last whole 64 KiB are lost. |
| `SyncCut.VisitLeaves` | src/server/SyncServer.cpp:251-309 | What the server holds after a session that stopped inside a file, for every delivery, ending and room: that file has the length in closed form and is a prefix of its source, the files after it are as they were, and nothing else changes but the files before it and added directories. |
| `SyncClient.RecordsAfterSession` | src/core/FileSync.cpp:626-663 | What the client has recorded after any session: without a stop, nothing for the files it sent; otherwise nothing for the earlier files, the offset and whole blocks for the one it stopped in, and the others as they were. |
| `SyncRuns.ArrivedIsPrefix` | src/core/FileSync.cpp:233-310 | What reaches the server is a prefix of the session's stream. |
| `SyncWire.TaskRoundTrip` | src/core/FileSync.cpp:240-261 | The server reads back exactly the task the client wrote and leaves the bytes after it. |
| `SyncWire.TasksRoundTrip` | src/server/SyncServer.cpp:326-380 | The same for any number of tasks. |
| `SyncWire.TasksDecodeIffComplete` | src/server/SyncServer.cpp:326-380 | Metadata decodes from a cut stream if and only if all of it is there, and then to what was sent. |
| `SyncWire.CStringFaithfulIffNulFree` | src/server/SyncServer.cpp:340-359 | Rebuilding a path from a C string gives the path if and only if it has no NUL byte. |
| `SyncServer.ReceiveLoopResult` | src/server/SyncServer.cpp:423-447 | The receive loop in closed form: success if and only if the missing bytes arrive and fit, and then exactly they are appended; otherwise a proper prefix of them is. |
| `SyncServerLoop.Server.RobustRead` | src/server/SyncServer.cpp:540-555 | Under every script of interruptions and short reads: all of count, or the rest at end of file, or an error. |
| `SyncServerLoop.Server.ReceiveBytes` | src/server/SyncServer.cpp:520-535 | All of size or nothing, under every script. |
| `SyncServerLoop.Server.WriteAll` | src/server/SyncServer.cpp:438-447 | Appends the chunk as far as the disk has room, under every script of interruptions and short writes. |
| `SyncServerLoop.Server.ReceiveFileData` | src/server/SyncServer.cpp:389-455 | The file, the unread bytes and the result are those of the specification. |
| `SyncServerLoop.Server.ReceiveTaskRecord` | src/server/SyncServer.cpp:333-375 | Reads one task record: its value and the remaining bytes are those of the decoder. |
| `SyncServerLoop.Server.ReceiveTaskMetadata` | src/server/SyncServer.cpp:326-380 | The list of tasks and the remaining bytes are those of the decoder, for every announced count. |
| `SyncServerLoop.Server.ReceiveTasks` | src/server/SyncServer.cpp:251-309 | The files, the remaining bytes, the result and the number of processed tasks are those of the specification. |
| `SyncServerLoop.Server.HandleClient` | src/server/SyncServer.cpp:204-317 | The reply and the whole new state are those of the specification. |
| `SyncClient.ClientSendsStream` | src/core/FileSync.cpp:233-310 | Whatever fails on the way, the bytes on the wire are the prefix of the session's stream that the network accepted. |
| `SyncClient.WithoutResumeAllIsSent` | src/core/FileSync.cpp:271-305 | Without resume the bytes on the wire do not depend on the records: the metadata, then offset 0 and all the bytes of every file, as far as the network takes them. |
| `SyncClient.OffsetIff` | src/core/FileSync.cpp:270-279 | A file is sent from its recorded offset exactly when resume is on, the record can be loaded, both its numbers are positive and the offset is short of the source; otherwise from 0. |
| `SyncClient.SendingSucceedsIff` | src/core/FileSync.cpp:233-310 | The sending half of syncRemote succeeds if and only if the network takes the stream up to the end of the last file that has data to send. |
| `Connection.TrueIffAcknowledged` | src/core/FileSync.cpp:312-323 | For every visit, syncRemote returns true if and only if the network takes the whole session, the server acknowledges it, and the three bytes of the answer come back at once. |
| `Connection.SyncReturnsTrueIff` | src/core/FileSync.cpp:219-323 | For a visit without mismatch: if and only if every byte is taken, delivered and written and the answer comes back at once; and then every file of the visit equals its source. |
| `Connection.SyncRemote` | src/core/FileSync.cpp:219-323 | The result, the bytes sent and the records of syncRemote with its wait for the answer are those of the specification. |
| `SyncClient.RecordAfterCut` | src/core/FileSync.cpp:626-663 | After the network takes part of a file, the record is the offset rounded down to whole blocks; after all of it, there is no record. |
| `SyncClient.SendFromNet` | src/core/FileSync.cpp:626-663 | Sending a file block by block puts the same bytes on the wire as sending its rest at once. |
| `SyncClientLoop.Client.Send` | src/network/TcpClient.cpp:81-100 | Under every script of short sends: all bytes, or those that the network took before it failed. |
| `SyncClientLoop.Client.SendFileSync` | src/core/FileSync.cpp:626-663 | The bytes sent and the records are those of the specification. |
| `SyncClientLoop.Client.SyncRemote` | src/core/FileSync.cpp:219-310 | The bytes sent, the records and the result of a whole session are those of the specification. |
| `Network.SendTwice` | src/network/TcpClient.cpp:81-100 | Two sends put the same bytes on the wire as one send of both buffers, cut at the same place. |
| `ProgressRecord.LoadSaved` | src/core/FileSync.cpp:524-566 | A saved record loads back exactly if the path is nonempty and free of white space, and as no progress for every other path. |
| `ProgressRecord.LoadableIff` | src/core/FileSync.cpp:541-566 | A path can be loaded if and only if it is nonempty and has none of the six white-space characters that operator>> skips. |
| `ProgressRecord.LoadProgressReads` | src/core/FileSync.cpp:524-566 | What loadProgress returns is what reading back the text that saveProgress wrote gives, for every path and record. |
| `ProgressRecord.NumberRoundTrip` | src/core/FileSync.cpp:524-566 | A number written in decimal on its own line is read back, and what follows it is left. |
| `FileCopy.Copier.TransferFile` | src/core/FileSync.cpp:442-501 | The loop over the streams leaves the destination, record and result of the specification, for every way of ending. |
| `SequentialCopy.CopyBlocksResult` | src/core/FileSync.cpp:460-501 | One transfer in closed form, finished, killed after any number of blocks and further bytes, or with a failing write, with saves that succeed or fail, the unchecked write of the last short block included: how it ends, the bytes of the destination and the record. |
| `SequentialCopy.TransferExactIff` | src/core/FileSync.cpp:442-501 | A transfer that starts over or resumes at the end of a source prefix and returns true leaves the source if and only if the write of its last short block was not cut. |
| `SequentialCopy.CutTailReportsSuccess` | src/core/FileSync.cpp:495-501 | Ten bytes of which three are written: the transfer returns true, the record is gone, the file is short. |
| `SequentialCopy.KilledConsistentIff` | src/core/FileSync.cpp:484-486 | Killed after at least one block, the destination is the source prefix of exactly the recorded length if and only if its last save failed to leave a record or no byte followed it. |
| `SequentialCopy.KilledRecord` | src/core/FileSync.cpp:460-486 | Killed after any number of saves, the record is where the transfer began and 4096 bytes for each. |
| `FileCopy.Copier.Resume` | src/core/FileSync.cpp:510-516 | resumeSync is its specification: a transfer from the loaded offset, or nothing. |
| `FileCopy.ResumeIff` | src/core/FileSync.cpp:510-516 | On any files, resumeSync transfers from the recorded offset if and only if there is a record, it can be loaded and both its numbers are positive; otherwise it returns false and nothing changes. |
| `FileCopy.ConflictDecides` | src/core/FileSync.cpp:390-397 | Which strategy stops a call at an existing destination, and that it then changes nothing; no other call depends on whether a rename would fail. |
| `FileCopy.SmallFilesGoBlockwise` | src/core/FileSync.cpp:408-420 | A file below 10 MiB, or any file without a pool, is never copied in parallel. |
| `FileCopy.LargeFilesGoParallel` | src/core/FileSync.cpp:408-420 | With a pool every other file without progress is, and if that succeeds no other copy is made. |
| `FileCopy.Copier.Copy` | src/core/FileSync.cpp:393-432 | The copying part of syncFile is its specification: resumed transfer, then parallel, then plain copy, and clean-up. |
| `FileCopy.Copier.Sync` | src/core/FileSync.cpp:390-432 | syncFile with its conflict step is its specification; a rename moves the old bytes to the backup and leaves the record. |
| `FileCopy.SyncFileExactIff` | src/core/FileSync.cpp:390-432 | A call of syncFile, under any strategy, that returns true has made the destination equal to the source if and only if the last short block of its last transfer was not cut and it did not resume behind a renamed destination. |
| `FileCopy.UndisturbedExactIff` | src/core/FileSync.cpp:390-432 | An undisturbed call returns true and leaves exactly the source if and only if the strategy is overwrite, or there is no destination, or the strategy is rename and no record can be loaded. |
| `FileCopy.PartedCorrupts` | src/core/FileSync.cpp:574-591 | Whenever a destination with a loadable record is renamed, the undisturbed call returns true and leaves only the source from the recorded offset on, which is not the source. |
| `FileCopy.RenameAfterKill` | src/core/FileSync.cpp:574-591 | From a clean disk: a copy killed after its first save and one undisturbed call with rename end in that state. |
| `FileCopy.FailedSyncLeavesNothing` | src/core/FileSync.cpp:390-432 | A call of syncFile that returns false has changed nothing if the conflict step refused it, and otherwise leaves neither a destination nor a record. |
| `FileCopy.SyncAfterFailureExactIff` | src/core/FileSync.cpp:390-432 | The undisturbed call after a failed one leaves exactly the source if and only if the failed one got past the conflict step or the way is clear now. |
| `FileCopy.SyncKeepsSoundIff` | src/core/FileSync.cpp:390-432 | Under every strategy, killed at any byte of a block-wise transfer, failed or successful, with saves that may fail, a call keeps the destination equal to the source prefix of the recorded length if and only if it is not torn, a test on where it was killed and what was recorded. |
| `FileCopy.StaleRecordCorrupts` | src/core/FileSync.cpp:393-432 | Killed before the first save of the copy that follows a failed resume, the next undisturbed call reports success and leaves the few bytes there followed by the source from the stale offset on, which is not the source. |
| `FileCopy.HistorySound` | src/core/FileSync.cpp:390-432 | Any number of calls under any strategies, none of them torn, keep destination and record in step. |
| `FileCopy.CallsReachTheSourceIff` | src/core/FileSync.cpp:390-432 | Any number of calls under any strategies, killed, failed or successful but not torn, and then one undisturbed call, whatever was there at first: destination equals source and the record is gone, if and only if the way is clear for that last call. |
| `SequentialCopy.ResumeExactIffLengthsAgree` | src/core/FileSync.cpp:474-516 | Resuming behind a source prefix of length m from a record of offset o gives the source if and only if m is o, or both reach the end. |
| `FileCopy.FailedResumeThenResume` | src/core/FileSync.cpp:510-516 | After a resumeSync whose write of a whole block failed, the next resumeSync and the next syncFile return true, and the destination is the source if and only if nothing of the failed block was written. |
| `ParallelCopy.ChunksInside` | src/core/FileSync.cpp:713-721 | Each chunk is a nonempty piece of the file and starts where the one before it ends. |
| `ParallelCopy.ChunksCoverIffCountFits` | src/core/FileSync.cpp:713-721 | The chunks cover the file from the offset on if and only if their number fits in an int. |
| `ParallelCopy.StepKeepsInv` | src/core/FileSync.cpp:713-825 | Every step of every chunk task, with short and interrupted reads and writes, keeps: what each chunk has achieved, nothing outside changed, the error flag, and the counter's values. |
| `ParallelCopy.RunKeepsInv` | src/core/FileSync.cpp:713-825 | The same over every interleaving of any length. |
| `ParallelCopy.SuccessIffNoChunkFailed` | src/core/FileSync.cpp:752-771 | When all futures are collected, the result is success if and only if no chunk failed. |
| `ParallelCopy.SuccessCopiesRange` | src/core/FileSync.cpp:665-771 | Under every interleaving, if all chunks succeed the destination holds the source from the offset on, and all else is as it was. |
| `ParallelCopy.ParallelRefinesSequential` | src/core/FileSync.cpp:665-771 | A successful parallel copy leaves the file that the model of transferFile leaves if and only if it starts over, or has nothing to copy, or the destination ends at the offset. |
| `ParallelCopy.CounterValuesDistinct` | src/core/FileSync.cpp:713-741 | The values taken from the shared counter are strictly increasing, above the offset and at most the file size, in every reachable state. |
| `ParallelCopy.ExactlyOneValueIsTheSize` | src/core/FileSync.cpp:713-741 | In a fully successful nonempty run exactly one of them is the file size. |
| `ParallelProgress.RunsEnd` | src/core/FileSync.cpp:713-825 | Interruptions aside, no run of the chunk tasks is longer than a bound computed from where they stand. |
| `ParallelProgress.AtRestIffAllReturned` | src/core/FileSync.cpp:713-771 | The tasks come to rest, failures aside, exactly when all futures are ready: none waits for another. |
| `ParallelProgress.WithoutFailuresItSucceeds` | src/core/FileSync.cpp:713-771 | If no read and no write fails, the copy reports success whenever it comes to rest. |
| `ParallelProgress.SomeRunSucceeds` | src/core/FileSync.cpp:713-771 | Every source has a run that completes with success. |
| `ParallelProgress.CanFailIff` | src/core/FileSync.cpp:713-825 | A copy that has not failed can still fail if and only if some task has a read or a write before it. |
| `ParallelProgress.NothingStartsAfterError` | src/core/FileSync.cpp:725-726 | Once the error flag is set, a task that has not started returns false without having read or written. |
| `ParallelProgress.RecordIsACounterValue` | src/core/FileSync.cpp:740-741 | There is a record exactly when some task has succeeded, and it is one of the values taken from the counter. |
| `ParallelProgress.HugeFileIsNotCopied` | src/core/FileSync.cpp:713-771 | For a file whose chunk count is negative as an int every run is empty, reports success and leaves zeros. |
| `ThreadPool.StepKeepsInv` | src/thread/ThreadPool.cpp:28-112 | Every step of workers, submitters and the controlling thread, with spurious wake-ups, throwing tasks, stops and resizes, keeps the invariant. |
| `ThreadPool.NoLostWakeup` | src/thread/ThreadPool.cpp:28-56 | In every reachable running state with a blocked worker, the queue is no longer than the pending notifications and the awake workers that run no task. |
| `ThreadPool.EveryTaskExactlyOnce` | src/thread/ThreadPool.cpp:28-56 | Every submitted task is queued, or run by exactly one worker, or done, and only one of the three; no worker pops an empty queue. |
| `ThreadPool.ActiveCountsTasks` | include/ThreadPool.h:60-69 | activeTasks is the number of tasks queued or taken and not counted down, less one while a submitter stands between push and increment; it never wraps. |
| `ThreadPool.WaitMeansAllRan` | src/thread/ThreadPool.cpp:61-65 | When the counter is read as zero and no thread is inside submit, every submitted task is done. |
| `ThreadPool.AtMostOneLateTask` | src/thread/ThreadPool.cpp:29-55 | After running is set to false, each worker starts at most one more task. |
| `ThreadPool.JoinedLeavesQueue` | src/thread/ThreadPool.cpp:101-109 | Once all workers are joined, activeTasks is the number of tasks left in the queue, and all others are done. |
| `ThreadPool.AskedSize` | src/thread/ThreadPool.cpp:79-109 | In every reachable state in which no stop or resize is under way, the pool has exactly the workers last asked for by the constructor or a resize, and runs exactly if it was last asked to; while workers are being started, those started and those to come are as many. |
| `ThreadPool.ResizeIff` | src/thread/ThreadPool.cpp:79-83 | setThreadCount does something if and only if it asks for another number of workers than was last asked for. |
| `PoolProgress.DrainingEnds` | src/thread/ThreadPool.cpp:28-56 | If nothing new is submitted and nobody stops the pool, no run without spurious wake-ups is longer than a bound computed from where the threads stand. |
| `PoolProgress.RestMeansAllDone` | src/thread/ThreadPool.cpp:28-65 | A running pool that was asked for a worker comes to rest only when every submitted task is done, and then the counter is zero. |
| `PoolProgress.AllWorkCanBeDone` | src/thread/ThreadPool.cpp:28-65 | From every reachable state of such a pool its own threads can bring every submitted task to its end, without a spurious wake-up. |
| `PoolProgress.RestMeansAllExited` | src/thread/ThreadPool.cpp:101-109 | With no worker about to block when stop notifies, the threads come to rest only when all workers have exited, so that stop can join them. |
| `PoolProgress.WokenByStopTakesTask` | src/thread/ThreadPool.cpp:28-56 | A worker found blocked by stop while there is work in the queue can wake up and run the oldest task. |
| `PoolProgress.SubmittedTaskCanRun` | include/ThreadPool.h:60-69 | In a new pool with workers every thread can submit, and what it submits can be run to its end. |
| `ThreadPool.EndedOnce` | src/thread/ThreadPool.cpp:28-56 | During any run no task ends twice, and those that end are those newly done. |
| `ThreadPool.StopReachesAllIffNoneBlocking` | src/thread/ThreadPool.cpp:101-109 | No worker is found blocked while stop joins, in any continuation, if and only if none stood between evaluating the wait's predicate and blocking when it was notified. |
| `ThreadPool.StopCanMissAWorker` | src/thread/ThreadPool.cpp:101-109 | A reachable state of a pool with one worker in which stop waits and only a spurious wake-up can happen. |
| `ProtoWire.VarintRoundTrip` | src/rpc/sync_service.pb.cc:660-739 | A base-128 varint reads back to its value and leaves the bytes after it. |
| `ProtoWire.VarintLength` | src/rpc/sync_service.pb.cc:799-842 | The size computed for a varint is its length. |
| `ProtoWire.NegativeTakesTenBytes` | src/rpc/sync_service.pb.cc:1097-1125 | Every negative integer takes ten bytes. |
| `ProtoWire.FieldRoundTrip` | src/rpc/sync_service.pb.cc:660-797 | Every field that the messages write reads back and leaves the bytes after it. |
| `ProtoWire.LongFieldFails` | src/rpc/sync_service.pb.cc:660-797 | A field with a length of 2 GiB or more is refused, whatever follows. |
| `Utf8Text.Utf8Iff` | src/rpc/sync_service.pb.cc:404-420 | A string passes the parsers' check if and only if it is the UTF-8 encoding of a sequence of Unicode scalar values (section 3 of RFC 3629). |
| `ProtoWire.ParseLoop` | src/rpc/sync_service.pb.cc:999-1057 | The loop that advances over the bytes and updates the message computes the recursive parse, and fails where it fails. |
| `ProtoWire.ParseEncoded` | src/rpc/sync_service.pb.cc:999-1095 | Parsing a written list of fields and then more bytes is applying the fields and parsing on. |
| `UnknownFields.UnknownReads` | src/rpc/sync_service.pb.cc:999-1057 | A field of any number and wire type, groups nested in groups included, is read to its end. |
| `UnknownFields.OverlongRefused` | src/rpc/sync_service.pb.cc:999-1057 | A varint of more than ten bytes and a length of 2 GiB or more are refused, inside a group as outside. |
| `UnknownFields.BadTagRefused` | src/rpc/sync_service.pb.cc:999-1057 | A field with number zero, an unused wire type, or the end of a group that was never begun makes the parse fail. |
| `UnknownFields.BadTagInGroupRefused` | src/rpc/sync_service.pb.cc:999-1057 | Inside a group so does each of these, and the end of another group. |
| `UnknownFields.ForeignFieldsIgnored` | src/rpc/sync_service.pb.cc:999-1057 | Each of the eight messages leaves alone every field that has another number than its own fields, or another wire type. |
| `UnknownFields.RequestSkipsUnknown` | src/rpc/sync_service.pb.cc:2269-2321 | Any number of fields that the schema does not have, in front of a request, make no difference to how it parses. |
| `UnknownFields.ResponseSkipsUnknown` | src/rpc/sync_service.pb.cc:2626-2696 | The same for responses. |
| `ProtoMessages.SizeIsLengthListFilesRequest` | src/rpc/sync_service.pb.cc:481-502 | ByteSizeLong is the number of bytes that serialisation writes. |
| `ProtoMessages.SizeIsLengthFileEntry` | src/rpc/sync_service.pb.cc:799-842 | ByteSizeLong is the number of bytes that serialisation writes. |
| `ProtoMessages.SizeIsLengthGetFileMetaRequest` | src/rpc/sync_service.pb.cc:1318-1334 | ByteSizeLong is the number of bytes that serialisation writes. |
| `ProtoMessages.SizeIsLengthFileMeta` | src/rpc/sync_service.pb.cc:1695-1755 | ByteSizeLong, which adds up in another order than it writes, is the number of bytes written. |
| `ProtoMessages.IntoListFilesRequest` | src/rpc/sync_service.pb.cc:404-526 | Reading a serialised message into another one merges the two if its strings are UTF-8, and fails if not. |
| `ProtoMessages.IntoFileEntry` | src/rpc/sync_service.pb.cc:660-878 | Reading a serialised message into another one merges the two if its strings are UTF-8, and fails if not. |
| `ProtoMessages.IntoGetFileMetaRequest` | src/rpc/sync_service.pb.cc:1255-1355 | Reading a serialised message into another one merges the two if its strings are UTF-8, and fails if not. |
| `ProtoMessages.IntoFileMeta` | src/rpc/sync_service.pb.cc:1508-1800 | Reading a serialised message into another one merges the two if its strings are UTF-8, and fails if not. |
| `ProtoRpc.SizeIsLengthListFilesResponse` | src/rpc/sync_service.pb.cc:1059-1125 | ByteSizeLong is the serialised length, so every entry's length prefix delimits exactly that entry. |
| `ProtoRpc.SizeIsLengthGetFileMetaResponse` | src/rpc/sync_service.pb.cc:1991-2056 | ByteSizeLong is the serialised length, with and without the nested message. |
| `ProtoRpc.SizeIsLengthRpcRequest` | src/rpc/sync_service.pb.cc:2323-2392 | ByteSizeLong is the serialised length for every oneof case. |
| `ProtoRpc.SizeIsLengthRpcResponse` | src/rpc/sync_service.pb.cc:2698-2795 | ByteSizeLong is the serialised length for every oneof case. |
| `ProtoRpc.IntoListFilesResponse` | src/rpc/sync_service.pb.cc:999-1150 | Reading a serialised listing into another one appends the entries and overrides the scalars that are set, or fails if a string of it or of an entry is not UTF-8. |
| `ProtoRpc.IntoGetFileMetaResponse` | src/rpc/sync_service.pb.cc:1936-2084 | Reading a serialised response into another one merges the nested message and overrides the scalars that are set, or fails if a string is not UTF-8. |
| `ProtoRpc.RpcRequestRoundTrip` | src/rpc/sync_service.pb.cc:2269-2356 | Every request that can be serialised parses back to itself if its strings are UTF-8, and to nothing if not. |
| `ProtoRpc.RpcResponseRoundTrip` | src/rpc/sync_service.pb.cc:2626-2747 | Every response that can be serialised parses back to itself if all its strings are UTF-8, and to nothing if one is not: nested messages, repeated entries, omitted defaults, oneof cases and negative integers included. |
| `ProtoRpc.SerialisesIff` | src/rpc/RpcServer.cpp:166-171 | A request or response can be serialised if and only if it takes fewer than 2^31 bytes, and then to those bytes. |
| `ProtoRpc.RpcRequestConcatenationMerges` | src/rpc/sync_service.pb.cc:2269-2430 | Parsing one serialisation after another is merging the second request into the first, and fails if a string of either is not UTF-8. |
| `ProtoRpc.RpcResponseConcatenationMerges` | src/rpc/sync_service.pb.cc:2626-2837 | The same for responses: last scalar wins, entries are appended, the same case is merged and another case replaces. |
| `ProtoRpc.MergeAssociativeIff` | src/rpc/sync_service.pb.cc:2401-2430 | Three requests merge to the same from either end unless the first and last have the same case, the middle one has the other, and the first sets a field that the last leaves at its default: if and only if. |
| `ProtoRpc.ResponseMergeAssociativeIff` | src/rpc/sync_service.pb.cc:2804-2837 | The same for responses, with repeated entries and nested metadata: the exact condition under which the two groupings agree. |
| `ProtoRpc.MergeNotAssociative` | src/rpc/sync_service.pb.cc:2401-2430 | Three concrete requests for which the two groupings give different requests. |
| `RpcService.FrameRoundTrip` | src/rpc/RpcServer.cpp:143-181 | A framed nonempty payload reads back and leaves the bytes after it. |
| `RpcService.HandedOnIff` | src/rpc/RpcClient.cpp:67-158 | Whatever response arrives, the client hands it on if and only if its strings are UTF-8, it reports success and it has the payload that was asked for. |
| `RpcService.EmptyResponseRefused` | src/rpc/RpcClient.cpp:139-142 | A response without payload is refused and the next call reads on behind its header. |
| `RpcService.CutResponseRefused` | src/rpc/RpcClient.cpp:133-158 | A response that is cut is refused, and nothing is left for the next call. |
| `RpcLoop.Server.RecvAll` | src/rpc/RpcServer.cpp:198-211 | Under every script of interruptions and short reads: all of size or nothing. |
| `RpcLoop.Server.SendAll` | src/rpc/RpcServer.cpp:183-196 | Under every script of interruptions and short sends, on a network that may fail at any byte: all of the data, or those bytes that the network took, and true exactly in the first case. |
| `RpcLoop.Server.ReceiveRequest` | src/rpc/RpcServer.cpp:143-164 | The request and the remaining bytes are those of the frame reader and the parser. |
| `RpcLoop.Server.HandleRpcClient` | src/rpc/RpcServer.cpp:26-82 | For every input, script and point at which the network fails, the request loop sends the frames of the specification as far as the network takes them, and returns true exactly when not even one request was read. |
| `RpcService.ResponseShape` | src/rpc/RpcServer.cpp:26-82 | Every response has the request's type, on success the payload case of that type, on failure an error text that is UTF-8, and never an empty serialisation. |
| `RpcService.AnyRequestGetsNonEmptyResponse` | src/rpc/RpcServer.cpp:26-82 | Whatever bytes the server accepts as a request, its response is valid and not empty. |
| `RpcService.Conversation` | src/rpc/RpcClient.cpp:67-158 | Over any sequence of calls on one connection with UTF-8 strings the client reads exactly one response per call, in order, each the handler's answer, with nothing left over. |
| `RpcService.CallsReturnHandlersAnswers` | src/rpc/RpcClient.cpp:67-158 | Over any sequence of calls on one connection, with any bytes as paths and any handlers, from the bytes the server sends back: the calls return exactly the expected results. |
| `RpcService.HandlersResultAt` | src/rpc/RpcClient.cpp:67-158 | The k-th expected result is the k-th handler's answer if every request up to it is UTF-8 and has a response below 2 GiB, and the k-th response is UTF-8; otherwise it is false. |
| `FileTree.CreateDirectoryByLevels` | src/utils/LinuxFileUtil.cpp:83-114 | The scan with pos and next computes the recursive specification, failures included. |
| `FileTree.CreateDirectoryAddsMissing` | src/utils/LinuxFileUtil.cpp:83-114 | If no ancestor is a regular file, creation succeeds and adds exactly the missing directories of the chain. |
| `FileTree.CreateDirectoryResult` | src/utils/LinuxFileUtil.cpp:83-114 | On any tree: creation succeeds if and only if no missing level has a regular file for its parent, and then adds exactly the missing levels; otherwise it has added exactly the levels shorter than a blocked one. |
| `Planner.CompareMetadata` | src/core/FileSync.cpp:88-133 | The tasks are exactly those due, in any order, with pairwise different destinations. |
| `Planner.TaskIff` | src/core/FileSync.cpp:88-158 | A task is planned if and only if it leads from a source path to its image with that path's kind and mode, and the image is missing or differs in being a regular file, in size, in modification time or, for regular files only, in digest. |
| `Planner.EmptyPlanIff` | src/core/FileSync.cpp:88-158 | The plan is empty if and only if every source path has an image that is alike in all of these. |
| `Planner.ImageInjective` | src/core/FileSync.cpp:88-133 | Different source paths have different images. |
| `Planner.AnyOrderSameTree` | src/core/FileSync.cpp:330-433 | Under overwrite, any two orders of the tasks succeed and give the same tree, which is the one stated without an order. |
| `Planner.FinalMatchesSources` | src/core/FileSync.cpp:345-433 | In that tree every destination is its source, and every other path is unchanged or a new parent directory. |
| `Planner.CopiedBytesAreCopyFiles` | src/core/FileSync.cpp:393-426 | What the planner's tasks write is what an undisturbed copy leaves. |
| `Planner.TaskIsSyncFile` | src/core/FileSync.cpp:345-433 | Under every strategy a file task succeeds when an undisturbed call of syncFile does, with the same bytes, and leaves no progress file; one that is refused changes nothing but added directories. |
| `Planner.TaskExactIff` | src/core/FileSync.cpp:345-433 | On a destination whose record, if any, fits it, a file task makes the destination equal to its source if and only if the way is clear. |
| `Planner.RenameKeepsTheOld` | src/core/FileSync.cpp:574-591 | Under rename an existing destination is the backup afterwards. |
| `Planner.FileTaskOkIff` | src/core/FileSync.cpp:373-433 | A file task on any tree, under any strategy, succeeds if and only if the source is a file, no directory above the destination is blocked, the conflict step lets it pass and leaves the source, the destination has a place, and no directory stays there. |
| `Planner.FileTaskFrame` | src/core/FileSync.cpp:373-433 | Whatever its outcome, it changes only its destination, progress file and backup, and adds only directories above the destination. |
| `Planner.DirectoryAtDestination` | src/core/FileSync.cpp:396-432 | Overwriting a directory: one with something in it stays and the task fails; an empty one is removed, and the task fails unless it copies in parallel, and succeeds the second time. |
| `Planner.DirectoryTaskResult` | src/core/FileSync.cpp:345-361 | A directory task on any tree succeeds if and only if its destination is not empty and no level of it is blocked; then the missing levels are there and the destination has the task's mode. |
| `Planner.DirectoryTaskTakesFile` | src/core/FileSync.cpp:345-361 | On a regular file it reports success, changes that file's mode and leaves it a file. |
| `Planner.AllSucceedIff` | src/core/FileSync.cpp:198-203 | A sequence of tasks succeeds if and only if each does in the tree that those before it leave. |
| `Listing.CollectMetadata` | src/core/FileSync.cpp:45-78 | The recursive loop returns one entry for each descendant and nothing else. |
| `Listing.CoveredMore` | src/core/FileSync.cpp:45-78 | The subtrees of different children do not overlap, so no entry is overwritten. |
| `Listing.CoveredByAll` | src/utils/LinuxFileUtil.cpp:121-136 | The children and their subtrees are all the descendants. |
| `Listing.Builder.ListDirectory` | src/rpc/RpcServer.cpp:213-256 | The recursive method appends the entries of the walk to the response and adds their number to total_count. |
| `Listing.WalkOrdered` | src/rpc/RpcServer.cpp:213-256 | A recursive walk meets every descendant exactly once, parents first; one that is not recursive meets the children. |
| `RpcHandlers.HandleListFiles` | src/rpc/RpcServer.cpp:84-104 | The handler fails exactly when no directory is found, and otherwise answers with the entries of the walk and their 32-bit count. |
| `RpcHandlers.HandleGetFileMeta` | src/rpc/RpcServer.cpp:106-141 | The response, filled in field by field, is the specified one: missing paths, the base directory and trailing slashes included. |
| `RpcHandlers.MetaPresentIff` | src/rpc/RpcServer.cpp:106-141 | From the response and the tree alone: always a success; present if and only if the path is the base directory, a path of the tree, or a directory of the tree with a slash behind it; every field of a missing path at its default. |
| `RpcHandlers.MetaDescribes` | src/rpc/RpcServer.cpp:106-141 | A present path is described by the path as asked for, the part behind its last slash, and size, times, mode and kind of what it names, with the digest of a file's own bytes and none for directories. |
| `RpcHandlers.AnswerIsValid` | src/rpc/RpcServer.cpp:84-104 | The answer is a message the schema can carry, with each path of the directory exactly once, described by its node in the tree, and total_count is the number of entries when that fits. |
| `RpcHandlers.ListedIsDescribed` | src/rpc/RpcServer.cpp:84-141 | What a listing says of an entry is what asking for the metadata of that entry's path says. |
| `RpcHandlers.ReadableIffUtf8` | src/rpc/RpcServer.cpp:84-141 | The client can read the response to an answered call if and only if it does not list a directory that has a path in it that is not UTF-8. |
| `RpcHandlers.TreeHandlersAreSane` | src/rpc/RpcServer.cpp:84-141 | Handlers that answer for trees, both calls, meet all that the service's theorems ask of them. |
| `LocalSync.LocalSyncMatches` | src/core/FileSync.cpp:166-208 | For any order of the due tasks: all succeed, every source path is matched by its image, and every other path is as it was except for new parent directories. |
| `LocalSync.DueIffOutdated` | src/core/FileSync.cpp:166-176 | From the trees alone: a source path is planned for if and only if its image is missing, of another kind, of another size or time, or, for files, of another digest. |
| `LocalSync.DueTasksFit` | src/core/FileSync.cpp:88-133 | Every planned task is from a source path to its image, makes a directory of a directory and has the source's mode. |
| `LocalSync.UpToDateIsLeft` | src/core/FileSync.cpp:166-208 | A path that is up to date is not written, in any order of the tasks. |
| `LocalSync.NothingToDo` | src/core/FileSync.cpp:166-176 | The plan is empty if and only if everything is up to date. |
| `LocalSync.SyncLocal` | src/core/FileSync.cpp:184-208 | syncLocal makes the destination directory, plans, and runs the tasks up to the first that fails, as the specification does. |
| `LocalSync.GivingUpIff` | src/core/FileSync.cpp:198-203 | It returns true if and only if running all tasks would have succeeded, and then leaves the same tree. |
| `LocalSync.GivesUpAtFirst` | src/core/FileSync.cpp:198-203 | When it gives up it has executed exactly the tasks in front of the one that failed, and that one. |
| `LocalSync.SyncLocalMatches` | src/core/FileSync.cpp:184-208 | Under overwrite, where tasks do not interfere, it returns true and matches every source path, whatever the order of the plan. |
| `LocalSync.RunningAgainChangesNothing` | src/core/FileSync.cpp:184-208 | Running the same tasks again, in any order, changes nothing. |
| `SyncManager.InOrderIsPermutation` | src/core/SyncManager.cpp:64-70 | The order in which the pool ends the tasks is a permutation of the submitted ones. |
| `SyncManager.WaitedSyncMatches` | src/core/SyncManager.cpp:51-80 | When the driver's wait returns, in every run of the pool, every task was executed exactly once, all succeeded, and every source path is matched by its image. |
| `SyncManager.FailureIsNotReported` | src/core/SyncManager.cpp:51-80 | A tree for which the only due task fails under every strategy, so that syncLocal, which returns true once it has waited, hides the failure. |

## Left out

- AsyncIOHandler and sendFileViaAsyncIO: remote sending is modelled through sendFileSync only.
- RpcService.CallsReturnHandlersAnswers: the client's own recvAll and sendAll are not modelled as loops; they differ from the server's in failing when interrupted.
- In-place update of the eight message objects: messages are values, and one parse loop stands for the eight; arenas, swaps, reflection tables and destructors have no message-level meaning.
- ProtoWire.ParseLoop: unknown fields and groups are skipped and not kept; the limit of one hundred nested groups is not modelled.
- Listing.Builder.ListDirectory: entries whose stat fails and directories that cannot be opened are not modelled; the count is unbounded here and cut to 32 bits in RpcHandlers.HandleListFiles, where the source's increment would overflow.
- RpcHandlers.HandleGetFileMeta: paths with a NUL byte, which the source cuts for stat(2), and with `.` or `..` components or doubled slashes are names like any other here.
- ThreadPool: steps are interleaved with sequential consistency; fairness of the scheduler is not modelled, so PoolProgress bounds the steps and not the time.
- ParallelCopy.ParallelRefinesSequential: files longer than 0x7FFFFFFF chunks are excluded by the condition of ParallelCopy.ChunksCoverIffCountFits.
- FileCopy.SyncKeepsSoundIff: the process is not killed inside a parallel copy, whose record is a count of bytes and not a prefix. Writes are not buffered, so a kill loses nothing that was written.
- FileCopy.Copier.Sync: a source that is missing and a destination whose directory cannot be made are in Planner.SyncFile; a strategy that is none of the three acts as overwrite.
- Planner.FileTaskOkIff: a source that has become a directory since it was planned, which the source's streams open without complaint, fails here; renaming a destination directory moves the directory alone.
- Planner.AnyOrderSameTree: for the overwrite strategy, with each task as one atomic step; under skip and rename the result of one task is Planner.TaskIsSyncFile. Races between two tasks that create the same directory are not modelled.
- LocalSync.RunningAgainChangesNothing: about the same tasks run twice; that a second plan would be empty is false, because copies do not keep modification times.
- SyncClient.ClientSendsStream: requires every source to be found by stat, since the size field is missing from the stream otherwise, and fewer than 2^31 tasks; saving a progress record is taken to succeed.
- Connection.Serve: the task counter and the answer are those of one connection; the server's accept loop and its threads are not modelled.
- SyncWire.TaskRoundTrip: requires NUL-free paths; a failed allocation for an absurd path length is not modelled.
- SyncRestart.MismatchDecidesFile: says what an acknowledged session did to the restarted file, and not whether the tasks behind it, which are read out of step, are right.
- MD5, free space checks, the effect of permissions on later writes, sockets, epoll, signals, rate limits, clocks, logging, the command line and heartbeats.
