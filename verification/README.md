# WindCloud: a verified model

WindCloud is a TCP file store written in C. A main thread accepts connections and hands them to a fixed
set of workers; each worker serves one client's commands at a time against a MySQL table that holds a
virtual directory tree, and against a directory of blobs named by the hash of their content. This project
models four parts of it in Dafny and proves what they promise.

| files | part |
|---|---|
| `FdQueue.dfy`, `ThreadPool.dfy`, `WorkerSystem.dfy` | the connection queue, the regions run under the pool's mutex, and all interleavings of main thread, workers and clients |
| `DbPool.dfy`, `DbPoolSystem.dfy` | the database connection pool, and all interleavings of the threads that use it |
| `Vfs.dfy`, `PathText.dfy`, `Sessions.dfy`, `SessionEffects.dfy`, `SessionRuns.dfy`, `SessionHandlers.dfy`, `Listing.dfy` | the `paths` table, the path text, many sessions over one table, what each packet does, their runs, the handlers in place, and `ls` |
| `Bytes.dfy`, `Protocol.dfy`, `Upload.dfy`, `Download.dfy`, `Store.dfy` | packets over a fragmenting stream, both ends of `puts`, the block loop of `gets`, and the content-keyed store |

`Basics.dfy` holds shared vocabulary.

## How it is modelled

- **Concurrency.** A step of a system is one region run under the mutex, or one action outside it, so a run
  is any interleaving. A signal wakes at least one sleeper if there is one, and a sleeper may wake for no
  reason. A timed wait may end in a timeout although it consumed a signal, which POSIX.1-2017 allows
  (pthread_cond_timedwait). A database handle closed in a round may come back as the next new one. The
  descriptors in `busy_fds` may be stale between `close` and clearing, and may by then belong to a new
  connection; connections are therefore named by their position in accept order.
- **Database.** A query is one atomic operation that may fail and then changes nothing. In `Sessions` a
  command's label carries the answers its queries got; only the last query of a command sees the table as
  it is, and earlier answers may be out of date. In `SessionEffects` and `SessionHandlers` it is given which
  queries work, the table is the same for all queries of one packet, and so the effect follows. A NULL
  parent is 0. Names are byte strings.
- **Files.** A stored hash is used as a file name, and which file a name opens is an arbitrary function:
  what is proved of the store holds for every one. What the two ends' files and the storage directory
  answer are parameters.
- **Network.** A socket delivers some remaining bytes in pieces of any size, and accepts some number of
  bytes in pieces of any size before it fails. An end of a connection is a function of the bytes that reach
  it, so one statement covers every fragmentation and every timing.
- **In place.** The queue is a linked list, `busy_fds`, the connection array, the path buffer, the listing
  buffer and the receive buffers are arrays, and the loops are loops. Each such method is proved equal to a
  function of the old state, and the properties are proved about those functions. What such a function
  computes is also stated without it: slot by slot, block by block, row by row.

## What turned out false, and when it holds

- **Pool sizes.** Nothing compares the minimum with the maximum. `InitFitsIff`: init stays inside the
  connection array whatever the database answers exactly when min <= max; the call site passes 7 and 3.
- **Timed wait.** A getter whose wait times out returns without looking again. `WakeupIff`: a wakeup is lost
  exactly when such a thread had consumed a signal, another one sleeps, and there are not more woken
  threads than free connections; `LateTimeOutLosesWakeup` is a reachable run.
- **Release.** Release never looks at the in-use flag. `ReleaseKeepsAccountsIff`: the counters survive exactly when
  the handle is not in the pool or is in use.
- **Ownership.** A login on top of somebody else's live session keeps the old directory. `OwnershipIff`:
  every other command keeps each entry and each session with the owner of its directory. Runs:
  `LoginOnTopBreaksOwnership`, and `LookupCanBeAmbiguous`, where two uploads then answer one `gets`.
- **One root a user.** The unique key does not cover a NULL parent. `OneRootIff`: a second root appears
  exactly when both lookups missed an existing root and the insert went through. Run: `TwoRoots`.
- **Path and directory.** `AgreementIff`: they stay in agreement exactly when a `cd name` passes the length
  test, a `cd ..` leaves a name that can be stripped (no slash, or directly below the root with its only
  slash first), and a register, successful or on top of a session, finds the path at "/". Runs:
  `LongPathFallsBehind`, `SlashNameMisleads`, `RegisterLeavesPath`. `TameRunsAgree` gives a condition on
  the commands alone.
- **Return trip.** `CdThenBackIff`: `cd name`, then `cd ..`, restores the session exactly when nobody removed
  the child meanwhile and the name can be stripped.
- **Removed names.** The key of a removed entry stays taken, so the name can never be used there again
  (`UsedNameStaysTaken`, `RemovedNameNeverReturns`).
- **Text replies.** `TextSurvives`: a reply, a listing included, is complete exactly up to 255 bytes.
- **Block count.** `TotalBlocksIff`: the cast is right exactly up to (2^31 - 1) blocks.
- **Transfer record.** `gets` passes file id 0, which the insert rejects. `NoRecordIsEverMade`: every
  download starts at block 0 and none is ever marked complete.
- **Concurrent uploads.** `OpenKeepsCompleteIff`: opening for upload keeps the stored blobs complete exactly
  when no row's blob is in the opened place at that moment, whatever an earlier lookup said. Run:
  `SecondUploadDestroys`.
- **Hashes as file names.** The client's hash is only tested for its length. `ByHashKeepsInvIff`: going by
  the hash text is enough exactly when no other hash of a row or an active upload opens the same file.
  `AliasDestroys`: for every 62-byte name, "./" and "//" in front of it do, and a stored blob is emptied.
- **Drained connections.** They are shut down but never closed (`DrainedStayOpen`): the `close` stands inside
  a comment.

## Model

| member | source | states |
|---|---|---|
| FdQueue.Queue.EnQueue | src/server/queue.c:8-30 | the list's contents gain the descriptor at the end; `size`, `head`, `end` and the acyclic chain stay consistent |
| FdQueue.Queue.DeQueue | src/server/queue.c:35-63 | returns and removes the oldest descriptor; -1 and no change when empty |
| FdQueue.Drive | src/server/queue.c:8-63 | any interleaving of the two operations on the linked list answers as a FIFO does, and what remains is what the FIFO holds |
| FdQueue.FifoConservation | src/server/queue.c:8-63 | for non-negative descriptors, everything put in is answered in order or still queued, and -1 means empty only |
| ThreadPool.Pool.constructor | src/server/thread_pool.c:15-50 | nothing queued, not exiting, every worker idle |
| ThreadPool.Pool.Accept | src/server/server.c:209-212 | one connection joins the end of the queue and the condition is signalled once, nothing else changes |
| ThreadPool.Pool.TakeTurn | src/server/worker.c:31-44 | leaves exactly when the flag is up, waits exactly when it is not and nothing is queued, and otherwise takes the oldest descriptor and publishes it |
| ThreadPool.Pool.Clear | src/server/worker.c:56-60 | only this worker's published descriptor is reset |
| ThreadPool.Pool.Drain | src/server/server.c:171-179 | the queue ends empty and every drained descriptor is shut down, in order |
| ThreadPool.Pool.ShutBusy | src/server/server.c:181-186 | every published descriptor is shut down |
| ThreadPool.Pool.Exit | src/server/server.c:168-189 | flag raised, queue emptied, exactly the drained and published descriptors shut down, and one broadcast |
| ThreadPool.KnownMembers | src/server/server.c:172-186 | the shutdown list misses no descriptor but -1 |
| WorkerSystem.InitialInv | src/server/thread_pool.c:15-68 | a fresh pool of any size meets the invariant |
| WorkerSystem.StepKeepsInv | src/server/worker.c:29-62 | every step of main thread, workers and clients keeps conservation, publication, distinct descriptors, the wakeup count and the shutdown facts |
| WorkerSystem.ReachableInv | src/server/worker.c:29-62 | the invariant holds in every reachable state |
| WorkerSystem.ConnectionConservation | src/server/server.c:168-212 | dispatched, then drained, then queued connections are the accepted ones in accept order; nothing is dispatched twice, or dispatched and drained |
| WorkerSystem.NoWakeupIsLost | src/server/worker.c:31-44 | while a worker sleeps, queued connections never outnumber woken workers that have not rechecked |
| WorkerSystem.QueueIsServed | src/server/worker.c:31-44 | before exit, if a connection waits and some worker is at or asleep at the queue, some worker can take the oldest connection now |
| WorkerSystem.OnlyStartReturns | src/server/worker.c:19-39 | before exit no step makes a worker return but a start without a database connection |
| WorkerSystem.ReturnedIff | src/server/worker.c:19-62 | over every run that has not come to exit, a worker has returned exactly when it started without a database connection |
| WorkerSystem.ConnectedWorkersStay | src/server/worker.c:29-62 | over every such run, a worker that started with a connection is still at work |
| WorkerSystem.TurnBeforeExit | src/server/worker.c:31-44 | a turn before exit goes to sleep at an empty queue and otherwise takes and publishes the oldest connection |
| WorkerSystem.OldestCanBeServed | src/server/worker.c:29-60 | from every reachable state before exit with a connection queued and a worker at work, a run without exits, malformed packets or wakeups for no reason hands the oldest connection out |
| WorkerSystem.ExitReachesEverySession | src/server/server.c:168-189 | the exit step shuts down every session being served and every queued connection, and no other, however stale `busy_fds` is |
| WorkerSystem.ExitIsFinal | src/server/server.c:168-198 | after exit nothing is accepted, queued, dispatched or drained any more |
| WorkerSystem.ExitStepShrinks | src/server/session.c:34-40 | each step after exit leaves strictly less to do, buffered commands included |
| WorkerSystem.ShutdownTerminates | src/server/worker.c:29-67 | a run after exit is no longer than the work left, and it can be continued exactly until every worker has returned |
| WorkerSystem.DrainedStayOpen | src/server/server.c:172-179 | when all workers have returned, the connections still open are exactly the drained ones |
| DbPool.InitFitsIff | src/server/db_pool.c:111-143 | init writes inside the array for every database behaviour exactly when min <= max |
| DbPool.CallSiteDoesNotFit | src/server/server.c:127-132 | the sizes passed by the server do not meet that |
| DbPool.OpenedAccounts | src/server/db_pool.c:97-143 | with min <= max the pool starts with consistent accounts |
| DbPool.Pool.constructor | src/server/db_pool.c:97-143 | up to min free connections, stopping at the first that cannot be created |
| DbPool.Pool.TakeFree | src/server/db_pool.c:165-188 | one pass over the array: dead free connections dropped, the first answering one taken |
| DbPool.Pool.GetRound | src/server/db_pool.c:163-214 | one round of the getter: pass, then growth, then wait, with the exact new pool |
| DbPool.Pool.Release | src/server/db_pool.c:245-269 | exactly the slot with the handle is freed and the counter lowered; failure and no change for an unknown handle |
| DbPool.OpenedExactly | src/server/db_pool.c:112-137 | init stores the granted connections in order, all free, as many as asked for or up to the first refusal |
| DbPool.ScanExactly | src/server/db_pool.c:166-187 | a pass slot by slot: the first free connection that answers is taken, the free ones in front of it are dropped, nothing else is touched |
| DbPool.RoundExactly | src/server/db_pool.c:164-209 | a round slot by slot: what it hands out, what each slot becomes, and the count |
| DbPool.RoundKeepsHealthy | src/server/db_pool.c:168-187 | a hole is new only where a free connection did not answer; a free one that answers stays, or is the first that answers and is taken |
| DbPool.ReleasedExactly | src/server/db_pool.c:241-263 | a release slot by slot: the slot with the handle becomes free, the count drops by one, nothing else changes |
| DbPool.RoundServesIff | src/server/db_pool.c:165-214 | a caller is served at once exactly when a free connection answers or one can be created in the room left; free ones come first |
| DbPool.RoundAccounting | src/server/db_pool.c:165-214 | a round keeps the accounts, leaves connections in use and holes alone, and waits only when nothing is free |
| DbPool.FullPoolOnlyLoses | src/server/db_pool.c:181-202 | live slots and holes make up `pool_size`; at the maximum the live count never grows |
| DbPool.DrainedPoolIsDead | src/server/db_pool.c:181-202 | a full pool of holes serves nobody again |
| DbPool.ReleaseKeepsAccountsIff | src/server/db_pool.c:247-263 | release keeps the accounts exactly when the handle is unknown or in use |
| DbPool.DoubleReleaseMiscounts | src/server/db_pool.c:250-253 | a double release ends with a counter of -1 |
| DbPoolSystem.InitialInv | src/server/db_pool.c:74-150 | after init with min <= max and any number of threads, accounts and ownership hold and no wakeup is lost |
| DbPoolSystem.StepKeepsInv | src/server/db_pool.c:155-269 | every get, wait, timeout (one that consumed a signal included) and release of any thread keeps accounts and ownership |
| DbPoolSystem.WakeupIff | src/server/db_pool.c:216-226 | no step loses a wakeup but a timeout that consumed a signal, and that exactly when another thread sleeps and no woken one is to spare |
| DbPoolSystem.LateTimeOutLosesWakeup | src/server/db_pool.c:216-226 | a reachable run ends with a free connection, a sleeping thread and nobody woken |
| DbPoolSystem.ExclusiveOwnership | src/server/db_pool.c:166-208 | no two threads hold one connection; the in-use slots are exactly the held ones and the counter counts them; live slots plus holes stay within the maximum |
| DbPoolSystem.NoWakeupIsLost | src/server/db_pool.c:164-259 | over every run whose signal-consuming timeouts leave a woken thread to spare, free connections never outnumber woken threads that have not rescanned while a thread sleeps |
| DbPoolSystem.RequestEndsIff | src/server/db_pool.c:155-231 | a request ends with a connection exactly by a round of its own that found one, and without one exactly by a timeout; it sleeps exactly after a round that found none |
| DbPoolSystem.RequestCanBeServed | src/server/db_pool.c:164-263 | while any connection is live, every thread in the getter can still get one |
| DbPoolSystem.StableOwnership | src/server/db_pool.c:166-263 | a held connection stays in its slot, open, through any run of the other threads |
| DbPoolSystem.HealthyStays | src/server/db_pool.c:166-187 | over every run a live connection disappears only in a round whose ping it fails |
| DbPoolSystem.PoolSizeOverRuns | src/server/db_pool.c:181-202 | over any run `pool_size` never decreases nor passes the maximum, and at the maximum the live count never grows |
| Vfs.InsertShape | docs/database_init.sql:26-43 | an insert keeps the forest and the unique key and adds just the row, or changes nothing |
| Vfs.DeleteShape | src/server/dao_vfs.c:530-548 | a soft delete keeps the forest and every row's identity |
| Vfs.GrowsKeepsWalk | src/server/dao_vfs.c:310-332 | later inserts and deletes change neither a row's names to the root nor the subtrees it lies in |
| Vfs.WalkEndsAtOwnRoot | src/server/dao_vfs.c:277-332 | parent walks end at the owner's root, which is the only one |
| Vfs.LookupIsFunction | src/server/dao_vfs.c:363-406 | (parent, name) names at most one row, removed rows included |
| Vfs.CreatedDirIsFound | src/server/dao_vfs.c:496-528 | mkdir succeeds exactly when the key was never used; the new directory is then what lookups find |
| Vfs.InsertedPathIsFound | src/server/dao_vfs.c:642-662 | the same for the entry of a file |
| Vfs.DeletedIsNotFound | src/server/dao_vfs.c:530-548 | after rm the lookup finds nothing, and every other row is untouched |
| Vfs.RootInsertIff | src/server/dao_vfs.c:343-360 | inserting a root keeps one root a user exactly when there was none |
| Vfs.UsedNameStaysTaken | docs/database_init.sql:37 | a key once used, removed or not, can never be inserted again |
| PathText.AppendAgrees | src/server/file_cmds.c:83-86 | appending a name gives the path of the child |
| PathText.SkippingDisagrees | src/server/file_cmds.c:76-81 | keeping the path never gives the path of the child |
| PathText.StripAgreesIff | src/server/file_cmds.c:40-46 | cutting at the last slash gives the parent's path exactly for a strippable name |
| PathText.SlashNameStripsWrong | src/server/file_cmds.c:40-46 | a directory "a/b" below the root leaves "/a" |
| Sessions.ServeOk | src/server/session.c:51-122 | any command with any possible answers keeps the forest, only adds rows or tombstones, and leaves a well-formed session |
| Sessions.ForestOverRuns | src/server/dao_vfs.c:334-548 | over every run of any sessions the forest stands and rows only gain tombstones |
| Sessions.LoginLandsInRoot | src/server/session.c:52-67 | a login ends in the user's own root at "/", unless both lookups and the insert failed |
| Sessions.RegisterLandsInRoot | src/server/session.c:69-81 | the same for a register |
| Sessions.OwnershipIff | src/server/session.c:52-67 | ownership survives a step exactly when it is not a login as another user on top of a session with a directory |
| Sessions.OneRootIff | src/server/dao_vfs.c:334-361 | one root a user survives a step exactly when it makes no blind root insert |
| Sessions.OwnershipOverRuns | src/server/session.c:51-122 | over every run without those, entries and sessions keep their owners, walks end at the owner's only root, and lookups have one answer |
| Sessions.AgreementIff | src/server/file_cmds.c:12-90 | path and directory agreement survives a step exactly under a condition on the acting session's command and name |
| Sessions.PathsAgreeOverRuns | src/server/file_cmds.c:12-90 | over every run of such commands each path is the walk from the root to the session's directory |
| Sessions.CdThenBackIff | src/server/file_cmds.c:33-90 | `cd name`, any steps of others, `cd ..` restores the session exactly when the child was not removed and the name strips |
| Sessions.RemovedSubtreeIsClosed | src/server/dao_vfs.c:363-388 | no session outside a removed directory's subtree, and none that connects later, ever enters it, whatever anyone does |
| Sessions.RmRemovesIff | src/server/file_cmds.c:131-142 | a successful rm removes the row exactly when it belongs to the session's user |
| Sessions.RmCutsOffSubtree | src/server/file_cmds.c:116-146 | from a successful rm on, every session outside the directory and every later one stays outside for ever |
| Sessions.RemovedNameNeverReturns | docs/database_init.sql:37 | no later row has the removed entry's key |
| SessionEffects.ExactDoes | src/server/session.c:45-122 | for every way in which the queries of a packet work or fail, a command of the session model with those answers does to table and session exactly what is stated row by row for its packet |
| SessionEffects.RmTombsExactly | src/server/file_cmds.c:116-146 | with working queries rm of a live entry, file or directory, tombs exactly that row and no lookup finds the name any more |
| SessionEffects.MkdirMakesExactly | src/server/file_cmds.c:148-177 | mkdir of a name never used there makes exactly that directory, and of a used one changes nothing |
| SessionEffects.PutsMakesExactly | src/server/file_transfer.c:284-376 | puts makes exactly the entry of its file in the same way |
| SessionEffects.CdEnters | src/server/file_cmds.c:67-86 | `cd name` enters the live directory of that name, whose names to the root gain the name, or stays put |
| SessionEffects.CdUpLeaves | src/server/file_cmds.c:33-50 | `cd ..` goes to the parent of a directory not removed, and stays put otherwise |
| SessionEffects.CdRootReturns | src/server/file_cmds.c:52-64 | `cd /` ends in the user's root with the path "/" |
| SessionEffects.LoginEnters | src/server/session.c:52-67 | a login ends at the user's only root, made exactly when there was none |
| SessionEffects.RegisterEnters | src/server/session.c:69-81 | the same for a register |
| SessionEffects.MkdirThenCd | src/server/file_cmds.c:67-177 | mkdir of a free name and `cd` into it ends in the new directory, the path one name longer |
| SessionEffects.RmThenMkdirFails | docs/database_init.sql:37 | after rm, mkdir of the same name changes nothing |
| SessionRuns.TameRunsAgree | src/server/file_cmds.c:12-90 | a condition on the commands alone: over every run with slash-free mkdir and puts names, registers from logged-out clients only and `cd` arguments of fewer than 511 bytes a session in all, one byte more counted for each, every path is the walk from the root |
| SessionRuns.LoginOnTopBreaksOwnership | src/server/session.c:52-67 | a run from an empty server after which user 2 stands in user 1's root |
| SessionRuns.LookupCanBeAmbiguous | src/server/dao_vfs.c:363-406 | a run after which two live files answer one lookup, for every short name |
| SessionRuns.TwoRoots | src/server/dao_vfs.c:334-361 | a run after which user 1 has two roots |
| SessionRuns.LongPathFallsBehind | src/server/file_cmds.c:76-81 | a run in which `cd` moves the session and leaves the path |
| SessionRuns.RegisterLeavesPath | src/server/session.c:69-81 | a run in which a refused register moves the session to the root and leaves the path |
| SessionRuns.SlashNameMisleads | src/server/file_cmds.c:40-46 | a run after which a session at the root has the path "/a" |
| SessionHandlers.PathBuffer.Strip | src/server/file_cmds.c:40-46 | strrchr and cut in the 512-byte buffer give the stripped text |
| SessionHandlers.PathBuffer.Append | src/server/file_cmds.c:83-86 | the strcat calls give the appended text and stay in the buffer |
| SessionHandlers.Database.FindChildId | src/server/dao_vfs.c:363-406 | a live matching row, or -1 when there is none or the query fails |
| SessionHandlers.Database.GetParentId | src/server/dao_vfs.c:310-332 | the parent of a live row, -1 at a root, for a removed row or on failure |
| SessionHandlers.SessionState.HandleCd | src/server/file_cmds.c:12-90 | ids and buffer move as the session model says, with the answers the given queries give |
| SessionHandlers.SessionState.Dispatch | src/server/session.c:45-122 | for every way in which the queries work or fail, the login gate and the switch give each packet its effect on table and session, and serve it as a command of the session model |
| SessionHandlers.AnswersDoNotMatter | src/server/session.c:45-122 | the condition of `TameRunsAgree` depends on the packets alone, not on what the database answers |
| SessionHandlers.PacketsKeepPromises | src/server/session.c:29-124 | for packets of any clients in any order, whatever the answers: the forest stands and only grows, and tame packets keep every path right |
| SessionHandlers.HandleRequests | src/server/session.c:29-124 | connections served in any order of their packets, with queries working or failing in any way: every packet has its effect on the world it meets, and the whole is a run of the session model; so the table stays a forest that only grows, and after tame packets each 512-byte buffer reads the names from the root to that session's directory |
| Listing.Print | src/server/dao_vfs.c:482-482 | snprintf at a position: the text in full when it fits, cut and terminated otherwise, nothing before it touched |
| Listing.FillNames | src/server/dao_vfs.c:473-485 | the loop leaves the greedy prefix and one space, whatever was cut behind it |
| Listing.ListDir | src/server/dao_vfs.c:441-494 | succeeds exactly for a user, a directory, 5 bytes or more and a query that works, never overruns, and the C string left is ". .." and the greedy prefix of names |
| Listing.ListedIsGreedyPrefix | src/server/dao_vfs.c:480-485 | the first k names are shown in full exactly when their text and one byte more stay below the size |
| Listing.ShownReadsBack | src/server/dao_vfs.c:452-490 | split at its spaces, the text of names without spaces gives ".", ".." and the names back |
| Listing.ShownAt | src/server/dao_vfs.c:480-485 | any name stands in the text in full, in order, with one space in front |
| Listing.EveryEntryShownIff | src/server/dao_vfs.c:458-490 | every live entry of an owned directory is shown exactly when the whole text fits |
| Protocol.CommandRoundTrip | include/protocol.h:42-46 | decoding an encoded command struct gives it back |
| Protocol.FileRoundTrip | include/protocol.h:51-58 | decoding an encoded file struct gives it back, signed sizes included |
| Protocol.SendFull | src/common/protocol.c:54-73 | 0 exactly when everything was accepted; a prefix went out otherwise |
| Protocol.RecvFull | src/common/protocol.c:82-101 | exactly the next `len` bytes if the stream has them, failure otherwise |
| Protocol.RecvPacket | src/common/protocol.c:164-208 | the next packet of the kind, or failure for a short stream or a bad length field |
| Protocol.ReceivedIff | src/common/protocol.c:164-208 | any struct that arrives is taken exactly when its length field is in 0..255, unchanged but for the last text byte |
| Protocol.Framing | src/common/protocol.c:54-208 | a receiver gets exactly the packets that lie wholly in the bytes that reached it, in order and unchanged |
| Protocol.WholeIsMaximal | src/common/protocol.c:82-101 | those are as many as fit |
| Protocol.Exchange | src/common/protocol.c:54-208 | sending through the loops and receiving through the loops does that for every fragmentation and cut |
| Protocol.TextSurvives | src/common/protocol.c:108-124 | a text of up to 255 bytes arrives whole with its length, a longer one as its first 255 bytes |
| Upload.SendBody | src/client/client_command_handle.c:367-402 | the chunk loop sends the file from the offset up to a read that fails, or a prefix when cut |
| Upload.ClientPuts | src/client/client_command_handle.c:286-411 | what the client sends, as a function of what it is sent and of what its file does, and the exact condition of each way it ends |
| Upload.ClientResumes | src/client/client_command_handle.c:338-370 | the client resumes at the go-ahead's offset, from the start for one past the end, and sends nothing more for a negative one |
| Upload.ServerEnds | src/server/file_transfer.c:237-385 | every end of an announced upload, instant ones included, with its exact condition, what it leaves unread and what it sends |
| Upload.ReceiveBody | src/server/file_transfer.c:340-350 | the receive loop fills the mapping with the next bytes, up to its size |
| Upload.HandlePuts | src/server/file_transfer.c:237-362 | how the upload ends, what is stored and what is left unread, as a function of the bytes ahead and of what the disk does |
| Upload.ServeOne | src/server/session.c:35-108 | the command packet, the upload and its reply together |
| Upload.ServerStoresIff | src/server/file_transfer.c:340-362 | the upload is stored exactly when its last byte arrived, the server's file operations work and the go-ahead fits; then the blob is the file and the next command is what is left |
| Upload.OffsetIsZero | src/server/file_transfer.c:314-315 | the server always asks for the file from its start |
| Upload.StoredMeansWhole | src/server/file_transfer.c:340-385 | for every fragmentation, cut and file failure, an upload is stored exactly when all of it arrived and the server's operations work; it is the client's file and exactly its bytes were consumed |
| Upload.UploadCompletes | src/client/client_command_handle.c:338-411 | if nothing is cut and no file operation fails the upload is stored and both ends are at a command boundary |
| Download.TotalBlocksIff | src/server/file_transfer.c:53-55 | the block count is right exactly up to (2^31 - 1) blocks, over all 64-bit sizes |
| Download.BlockBounds | src/server/file_transfer.c:205-212 | each block has 1 to 10485760 bytes and ends where the next begins, the last at the end of the file |
| Download.BlocksTile | src/server/file_transfer.c:205-224 | for every start, the blocks concatenate to the rest of the file |
| Download.BlocksAre | src/server/file_transfer.c:205-224 | the blocks from one to another are the bytes of the file between their places |
| Download.SendFromExactly | src/server/file_transfer.c:204-224 | with a record or without, the blocks go out from the start up to the first send that fails, and a record ends at the last update that went through |
| Download.DownloadExactly | src/server/file_transfer.c:178-235 | the same for one whole download, which creates no record |
| Download.DeliveryIs | src/server/file_transfer.c:189-224 | what a download hands over is a stretch of the file from its start block on, all the rest of it exactly when the info packet and every send work |
| Download.SendBlock | src/server/file_transfer.c:60-94 | one block with the file's bytes at its place, or nothing |
| Download.SendBlocks | src/server/file_transfer.c:204-224 | consecutive blocks from the start until a send fails, each with its place and the file's bytes there, with the progress updates between |
| Download.HandleGets | src/server/file_transfer.c:175-235 | the whole download: its record, how many blocks and which bytes; up to the end of the file when the info packet and the sends work, whatever the record |
| Download.ProgressNeverRunsAhead | src/server/file_transfer.c:183-234 | over any downloads with any failures the stored sequence never passes the delivered prefix, and completed means all of it |
| Download.SharedNeverRunsAhead | src/server/file_transfer.c:183-234 | the same for any interleaving of any number of sessions downloading the entry |
| Download.EndsAtTotalIff | src/server/file_transfer.c:204-224 | the stored sequence ends at the block count exactly when every block from the start on was sent and the last update went through, or it was there and nothing was stored |
| Download.CompletedIff | src/server/file_transfer.c:228-234 | exactly when a download ends marked complete, in terms of which sends, reads and updates work |
| Download.NoRecordIsEverMade | src/server/file_transfer.c:178-187 | as written no record exists, every download starts at block 0, none completes |
| Store.OpenKeepsCompleteIff | src/server/file_transfer.c:305-311 | opening keeps the stored blobs complete exactly when no row's blob is in the opened place |
| Store.SecondUploadDestroys | src/server/file_transfer.c:283-306 | a run of an empty store, for every 64-byte hash: a second upload past its lookup empties the first one's stored blob |
| Store.StepKeepsInv | src/server/file_transfer.c:284-385 | with uploads into a place serialized, every step keeps each row's blob complete and unchanged |
| Store.OpenKeepsInvIff | src/server/file_transfer.c:283-311 | the invariant survives an open exactly when no row's blob and no other upload under way is in the opened place |
| Store.ByHashKeepsInvIff | src/server/file_transfer.c:269-306 | when only uploads of one hash text are serialized, exactly the opens without an alias keep it |
| Store.PlainHashesSuffice | src/server/file_transfer.c:25-27 | hashes without a slash have no alias |
| Store.AliasDestroys | src/server/file_transfer.c:25-27 | a run of an empty store, for every 62-byte name: two different accepted hashes open one file and the second empties the stored blob |
| Store.StoredForEver | src/server/file_transfer.c:284-385 | over every serialized run a row keeps its hash, size and complete blob, whichever names open one file |
| Store.HonestOverRuns | src/server/file_transfer.c:284-376 | if uploads announce true hashes, stored hashes are true |
| Store.EntryServesBlob | src/server/dao_vfs.c:550-584 | while the new entry is live, lookup finds it and nothing else, and it leads to the blob stored then |
| Store.PutThenGet | src/server/file_transfer.c:284-376 | a successful puts, instant ones included, then any such run, then gets of the live name: the download hands over the uploaded bytes from its start block on, all of them without a record when the info packet and the sends work |

## Left out

- Sockets, epoll, fork, pipe, signals as system calls, and log output: only accept, signal, broadcast, shutdown and the returns of send and recv appear, as steps.
- A send or recv that fails and later works again on the same connection, such as after an interrupted call: a failed direction stays failed in the model.
- A stale descriptor that has become something other than a client connection (a file or the database's own socket) by the time of exit.
- MySQL text building, quoting, collation and integer overflow of ids; the foreign keys to `users` and `files`. A query cut at its 512-byte buffer is one that fails.
- The `paths.path` column: it is written and never read. The same holds for `last_used_time` in the pool.
- The atomic steps assume that a thread has its database connection: a worker without one returns before serving.
- Password checks, `parse_auth_data` and the command-name lookup: a login's result is a parameter.
- The computation of SHA-256: the hash is an arbitrary function, with honesty and freedom from the one collision that matters as hypotheses of `PutThenGet`.
- The client side of `gets`, and `puts` when logged out or when the instant-upload reply comes: the two ends do not follow the same protocol there.
- The order of the rows in a listing: names are taken in the order the query returns them.
- `mmap` and page behaviour; the mapping is an array. The packet structs are values, not memory written in place.
- The wait inside `db_pool_get_connection` is a step of the thread system; the class has the rounds before and after it.
- `db_pool_get_stats`, `db_pool_destroy`, `destroy_thread_pool`, shrinking and idle times of the pool, `src/server/path_utils.c`, `src/common/config.c`.
- The text of the replies: a reply is any message.
- Store.StepKeepsInv: holds for serialized uploads of one file, because the code does not serialize them; `OpenKeepsInvIff` shows that the condition is exact, `SecondUploadDestroys` and `AliasDestroys` what happens without it.
- Store.PlainHashesSuffice: resolves slashes and "." components only; a name with a ".." component or a link in the storage directory is covered by the other results, which hold for every resolution.
- DbPool.Pool.constructor: leaves out sizes for which init writes outside its array, which has no defined behaviour; `InitFitsIff` and `CallSiteDoesNotFit` say when that is.
- DbPoolSystem.NoWakeupIsLost: excludes runs with a signal-consuming timeout that leaves no woken thread to spare, because the code does not look again; `WakeupIff` shows that the exclusion is exact.
- Store.PutThenGet: assumes that the other sessions keep entries with their directories' owners, which `Sessions.OwnershipOverRuns` proves of every run without a login on top of another user's session.
- Download.HandleGets: stated for sizes up to `MAX_SIZE`, because `TotalBlocksIff` shows that the block count itself is wrong above.
- Download.ProgressNeverRunsAhead: is about a record that exists, because the code as written never creates one.
