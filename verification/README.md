# zorge_sms: a verified model

zorge_sms is a UDP message server in C++ with Java clients. A number is an account with a pin, an optional
token and a block of message records; clients send one command at a time, poll for its reply and send it
again when the server has lost it. This project models the parts whose correctness spans many steps and
proves what they promise.

| part | files |
|---|---|
| request/reply protocol over a network that loses, delays, reorders and may duplicate datagrams | `Protocol`, `ProtocolSafety`, `ProtocolOnce`, `ProtocolLive`, `ProtocolCache`, `SeqNum` |
| reply cache with pruning, work queue | `OpenConsCache`, `CacheLaws`, `WorkQueue`, `Listener` |
| message block: records, counters, tombstones, compaction, file | `MsgBlock`, `BlockInPlace`, `BlockRuns`, `BlockMailbox`, `BlockFile`, `BlockFresh`, `BlockMeant`, `BlockCold`, `BlockLayout` |
| locker, account cache, block cache under any number of threads | `AccountLocks`, `AccountDelivery`, `CacheItems`, `AccountCache`, `BlocksCache`, `StorageSteps`, `AccountLoss` |
| string buffer | `Strings`, `ZorgeString` |
| configuration file, accounts | `Config`, `ConfigRoundTrip`, `ConfigText`, `Account`, `AccountRuns` |
| numbers as folders | `NumberTree`, `NumberStore` |
| requests, replies, the read reply | `Request`, `RequestRoundTrip`, `RequestMemory`, `ReadReply` |
| bytes and filters | `Bytes`, `Filters` |

Code that changes state in place is a class here, with methods proved against functions on values; what the
source promises is then proved about those functions, over whole runs where it is a promise about runs. The
concurrent parts are state machines whose steps are the critical sections of the source.

## How the model relates to the code

The code is modelled as written. Where it departs from what it evidently means to do, the theorem says
exactly when the meaning holds:

- `ReadMessage` stores the status byte of record i at record i + 1 (Core/MsgBlock.cpp:571), so the first read of a message always leaves a file that differs from memory (`BlockFile.FirstReadBreaksMirror`), and reloading then can wrap the new counter (`BlockFile.RereadAfterReloadWraps`).
- `Compress` does not truncate the file (Core/MsgBlock.cpp:710-720), so the next record may be appended behind stale bytes (`BlockFile.AppendMirror`, an equivalence, and `BlockFresh.AddAfterCompactionBreaksMirror`); `BlockFresh.RunInPlace` says for every run whether file and memory ever part, and `BlockMeant.RunMeantMirrors` proves that with both repairs they never do.
- `Add` loads the header only (Core/MsgBlock.cpp:318-337), so a message for a block that was evicted and found again (Core/Account.cpp:332-346) goes behind records that are not in memory (`BlockCold.ColdAddRight` and `BlockCold.ColdWriteInBounds`, equivalences; `BlockCold.AddEvictAdd`, a run); with the records loaded first no eviction can be observed (`BlockMeant.EvictionInvisible`).
- `LoadAllRecords` asks for the whole size again after a short read (Core/MsgBlock.cpp:402); it stays in its buffer for every pattern of short reads exactly when nothing follows the records (`BlockFile.LoadSafeForAllReads`).
- `AddNumber` releases the cache item before it stops using the account (Core/Storage.cpp:500-503); a deletion by another thread that trims the cache evicts the account in between if it is among the oldest third (`AccountLoss.DeleteWhileCreating`, both directions; `AccountLoss.LosingRun`, a run).
- A comment in the client says that a text with the separator breaks parsing (ZsClient.java:72-74). It does not: only a text of bare separators is lost (`ReadReply.ReadRoundTrip`).
- The server does not look at the result of a decryption (zsd/src/UdpServer.cpp:583, Core/CoderAES.cpp:400-424) and decodes its buffer: a request whose last block was altered is taken for the one that was sent (`RequestMemory.AlteredLastBlock`, with the exact condition for its text).
- The end of a text is searched beyond the packet, or beyond the decrypted bytes, when no zero byte is in it (Core/ZorgeString.cpp:1079); that shows exactly when its length does not end it either (`RequestMemory.OnlyThePacket`, an equivalence).
- The decoder takes a length of 0 for "up to the next zero byte" (Core/ZorgeString.cpp:1079-1081), so an encrypted request with an empty text reads whatever the buffer held (`RequestRoundTrip.SecretRoundTrip`, an equivalence).

What the model takes as given: ciphers are parameters. A block transform that inverts itself on whole blocks
(`Request.Sound`; where data was altered also block by block, `Request.BlockWise`; both shown to be
satisfiable by `RequestRoundTrip.SoundCoderExists`), with the padding of section 6.3 of RFC 5652 modelled on
top of it; and, for accounts, an encrypted id that decrypts under its own pin only (`Account.Sound`, shown
to be satisfiable). Message ids are fresh, clocks do not go back, and clients use fewer than 2^17 calls
within one connect. Times, generated ids and the results of the storage behind a command are parameters of
the operations.

## Model

| member | source | states |
|---|---|---|
| SeqNum.WireDistinct | zsc/src/main/java/com/zs/client/client/ComClient.java:224-240 | with any odd or even step from 1 to 0xDEAD, two calls fewer than 2^17 apart never use the same 32-bit sequence number, wherever the numbering starts |
| SeqNum.WindowIsTight | zsc/src/main/java/com/zs/client/client/ComClient.java:224-240 | 2^17 cannot be raised: with step 2^15, calls exactly 2^17 apart share their number |
| ProtocolSafety.InvStep | zsd/src/UdpServer.cpp:683-988 | every step of client, worker, cache and network keeps the safety invariant |
| ProtocolSafety.AcceptedWasComputed | zsc/src/main/java/com/zs/client/client/ComClient.java:215-397 | in every run with loss, delay, reordering and duplication, a reply that Send returns, text or error, was computed by an execution of that client, that sequence number and that command |
| ProtocolSafety.CacheJustified | zsd/src/UdpServer.cpp:698-951 | every Done entry of the reply cache holds the reply of a finished execution; for every InProcessing entry some worker is between Add and Update, so no client polls a dead entry |
| ProtocolOnce.AtMostOnce | zsd/src/UdpServer.cpp:683-988 | without duplicated datagrams no sequence number is executed twice, in any run |
| ProtocolOnce.AcceptedExecutions | zsc/src/main/java/com/zs/client/client/ComClient.java:215-330 | a Send that returned caused at least one and at most maxResendTimes executions |
| ProtocolOnce.PendingExecutions | zsc/src/main/java/com/zs/client/client/ComClient.java:215-330 | a Send caused at most maxResendTimes executions, counted at any later time: also after it gave up, and however late a worker executes what it asked for |
| ProtocolLive.ResendIsJustified | zsc/src/main/java/com/zs/client/client/ComClient.java:293-310 | in every run a command is sent again only after a worker answered a poll for its current number while the cache had no entry of the client with it; "in process" never makes a client send again |
| ProtocolLive.DirectReplyArrives | zsc/src/main/java/com/zs/client/client/ComClient.java:236-290 | from every state with the client idle and a worker free some steps end a Send with the reply of its command, any text or error |
| ProtocolLive.PolledReplyArrives | zsc/src/main/java/com/zs/client/client/ComClient.java:283-330 | when that reply is lost on the way, a poll ends the Send with it, executed once |
| ProtocolLive.ResentReplyArrives | zsc/src/main/java/com/zs/client/client/ComClient.java:215-330 | when the cache has lost it too, a second command ends the Send, at the second attempt |
| ProtocolCache.StoreMatches | zsd/src/OpenConsCache.cpp:60-248 | any call of the real cache, with its pruning, does to the unexpired entries what the protocol model does to its cache, and lets entries go |
| ProtocolCache.FindMatches | zsd/src/OpenConsCache.cpp:156-182 | the reply built from Find of the real cache is the reply the protocol model builds from the unexpired entries |
| ProtocolCache.CleanKept | zsd/src/OpenConsCache.cpp:60-248 | every call keeps the cache clean: no entry for a refused id, none without a status, nothing of a reply before it is there |
| ProtocolCache.Serve | zsd/src/UdpServer.cpp:650-951 | a worker that calls Add, Update or Find of the cache object takes one event of the protocol over the real cache |
| ProtocolCache.RunIsProtocolRun | zsd/src/UdpServer.cpp:650-951 | the states of every run of clients, workers, network and the real cache, under a clock that does not go back and with pruning whenever it likes, are states of one run of the protocol model with expiry steps put in, in the same order |
| ProtocolCache.AcceptedWasComputedHere | zsc/src/main/java/com/zs/client/client/ComClient.java:215-397 | so with the real cache too a reply that Send returns was computed by an execution of exactly that call |
| ProtocolCache.AtMostOnceHere | zsd/src/UdpServer.cpp:683-988 | and without duplicated datagrams no sequence number is executed twice |
| ProtocolCache.CacheJustifiedHere | zsd/src/UdpServer.cpp:698-951 | an entry of the real cache that has not expired holds the reply of a finished execution, or some worker is between Add and Update |
| ProtocolCache.AcceptedExecutionsHere | zsc/src/main/java/com/zs/client/client/ComClient.java:215-330 | a Send that returned caused between one and maxResendTimes executions, with the real cache |
| ProtocolCache.PendingExecutionsHere | zsc/src/main/java/com/zs/client/client/ComClient.java:215-330 | a Send caused at most maxResendTimes executions at any later time, with the real cache |
| OpenConsCache.PruningInvisible | zsd/src/OpenConsCache.cpp:60-248 | for every sequence of calls with a clock that never goes back, every Find gives the status, reply and error flag of a map that never removes anything, whenever pruning runs or declines |
| CacheLaws.StoredReplyIsFound | zsd/src/OpenConsCache.cpp:107-182 | in every run of calls, whatever other clients do and whenever pruning runs, a reply stored by Update is what Find answers for less than the life time, until the client stores again |
| CacheLaws.StartedIsInProcess | zsd/src/OpenConsCache.cpp:60-182 | after Add the same with "in process" |
| CacheLaws.AskingKeepsAlive | zsd/src/OpenConsCache.cpp:156-182 | a Find that hit makes a later one within the life time answer the same |
| CacheLaws.SilenceExpires | zsd/src/OpenConsCache.cpp:156-182 | a client that does not call for the life time is not found |
| CacheLaws.OtherNumberIsNotFound | zsd/src/OpenConsCache.cpp:156-172 | only the number stored last is found |
| CacheLaws.UnknownIsNotFound | zsd/src/OpenConsCache.cpp:156-166 | a client that was never added or updated is not found |
| CacheLaws.AnyCalls | zsd/src/OpenConsCache.cpp:60-182 | the runs this is about: any ids of 32 bytes without a zero byte, at any times that do not go back |
| OpenConsCache.StepSimilar | zsd/src/OpenConsCache.cpp:60-248 | one call keeps the pruned and the unpruned map alike on everything unexpired and answers alike |
| OpenConsCache.COpenConsCache.Add | zsd/src/OpenConsCache.cpp:60-102 | the in-place Add, with its pruning, does the call of the specification |
| OpenConsCache.COpenConsCache.Update | zsd/src/OpenConsCache.cpp:107-151 | the in-place Update, with its pruning, does the call of the specification |
| OpenConsCache.COpenConsCache.Find | zsd/src/OpenConsCache.cpp:156-182 | the in-place Find returns and refreshes what the specification says |
| OpenConsCache.COpenConsCache.RemoveExpired | zsd/src/OpenConsCache.cpp:205-248 | removes exactly the expired entries, or declines because it ran too recently |
| WorkQueue.FirstInFirstOut | zsd/src/UdpServer.cpp:307-464 | with any number of workers the requests taken are those that arrived below the limit, each once and in order of arrival, up to those still queued; at most 30001 are queued; a blocked worker means an empty queue |
| WorkQueue.NoLostWakeup | zsd/src/UdpServer.cpp:399-464 | while a request waits, every idle worker is at most one step of its own from the queue |
| WorkQueue.AcceptedUpToLimit | zsd/src/UdpServer.cpp:307-347 | a request is queued behind the others while no more than 30000 wait, waking the blocked workers, and turned away otherwise |
| Listener.OnDatagram | zsd/src/UdpServer.cpp:269-300 | a datagram is queued if it has at least 45 bytes, or 13, and the queue is not over its limit; any other is dropped |
| WorkQueue.CUdpServerQueue.AddToQueue | zsd/src/UdpServer.cpp:307-347 | the in-place queue takes the Enqueue step: refuses above the limit, otherwise appends and wakes all |
| WorkQueue.CUdpServerQueue.WaitForWork | zsd/src/UdpServer.cpp:399-420 | the outer critical section of a worker |
| WorkQueue.CUdpServerQueue.Take | zsd/src/UdpServer.cpp:420-464 | the inner critical section: hands the front request to this worker only |
| MsgBlock.IsCompressIsIntegral | Core/MsgBlock.cpp:163-173 | for all 32-bit counts the percentage test is the integer test total >= 512 and 5 * deleted > 4 * total |
| BlockRuns.IsCompressRounded | Core/MsgBlock.cpp:163-173 | any rounding of the percentage, a value from 0 to 100, that keeps order and the value 80 and moves nothing by 1/64 or more decides the same way |
| BlockRuns.SinglePrecisionRounds | Core/MsgBlock.cpp:163-173 | rounding to multiples of 2^-17, as single precision has them below 128, is such a rounding |
| BlockRuns.StepExact | Core/MsgBlock.cpp:304-660 | every operation keeps the three counters equal to the numbers of all, new and deleted records, without underflow |
| BlockRuns.Conservation | Core/MsgBlock.cpp:304-660 | over any run, accepted messages are the live ones plus the successful deletions |
| BlockRuns.AddFailsExactlyWhenFull | Core/MsgBlock.cpp:323-341 | Add reports no space if and only if 1024 messages are live |
| BlockRuns.AmortisedCost | Core/MsgBlock.cpp:646-724 | over any run, four times the records copied by deletions plus the current tombstones never exceed the successful deletions |
| BlockRuns.TombstoneStays | Core/MsgBlock.cpp:626-651 | a deleted message is reported as deleted when it is deleted again or read, unless the block holds at least 512 records of which more than 80 percent are deleted; then every tombstone goes |
| BlockMailbox.RunRefinesMailbox | Core/MsgBlock.cpp:304-660 | every run from an empty file replies as a plain mailbox does, up to a compacted tombstone reported as unknown, and both listings after it are the mailbox's |
| BlockMailbox.StepRefines | Core/MsgBlock.cpp:304-660 | one operation keeps the refinement and its reply agrees; "was deleted" is reported exactly while the tombstone is there |
| BlockMailbox.GetIdsRefines | Core/MsgBlock.cpp:459-523 | GetIds lists exactly the live messages, or exactly the unread ones, in arrival order; so the early exit is sound |
| BlockMailbox.CompressRefines | Core/MsgBlock.cpp:665-724 | Compress cannot be observed through the mailbox |
| BlockFile.AppendMirror | Core/MsgBlock.cpp:323-351 | an appended record keeps file and memory equal if and only if the file ends with the records, or stale bytes spell the same record |
| BlockFile.FirstReadBreaksMirror | Core/MsgBlock.cpp:566-607 | the first read of a message always breaks the mirror, and what exactly a reload would see |
| BlockFile.RereadAfterReloadWraps | Core/MsgBlock.cpp:566-573 | after a reload in that state the new counter wraps below zero |
| BlockFile.CompressMirror | Core/MsgBlock.cpp:698-724 | compaction restores the mirror whatever the file held |
| BlockFile.StepMirror | Core/MsgBlock.cpp:304-660 | an operation keeps the mirror if and only if its guard holds |
| BlockFile.RunMirror | Core/BlocksCache.cpp:288-348 | file and memory agree after every operation of a run, so that it can be dropped from the cache and reloaded anywhere, if and only if every operation meets its guard |
| BlockFresh.AppendMirrorFresh | Core/MsgBlock.cpp:323-351 | under fresh ids an appended record keeps file and memory equal if and only if the file ends with the records |
| BlockFresh.AddAfterCompactionBreaksMirror | Core/MsgBlock.cpp:318-351 | an Add of a new id that has to compact first always succeeds and always breaks the mirror |
| BlockFresh.StepTidy | Core/MsgBlock.cpp:304-660 | an operation keeps the mirror if and only if it reads no unread message and adds only where the file ends with the records; while it does, the file stays whole records of known ids |
| BlockFresh.RunInPlace | Core/BlocksCache.cpp:288-348 | from an empty file with fresh ids, file and memory agree after every operation of a run if and only if each of them passes that look at the length of the file and the status of the message |
| BlockMeant.StepMeantInStep | Core/MsgBlock.cpp:566-724 | with the status stored at its own record and the file cut by Compress, every operation keeps the file equal to memory |
| BlockMeant.RunMeantMirrors | Core/MsgBlock.cpp:566-724 | after any run of that variant from an empty file: replies and memory of the code, a file that mirrors memory and reloads to it under any pattern of short reads |
| BlockMeant.EvictionInvisible | Core/Account.cpp:332-346 | with the records loaded before every operation as well, evictions anywhere in a run and any short reads cannot be observed: the replies and the block are those of the code on a block that never leaves memory |
| BlockFile.LoadSafeForAllReads | Core/MsgBlock.cpp:395-414 | the load loop stays inside its buffer for every pattern of short reads if and only if the file holds nothing beyond the records |
| MsgBlock.AnyReadLen | Core/MsgBlock.cpp:398-412 | the short reads that the load theorems quantify over are all there are: a call may return any number of bytes that it was asked for and the file has |
| BlockFile.MirrorLoads | Core/MsgBlock.cpp:364-414 | a mirrored file always loads without short reads, and with any of them if and only if it ends at the records |
| BlockFile.Reload | Core/MsgBlock.cpp:186-207 | a fresh object reloads a mirrored block from its file |
| BlockLayout.FileBytes | Core/Includes/MsgBlock.h:28-44 | where a mirrored file holds version, counters and records, byte by byte |
| BlockLayout.RecordBytes | Core/Includes/MsgBlock.h:37-44 | where a new record holds status, time, sender and message id, padded with zeros |
| BlockLayout.StatusBytes | Core/Includes/MsgBlock.h:14-17 | reading and deleting change the status byte to 2 and 3 and nothing else of the record |
| BlockLayout.LineLetters | Core/Includes/MsgBlock.h:19-21 | listings show N for a message not yet read and R for one that was |
| BlockLayout.HeaderBytes | Core/Includes/MsgBlock.h:28-35 | the thirteen bytes of a header: version 1, then total, new and deleted |
| BlockLayout.LowByteFirst | Core/Includes/MsgBlock.h:28-44 | numbers are stored with the low byte first |
| BlockInPlace.CMsgBlock.Add | Core/MsgBlock.cpp:304-351 | with the records in memory the in-place Add computes the specified block, file and reply; with the header alone, readable or not, what it replies and leaves in memory and file, up to a write outside the buffer; accounts for memory and handle |
| BlockCold.ColdAddRight | Core/MsgBlock.cpp:318-351 | with the header alone loaded Add is right, whatever the new buffer held, if and only if there are no records, the arguments are refused, or 1024 messages are live |
| BlockCold.ColdWriteInBounds | Core/MsgBlock.cpp:278-299 | and its write stays inside the buffer if and only if the file holds fewer than ten records |
| BlockCold.ColdRefusesWithSpace | Core/MsgBlock.cpp:318-337 | a full block with tombstones takes a message with its records loaded and refuses it with the header alone |
| BlockCold.ColdAddHidesMessages | Core/MsgBlock.cpp:318-351 | over zeroed memory such an Add hides every earlier message from GetIds |
| BlockCold.AddEvictAdd | Core/Account.cpp:332-346 | the run: a message, an eviction, another message; the in-place objects then list the second one only |
| BlockInPlace.CMsgBlock.Destruct | Core/MsgBlock.cpp:112-130 | takes handle and memory off the totals |
| BlockInPlace.CMsgBlock.GetOffsetForNextRecord | Core/MsgBlock.cpp:278-299 | grows by ten records when needed, keeps the records and the memory count |
| BlockInPlace.CMsgBlock.LoadAllRecords | Core/MsgBlock.cpp:364-414 | for every file, buffer and pattern of short reads: an unreadable header, a read past the buffer exactly when the lengths say so, or the records of the file over what the buffer held; a buffer that is too small is left behind and stays counted |
| BlockInPlace.CMsgBlock.LoadHeader | Core/MsgBlock.cpp:186-207 | reads the 13-byte header or reports it unreadable |
| BlockInPlace.CMsgBlock.Compress | Core/MsgBlock.cpp:665-724 | the in-place compaction keeps the live records in order and recounts; its branch for a wrong count is taken exactly when no record is deleted though the counter says so, and never while the counters are exact |
| BlockInPlace.CMsgBlock.ReadMessage | Core/MsgBlock.cpp:528-579 | the in-place read loads first if nothing is in memory, reports a load that fails or leaves the buffer, and otherwise computes the specified block, file and reply |
| BlockInPlace.CMsgBlock.DeleteMessage | Core/MsgBlock.cpp:613-660 | the in-place delete loads first if nothing is in memory, reports a load that fails or leaves the buffer, and otherwise computes the specified block, file and reply |
| BlockInPlace.CMsgBlock.GetIds | Core/MsgBlock.cpp:459-523 | the same for the listing: the loop over records gives the specified lines once the load has succeeded |
| BlockInPlace.CMsgBlock.UsableLoads | Core/MsgBlock.cpp:364-414 | a block whose file holds its records and nothing the load loop stores past the buffer loads to the value the file stands for |
| BlockInPlace.CMsgBlock.GetCount | Core/MsgBlock.cpp:444-454 | total and new counts of the header, loaded or readable; no record is needed |
| BlockInPlace.CMsgBlock.CloseHandler | Core/MsgBlock.cpp:135-143 | closes the handle, counts it, and changes nothing a caller sees |
| AccountLocks.InvStep | Core/Storage.cpp:466-888 | every critical section of every storage operation keeps lock tables and program counters in step |
| AccountLocks.LockedItemsAreCovered | Core/Storage.cpp:466-888 | in every reachable state a locked account or block item implies that the same thread holds the number's locker entry |
| AccountLocks.FindNeverWaits | Core/AccountCache.cpp:300-335 | no search meets an item another thread locked, no insertion meets an existing key |
| AccountLocks.MutualExclusion | Core/AccountLocker.cpp:31-70 | two threads never hold the same number; a thread that waits for an entry holds none |
| AccountLocks.DeadlockFree | Core/Storage.cpp:638-678 | in every reachable state, SendMsg to oneself included, a holder can go on and a waiter is held up by a holder that can |
| AccountDelivery.SendDelivers | Core/Storage.cpp:638-678 | in every run a SendMsg that has checked its sender locks the receiver, itself included, before it ends |
| AccountDelivery.DeliveryWasChecked | Core/Storage.cpp:655-678 | in every run SendMsg locks nothing of the receiver before it has held the sender's account and released it as good: an unknown sender or a wrong pin delivers nothing |
| AccountDelivery.MissingNumberEnds | Core/Storage.cpp:510-522 | an operation on a number that is not cached can end at once, reporting failure and changing nothing but where it is |
| AccountDelivery.Outcome | Core/Storage.cpp:475-700 | an operation reports success only from its last step, or as the account decided |
| AccountDelivery.SendCanDeliver | Core/Storage.cpp:669-678 | from every reachable state, if no other thread holds the receiver, its own steps lead it to the receiver's block |
| AccountDelivery.MailCanStart | Core/Storage.cpp:683-765 | an operation on messages gets to the block of its number by its own steps if nobody holds that |
| AccountDelivery.HolderCanFinish | Core/Storage.cpp:466-888 | a holder can give its entry back by its own steps alone, and then locks no account and no block |
| AccountDelivery.DeletionEmptiesCaches | Core/Storage.cpp:526-559 | in every run a deletion ends with neither account nor block of its number cached |
| AccountLocks.HolderProgress | Core/Storage.cpp:466-888 | each step of a holder brings it closer to unlocking; no other thread undoes it |
| AccountLocks.UsedAccountIsLocked | Core/Storage.cpp:490-503 | an account in use is cached and locked by its user except in AddNumber after its Release |
| AccountCache.EvictedByAge | Core/AccountCache.cpp:251-295 | an unlocked account is evicted if fewer others than a third of the cache were used no later, and only if fewer than a third were used before it |
| AccountLoss.DeleteWhileCreating | Core/Storage.cpp:500-503 | the deletion of a number by another thread evicts the account AddNumber still uses if it trims the cache and the account is among the oldest third, and only then; it is one DeleteAcc step and its EvictAcc steps |
| AccountLoss.LosingRun | Core/AccountCache.cpp:175-295 | a run of two threads over a cache object of any size, all its calls steps from the start state, at whose end AddNumber uses an account that is no longer cached |
| AccountLocks.CAccountLocker.TryLock | Core/AccountLocker.cpp:31-55 | one turn of the lock loop |
| AccountLocks.LockerStep | Core/AccountLocker.cpp:31-70 | the locker object moves with the state machine |
| CacheItems.SortedSorts | Core/AccountCache.cpp:244-273 | the sort before an eviction is ascending by last access and a permutation |
| AccountCache.CAccountCache.Find | Core/AccountCache.cpp:300-335 | one turn: got exactly when the item is unlocked or locked by the caller, then locked by the caller |
| AccountCache.CAccountCache.AddAndLock | Core/AccountCache.cpp:159-170 | inserts a locked item, and nothing when the key exists |
| AccountCache.CAccountCache.Delete | Core/AccountCache.cpp:175-225 | one turn: removes a usable item, counts it, and trims the cache every maxItems / 2 deletions |
| AccountCache.CAccountCache.Release | Core/AccountCache.cpp:251-295 | evicts exactly min(size / 3, unlocked) accounts, the oldest unlocked ones, never a locked one |
| AccountCache.OldestFirst | Core/AccountCache.cpp:271-295 | the first keys of the sorted list are such a set |
| BlocksCache.CBlocksCache.ReleaseHandles | Core/BlocksCache.cpp:288-348 | at the handle limit closes, or drops when memory is full, exactly min(open / 2, unlocked open) blocks, and keeps both global counters exact |
| BlocksCache.ReleaseSparesLocked | Core/BlocksCache.cpp:305-348 | a release leaves every locked item as it is and locks nothing; what it releases is closed, or gone if memory was full, and the rest is accessed only |
| BlocksCache.CBlocksCache.AddAndLock | Core/BlocksCache.cpp:153-173 | inserts a fresh locked block, an existing key keeps its own; every 513th insertion releases handles first; counters stay exact |
| BlocksCache.CBlocksCache.Find | Core/BlocksCache.cpp:226-262 | one turn: got exactly when usable, then locked by the caller; counters unchanged |
| BlocksCache.CBlocksCache.Delete | Core/BlocksCache.cpp:178-221 | one turn: removes a usable item with its handle and memory |
| BlocksCache.CBlocksCache.BlockCounts | Core/MsgBlock.cpp:112-299 | if a block object counts its own change of handle and memory, the shared counters stay the sums over all cached blocks |
| BlocksCache.CBlocksCache.StoreMessage | Core/Account.cpp:332-346 | adding a message to a held block, its records loaded or not, keeps the two counters the sums over all cached blocks |
| BlocksCache.CBlocksCache.GetMsgCount | Core/Account.cpp:287-306 | asking a held block for its counts gives those of its header and keeps the counters the sums over all cached blocks |
| BlocksCache.CBlocksCache.GetIds | Core/Account.cpp:371-388 | listing a held block, loading it first if needed, gives the specified lines or the failed load, and keeps the counters the sums over all cached blocks |
| BlocksCache.CBlocksCache.ReadMessage | Core/Account.cpp:393-411 | reading from a held block gives the specified reply or the failed load, and keeps the counters the sums over all cached blocks |
| BlocksCache.CBlocksCache.DeleteMessage | Core/Account.cpp:416-433 | deleting from a held block gives the specified reply or the failed load, and keeps the counters the sums over all cached blocks |
| BlocksCache.CBlocksCache.Close | Core/MsgBlock.cpp:135-143 | closing the handle of a block takes it off the counters |
| BlocksCache.CBlocksCache.Collect | Core/BlocksCache.cpp:303-313 | the scan over the entries in place: each unlocked open block once, unlocked entries refreshed |
| Strings.ReplacedIsLeftmost | Core/ZorgeString.cpp:861-952 | replacing cuts the text at the leftmost, non-overlapping occurrences and joins the same pieces with the target; their number is the count |
| Strings.LeftmostUnique | Core/ZorgeString.cpp:861-952 | that cut is unique |
| Strings.ReplacedLength | Core/ZorgeString.cpp:898-908 | the size of the new buffer: length plus count times the difference of the lengths |
| ZorgeString.CZorgeString.Replace | Core/ZorgeString.cpp:861-952 | all three paths give the leftmost replacement, every copy in bounds, and keep used < alloc with a terminator |
| ZorgeString.CZorgeString.ReplaceInPlace | Core/ZorgeString.cpp:876-897 | the path for equal lengths, in place |
| ZorgeString.CZorgeString.ReplaceInCopy | Core/ZorgeString.cpp:898-952 | the paths for longer and shorter targets; the new buffer is always large enough |
| ZorgeString.CZorgeString.CountForReplace | Core/ZorgeString.cpp:830-854 | counts the occurrences that will be replaced |
| ZorgeString.CZorgeString.SetData | Core/ZorgeString.cpp:1069-1110 | takes over the prefix asked for, null and empty included, and keeps the invariant |
| ZorgeString.CZorgeString.AppendData | Core/ZorgeString.cpp:85-121 | appends in place or in a new buffer and keeps the invariant; the length counts only while nothing is allocated |
| Strings.TrimmedIsTight | Core/ZorgeString.cpp:370-440 | Trim removes white space only, all of it, at both ends |
| ConfigText.TrimsToWord | Core/ZorgeString.cpp:370-440 | tab, vertical tab, form feed, carriage return and space around a word go, and nothing else |
| ZorgeString.CZorgeString.Trim | Core/ZorgeString.cpp:436-440 | the two in-place scans give the trimmed text |
| ZorgeString.CZorgeString.TrimLeft | Core/ZorgeString.cpp:398-431 | shifts the rest to the front and terminates it |
| ZorgeString.CZorgeString.TrimRight | Core/ZorgeString.cpp:370-393 | cuts trailing white space; the scan stays in its buffer if and only if the text is empty or not white space only |
| Strings.TokensJoin | Core/ZorgeString.cpp:1121-1144 | ending every token with the separator gives the text back, with one separator more if it did not end with one; no token holds the separator |
| ZorgeString.CZorgeString.Split | Core/ZorgeString.cpp:1121-1144 | the scan gives these tokens |
| ConfigRoundTrip.RoundTrip | Core/Config.cpp:53-163 | when every parameter has a value, print then parse gives the same list; the first comment is unchanged, each later one gains one leading newline |
| ConfigRoundTrip.RoundTripValues | Core/Config.cpp:53-163 | print then parse keeps exactly the parameters with a value, in order |
| ConfigRoundTrip.RoundTripLookups | Core/Config.cpp:178-191 | every lookup that falls back to the empty string is preserved, empty values included |
| ConfigRoundTrip.ParseKeepsGood | Core/Config.cpp:75-122 | what a load gives back can be saved and loaded again |
| ConfigRoundTrip.SetKeepsGood | Core/Config.cpp:209-232 | setting a parameter to one line of text keeps the configuration printable and parsable |
| ConfigRoundTrip.PairLine | Core/Config.cpp:53-70 | a printed parameter reads back as its name and value, or as a comment line if the value is empty |
| ConfigText.PairIsRead | Core/Config.cpp:75-122 | a line with name, = and value, with white space of any of five kinds around each, sets exactly that parameter |
| ConfigText.RemarkSetsNothing | Core/Config.cpp:85-104 | a line that starts with #, or holds no =, sets nothing |
| ConfigText.OverlongIsDropped | Core/Config.cpp:106-114 | a name over 128 bytes or a value over 1024 sets nothing |
| ConfigText.FileIsReadInOrder | Core/Config.cpp:75-122 | what follows a parameter line is read as if it stood alone |
| ConfigText.CommentIsKept | Core/Config.cpp:85-122 | a comment belongs to the parameter below it |
| ConfigText.FirstCommentStays | Core/Config.cpp:106-122 | a parameter that comes again keeps its first comment |
| Config.CConfig.FromString | Core/Config.cpp:75-122 | the line loop computes the specified parse |
| Config.CConfig.ToString | Core/Config.cpp:147-163 | the printing loop computes the specified text |
| Config.CConfig.GetValue | Core/Config.cpp:178-191 | the first parameter of that name |
| Config.CConfig.SetValue | Core/Config.cpp:209-232 | updates the first parameter of that name or appends one; refuses what is too long |
| Config.StoredAtFirst | Core/Config.cpp:209-232 | of several parameters of one name the first is changed, where it stands, and nothing else |
| Config.StoredAtEnd | Core/Config.cpp:209-232 | a new name goes to the end |
| AccountRuns.VerdictsAgree | Core/Account.cpp:181-213 | after any run of pin changes, token changes, checks and evictions, every pin and token gets the true verdict from the cached account and from one loaded anew |
| AccountRuns.StepFits | Core/Account.cpp:466-561 | each operation keeps the cached account and its file true to the pin and the token |
| AccountRuns.SavedFits | Core/Account.cpp:115-154 | an account loaded from what was saved is as true as the one that saved it |
| AccountRuns.SoundCipherExists | Core/CoderAES.cpp:328-361 | the assumption on the cipher can be met |
| AccountRuns.FreshGrants | Core/Account.cpp:181-207 | a fresh account grants a pin exactly if it is the token of a message or the file has an Id that decrypts under it; without Id and token it grants nothing |
| AccountRuns.RememberedGrants | Core/Account.cpp:181-213 | an account that remembers a pin grants that one, and its token for a message |
| AccountRuns.CreatedText | Core/Account.cpp:60-110 | the file of a new account, byte by byte |
| Account.CAccount.Create | Core/Account.cpp:60-110 | the object and the configuration file of a new number |
| Account.CAccount.Load | Core/Account.cpp:115-154 | the object loaded from a configuration file |
| Account.CAccount.CheckPin | Core/Account.cpp:181-213 | computes the specified verdict and remembers pin and token |
| Account.CAccount.ChangePin | Core/Account.cpp:466-501 | checks the pin, stores an id under the new one, writes the file only on a change |
| Account.CAccount.NewToken | Core/Account.cpp:536-541 | remembers and stores the token |
| Account.CAccount.DeleteToken | Core/Account.cpp:546-550 | forgets the token and stores an empty one |
| Account.CAccount.CheckToken | Core/Account.cpp:555-561 | accepts exactly the remembered token, never the empty one |
| NumberStore.RunRefines | Core/Storage.cpp:466-559 | over any run of adding, storing and deleting, each number sees exactly its own operations, whatever numbers lie inside its folder |
| NumberStore.StepRefines | Core/Account.cpp:218-270 | one operation changes the account it names as meant and no other: configuration and inbox of every other number are kept |
| NumberStore.DeletedCanBeAdded | Core/Account.cpp:218-270 | a deleted number leaves nothing at its inbox and can be added again with an empty one |
| NumberStore.CStorage.AddNumber | Core/Storage.cpp:439-504 | folders per digit, configuration file, inbox; refused exactly when the number exists |
| NumberStore.CStorage.DeleteNumber | Core/Account.cpp:218-270 | removes the files of the folder and the tree of the inbox, nothing else |
| NumberTree.FileSystem.DeleteFilesTree | Core/SysUtils.cpp:201-248 | removes everything below a folder, the top one included, and below the top level the folder itself; everything else stays; what is no folder is an error |
| NumberTree.GetCleanNumWithPath | Core/Storage.cpp:388-412 | the digits in order and their folder path; too long and too short exactly by their count |
| NumberTree.DigitsOf | Core/Storage.cpp:396-406 | the digits of a text are those of its parts, in order |
| NumberTree.DigitOf | Core/Storage.cpp:398-399 | a byte is a digit exactly from 48 to 57 |
| RequestRoundTrip.SecretRoundTrip | zsd/src/UdpServer.cpp:566-617 | the decoder recovers the header of every encrypted request, and the text whatever was in memory if and only if it is not empty and has no NUL; no packet is dropped by its size |
| RequestRoundTrip.SoundCoderExists | Core/CoderAES.cpp:328-361 | the assumption on the block cipher can be met |
| RequestRoundTrip.PlainRoundTrip | zsd/src/UdpServer.cpp:544-566 | the decoder recovers every plain request with a NUL-free text; no packet is dropped by its size |
| RequestRoundTrip.SendSplits | zsd/src/UdpServer.cpp:824-842 | the payload of a message comes apart into number, pin, target and message for every message, empty or with new lines |
| RequestRoundTrip.SendArrives | zsc/src/main/java/com/zs/client/client/ZsClient.java:285-306 | from the client's arguments over the encrypted wire to the server's, exactly |
| RequestRoundTrip.ReceiveReply | zsc/src/main/java/com/zs/client/client/ComRequestBuilder.java:146-187 | out of its receive buffer of 64 KB the client's parser recovers status, numbers, error flag and text of every reply the buffer can hold, whatever earlier replies left behind it |
| RequestRoundTrip.ReplyLayout | zsd/src/UdpServer.cpp:953-977 | where the server's reply has its fields |
| Request.DecryptEncrypt | zsc/src/main/java/com/zs/client/client/Coder.java:43-94 | padding and cipher invert; the length is a multiple of 16 and larger than the text |
| Request.UnpadUndoesPad | Core/CoderAES.cpp:400-424 | padding is accepted and taken off exactly when it is what padding puts on |
| Request.ComRequestBuilder.Create | zsc/src/main/java/com/zs/client/client/ComRequestBuilder.java:34-144 | the bytes of a request, plain for handshake and connect, refused when not connected |
| Request.ComRequestBuilder.Parse | zsc/src/main/java/com/zs/client/client/ComRequestBuilder.java:146-187 | for every byte string: the fields and text of a reply, or the exception, each exactly when lengths and cipher say so, and what it leaves in the object |
| Request.GetData | zsd/src/UdpServer.cpp:544-617 | the pointer walk over the packet and what lies behind it in memory: the decoded message and its tokens, a failed decryption decoded all the same, or a length that leads to where nothing is mapped |
| RequestMemory.OnlyThePacket | zsd/src/UdpServer.cpp:544-617 | what the decoder makes of a packet depends on nothing but the packet if and only if its lengths stay inside and its text ends there, by a zero byte or by its length |
| RequestMemory.ArrivesIntact | zsd/src/UdpServer.cpp:544-617 | a message is what the decoder gets whatever lies in memory if and only if the packet is one of those and decodes to it |
| RequestMemory.TokensOf | zsd/src/UdpServer.cpp:544-612 | a plain packet gives no tokens, an encrypted one those between its new lines |
| RequestMemory.AlteredLastBlock | zsd/src/UdpServer.cpp:578-612 | a request of four blocks or more whose last cipher block was altered so that its padding is bad is decoded: command, number, status and client as sent, and the text whatever the buffer held if and only if the altered block was padding only and the text has no NUL |
| RequestMemory.AlteredBlockExists | Core/CoderAES.cpp:400-424 | such a block, for a cipher that meets the assumptions |
| ReadReply.ReadRoundTrip | zsc/src/main/java/com/zs/client/client/ZsClient.java:81-97 | the client recovers status, time, sender and text of a read; the text exactly unless it is a non-empty run of bare separators, which reads as empty |
| ReadReply.LineLayout | zsd/src/UdpServer.cpp:855-860 | the line of a read: status, time, sender and text with ]@@] between them |
| ReadReply.PiecesAreLeftmost | zsc/src/main/java/com/zs/client/client/ZsClient.java:83-83 | the split cuts at the leftmost, non-overlapping separators |
| BlockInPlace.CMsgBlock.Open | Core/MsgBlock.cpp:260-274 | opens the handle once and counts it |
| BlockInPlace.CMsgBlock.StoreHeader | Core/MsgBlock.cpp:212-250 | writes the 13 header bytes and leaves the rest of the file |
| BlockInPlace.CMsgBlock.UpdateStoreStatus | Core/MsgBlock.cpp:582-607 | sets the status of a record in memory and one byte of the file at the position it is given |
| OpenConsCache.COpenConsCache.FindOldestItem | zsd/src/OpenConsCache.cpp:251-262 | the pointer it sets names an item of the map, if there is one |
| AccountLocks.CAccountLocker.Unlock | Core/AccountLocker.cpp:60-70 | removes the entry, unless the locker is shutting down |
| StorageSteps.FindAccount | Core/AccountCache.cpp:300-335 | in every reachable state the account cache finds or misses at once and takes that step of the state machine |
| StorageSteps.AddAccount | Core/AccountCache.cpp:159-170 | in every reachable state the key is free and the insertion is the AddAcc step |
| StorageSteps.DeleteAccount | Core/AccountCache.cpp:175-225 | in every reachable state the deletion succeeds at once and is the DeleteAcc step followed by one EvictAcc step for every account it trims |
| StorageSteps.FindBlock | Core/BlocksCache.cpp:226-262 | in every reachable state the block cache finds or misses at once and takes that step of the state machine |
| StorageSteps.AddBlock | Core/BlocksCache.cpp:153-173 | in every reachable state the key is free and the insertion is one EvictBlk step for every block it drops, then the AddBlk step |
| StorageSteps.DeleteBlock | Core/BlocksCache.cpp:178-221 | in every reachable state deleting a block never waits and is the DeleteBlk step, cached or not |
| StorageSteps.UnlockAccount | Core/AccountCache.cpp:76-80 | the guard's release of an account is the ReleaseAcc step |
| StorageSteps.UnlockBlock | Core/BlocksCache.cpp:72-76 | the guard's release of a block is the ReleaseBlk step |
| StorageSteps.ReachableRun | Core/Storage.cpp:466-888 | these steps, one after the other, lead from reachable states to reachable states |
| AccountCache.CAccountCache.Unlock | Core/AccountCache.cpp:76-80 | frees the lock and nothing else |
| AccountCache.CAccountCache.GetAccount | Core/AccountCache.cpp:56-62 | hands out the account and refreshes its access time |
| AccountCache.CAccountCache.CollectUnlocked | Core/AccountCache.cpp:260-269 | collects every unlocked key once |
| BlocksCache.CBlocksCache.Unlock | Core/BlocksCache.cpp:72-76 | frees the lock and nothing else |
| BlocksCache.CBlocksCache.Drop | Core/MsgBlock.cpp:112-130 | the destructor of a block takes its handle and memory off the counters |
| BlocksCache.CBlocksCache.Scan | Core/BlocksCache.cpp:303-313 | what it collects is every unlocked block with an open handle, once, seen through the blocks themselves |
| Account.CAccount.StoreToken | Core/Account.cpp:512-531 | sets the parameter and writes the file |
| NumberStore.CStorage.CreateNumberRoot | Core/Storage.cpp:439-461 | adds exactly the missing folders of the digits |
| NumberStore.CStorage.StoreFile | Core/Account.cpp:311-331 | adds or replaces one file of the inbox |
| NumberTree.FileSystem.UnlinkFiles | Core/Account.cpp:226-252 | removes exactly the files right in the folder |
| NumberTree.FileSystem.MkDir | Core/SysUtils.cpp:186-196 | a name that exists already is fine, a missing folder is made, a missing parent is an error |
| NumberTree.FileSystem.RmDir | Core/SysUtils.cpp:140-158 | removes a folder exactly when it is there and empty, otherwise reports an error |
| NumberTree.FileSystem.RemoveTree | Core/Account.cpp:254-270 | emptying the inbox and removing it leaves nothing of it; a missing one is an error and changes nothing |
| Request.ComRequestBuilder.CreateNotEncrypted | zsc/src/main/java/com/zs/client/client/ComRequestBuilder.java:34-71 | the bytes of a plain request, in order |

## Left out

- BlockInPlace.CMsgBlock.Add: where the source goes on after a write or a read outside its buffer (`Overrun`, and `Overran` for a load), the model of the call ends; nothing is said about what it then does to memory or file.
- BlockInPlace.CMsgBlock.GetIds: the lines are values with their fields; their text rendering is not modelled.
- BlockFile.Reload: a file is a byte sequence; errors of open, lseek, read and write are not modelled.
- ZorgeString.CZorgeString.SetData: the argument does not point into the string's own buffer, and lengths stay below the width of `unsigned int`.
- OpenConsCache.PruningInvisible: client ids are 32 bytes that hold no zero byte or start with one; ids with an inner zero byte compare differently in the source and are not modelled.
- OpenConsCache.COpenConsCache.RemoveExpired: the oldest-item pointer does not hold the oldest item in the source; only that it never dangles is kept.
- Request.GetData: what lies behind a packet or behind decrypted bytes is a parameter that ends at a zero byte; a search for the end of a text that meets no zero byte in mapped memory is not modelled.
- Request.ComRequestBuilder.Parse: a length for which the client has not enough memory is not modelled.
- ZorgeString.CZorgeString.TrimRight: ends where the source goes on before the start of its buffer; `Trim` never gets there.
- ProtocolCache.RunIsProtocolRun: the life time of entries does not change during a run.
- RequestRoundTrip.SendArrives: text is bytes; the encoding of Java strings is not modelled.
- NumberStore.CStorage.DeleteNumber: permission errors and the renaming that follows them are not modelled; the pin check before it is `Account.CAccount.CheckPin`.
- AccountCache.CAccountCache.Find: one turn of the waiting loop; sleeping, the timeout and its exception are not modelled, and `AccountLocks.FindNeverWaits` shows that they are never reached.
- BlocksCache.CBlocksCache.ReleaseHandles: counters are read and changed in one step; blocks that other threads hold do not change in between.
- AccountLocks.DeadlockFree: shutdown, where the locker stops locking, is not part of the state machine.
- WorkQueue.NoLostWakeup: shutdown is not modelled; workers wait without looking at the flag again.
- ProtocolOnce.AcceptedExecutions: the in-memory queue of the server is part of the network here; connecting, key exchange and key ids are left out.
- Config.CConfig.SetValue: the overload that trims the name first, and `SetComment`, are not modelled.
- Account.CAccount.ChangePin: the wrong pin is assumed to make decryption return 0, which for the real padding check is a matter of probability.
- The string functions `FormatPr`, `Find`, `Right`, `Left`, `Mid`: they would only add easy members.
- Monitor thread, daemon prompts, dialogs, terminal commands, diagnostics, key tables: user interface and counters.
- The order of the blocks a release closes: the scan refreshes the access time of every candidate.
- RSA, MD5, Blowfish and random numbers: foreign calls.
