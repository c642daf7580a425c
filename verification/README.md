# Models of the Zigbee R22 add-on's platform layer

A Dafny 4.11 model of the stateful parts of the add-on that connect the ZBOSS stack to Zephyr
(NVRAM, UART, callback handoff, radio reception), of the container macros that the stack is built
on, and of the logic of two of its scripts. `dafny verify dfyconfig.toml` checks all of it.

| module | component |
|---|---|
| `Basics` | what several modules share |
| `Flash`, `BlockWrite` | the flash device (overwriting or NOR, any operation may fail and then changes nothing) and the block-aligned write routine |
| `Nvram`, `NvramRuns`, `NvramAnswers`, `NvramDurability` | the NVRAM driver with its write-back cache, the plain RAM version as its specification, what each call answers, and whole runs of calls |
| `AsyncSerialRx`, `AsyncSerialTx` | the asynchronous UART: interrupts, timers, the ZBOSS thread and the callers |
| `AppCallbacks` | the handoff of callbacks to the ZBOSS thread: message queue, work item, "scheduled" flag, and `zigbee_deinit` |
| `RxSlots` | received frames: slot table, FIFO, driver buffers |
| `ListMacros`, `PooledList`, `RingBuffer` | intrusive lists on pointers, lists threaded through one pool by index, ring buffer |
| `InstallCode`, `QrCode` | CRC-16/X-25 of install codes, and the two-level, escape-aware QR code parser |
| `PartitionGaps` | gap filling in the flash maps of the documentation |

## How the models are built

- Concurrency is a state machine over steps. Interrupt and timer handlers are one step, as they
  run to the end; thread code is split at every statement that an interrupt can see. Theorems
  about runs hold for every interleaving. Beside each machine a class holds the real fields, and
  its methods, statement by statement, are proved to do the machine's steps.
- The NVRAM driver's methods are proved against a transition relation (`Nvram.MayStep`) that also
  says what each failure leaves behind; refinement and durability are about runs of that relation.
- List and pool methods keep a representation invariant and are proved to be the operation on the
  sequence of entries.
- Flash and UART operations, the stack's answers and the moments at which other threads run are
  arbitrary choices (`*`) or parameters.

## Where the code falls short of what it is for

Each of these is proved, with the exact condition; the code is modelled as it is.

- The cached NVRAM driver and the plain one answer differently to an in-range read of length 0 and
  to an in-range write of 1 to 3 bytes, and to no other call (`NvramRuns.RunAgreesIffNoOddCall`).
- A call that the NVRAM driver rejects can still change what readers see, and exactly two kinds can: a
  write longer than the cache, and an erase over a non-empty cache, unless there is nothing in their
  way that would change (`NvramRuns.RejectionKeepsIff`, byte by byte in `NvramRuns.LongWriteTraceIff`
  and `NvramRuns.EraseTraceIff`; inputs in `NvramRuns.LongWriteExample` and `NvramRuns.EraseExample`).
- A receive call that finds some but not all of its bytes in the ring has no timer until the next
  byte arrives, so the partial-reception timeout does not end it
  (`AsyncSerialRx.PartialReceptionEndsIff`, for the caller `AsyncSerialRx.UndisturbedCallWaitsIff`;
  a run in `AsyncSerialRx.PartialReceptionWaits`).
- A send of no bytes takes the transmit semaphore for good (`AsyncSerialTx.SemaphoreReturnsIff`).
- A send that starts while the TX interrupt is still enabled from the one before can lose its
  callback or send bytes twice, unless it has one byte and no callback; with the interrupt off it
  cannot (`AsyncSerialTx.SendIsSafeIff`, with whole runs in `AsyncSerialTx.CallbackIsLost` and
  `AsyncSerialTx.ByteGoesOutTwice`).
- `zigbee_deinit` can leave an accepted request with nothing to wake its processing exactly when it
  is called with the flag set and neither a scheduled callback nor the work item to account for it:
  the thread has then entered the callback and not yet cleared the flag
  (`AppCallbacks.AbortIsSafeIff`; a run in `AppCallbacks.StrandedRequest`).
- Releasing all radio slots leaves them in the FIFO. The stack thread then follows a NULL exactly when
  a frame still waited or was being read (`RxSlots.ReleaseFollowsNullIff`; a run in
  `RxSlots.ReleaseThenNull`).
- That release frees a buffer that was already given back exactly when the stack thread is between
  freeing it and clearing its slot (`RxSlots.ReleaseIsExactIff`; a run in
  `RxSlots.ReleaseGivesBackTwice`).
- SEARCH_BATCH reports too much in a full ring buffer at offset 0 with a non-zero read index
  (`RingBuffer.SearchBatchIsRightIff`).
- BATCH_PUT copies as many bytes as it puts entries, so entries longer than one byte are stored only
  where their remaining bytes were there before (`RingBuffer.BatchPutStoresIff`,
  `RingBuffer.BatchPutStoresAlwaysIff`; an input in `RingBuffer.TornInput`).
- The pooled backward iteration takes index 0 for NULL, and reads past the pool on an empty list
  (`PooledList.Pool.IterateBack`).
- Padding entries say their size in whole KB, so a gap that is not a multiple of 1024 bytes is
  drawn too long or too short (`PartitionGaps.TilesIff`).

## Model

| member | source | states |
|---|---|---|
| `BlockWrite.NvramFlashWrite` | subsys/osif/zb_nrf_nvram.c:98-173 | for every offset, length and write block (none, or a power of two up to 16), and wherever flash operations fail: exactly the first `done` bytes are programmed and every other cell keeps its value; success means all of them; a failure stops only before everything, behind the unaligned head or behind the aligned middle, and with a write block of 0 or 1 before everything; no write is issued off the write block |
| `BlockWrite.PatchBlock` | subsys/osif/zb_nrf_nvram.c:116-136 | read, patch and write back of one block programs the chunk and leaves the rest of the block; a failed read or write changes nothing |
| `BlockWrite.WriteFromBlockStart` | subsys/osif/zb_nrf_nvram.c:140-173 | the aligned middle and the unaligned tail program the data from a block boundary on; a failure leaves a prefix |
| `Flash.ReadModifyWrite` | subsys/osif/zb_nrf_nvram.c:116-136 | a block read back, patched and programmed again equals programming the patched bytes alone, on overwriting and on NOR flash |
| `Flash.NorStoresExactly` | subsys/osif/zb_nrf_nvram.c:98-173 | on NOR flash a write stores its data if and only if it sets no bit that the cells have cleared; in particular on erased cells |
| `Flash.ProgrammedTwice` | subsys/osif/zb_nrf_nvram.c:191-209 | a write stopped after any prefix and attempted again leaves what the longer attempt alone leaves |
| `Nvram.NvramDriver.WriteCacheCommit` | subsys/osif/zb_nrf_nvram.c:191-209 | success moves the whole cache to the flash and empties it; failure leaves the cache and programs some prefix of it |
| `Nvram.NvramDriver.WriteCacheContinues` | subsys/osif/zb_nrf_nvram.c:211-216 | true exactly when the write goes on in the same page where a non-empty cache ends, and fits |
| `Nvram.NvramDriver.WriteCacheAdd` | subsys/osif/zb_nrf_nvram.c:218-239 | continues the cache, or commits it and starts a new one, or, for a write longer than the cache, goes to the flash |
| `Nvram.NvramDriver.OsifRead` | subsys/osif/zb_nrf_nvram.c:255-290 | return code for every parameter, bytes returned, state after a failed commit or read; the buffer behind `len` bytes is untouched, and after a parameter error all of it |
| `Nvram.NvramDriver.OsifWrite` | subsys/osif/zb_nrf_nvram.c:292-326 | return code and new state for every parameter and every flash failure |
| `Nvram.NvramDriver.OsifEraseAsync` | subsys/osif/zb_nrf_nvram.c:328-346 | the erase is attempted even after a failed commit; every resulting state and code |
| `Nvram.NvramDriver.OsifFlush` | subsys/osif/zb_nrf_nvram.c:348-356 | commits the cache; a failure is not reported; without a flash failure the cache is then empty and the flash holds what readers see |
| `Nvram.StepKeepsValid` | subsys/osif/zb_nrf_nvram.c:181-239 | every call, failing or not, leaves the cache inside one page and within its buffer |
| `NvramRuns.PlainNvram.Read` | subsys/osif/zb_nrf_nvram_none.c:52-74 | the plain version: bounds checks and memcpy |
| `NvramRuns.PlainNvram.Write` | subsys/osif/zb_nrf_nvram_none.c:76-98 | the plain version: bounds checks and memcpy |
| `NvramRuns.PlainNvram.EraseAsync` | subsys/osif/zb_nrf_nvram_none.c:100-108 | the plain version: memset of a page, and success for a page that does not exist |
| `NvramRuns.FailedCommitKeepsLogical` | subsys/osif/zb_nrf_nvram.c:191-209 | a failed commit, wherever it stopped, leaves the contents that a reader sees and what a later commit will bring to the flash |
| `NvramRuns.StepRefines` | subsys/osif/zb_nrf_nvram.c:255-356 | one call with any flash failure: if it answers RET_OK it has the plain effect and bytes, and if not it changes nothing a reader sees; of a rejected call that, by the state before it, could leave something, it is assumed that it did no more than commit the cache, in whole or in part |
| `NvramRuns.FaultyRunRefinesPlain` | subsys/osif/zb_nrf_nvram.c:255-356 | every run with any number of such failures, rejected erases and long writes among them, has at each call boundary the contents of the plain array that ran the accepted calls, and every successful read returned its bytes |
| `NvramRuns.RejectionKeepsIff` | subsys/osif/zb_nrf_nvram.c:218-346 | for every state and call, every rejection of the call leaves what a reader sees, if and only if the call is neither of two kinds: an in-range write longer than the cache that would change something before one of its flash operations, and an erase of an existing page, over a non-empty cache, whose contents the cached data in the wiped page do not restore |
| `NvramRuns.LongWriteTraceIff` | subsys/osif/zb_nrf_nvram.c:218-239 | the first kind byte by byte: one of the bytes before the last flash operation of the write would change |
| `NvramRuns.EraseTraceIff` | subsys/osif/zb_nrf_nvram.c:328-346 | the second kind byte by byte: a byte of the page differs from the cached one, or from an erased cell where none is cached |
| `NvramRuns.LongWriteExample` | subsys/osif/zb_nrf_nvram.c:218-239 | five bytes in an erased page, past a cache of four, are of the first kind |
| `NvramRuns.EraseExample` | subsys/osif/zb_nrf_nvram.c:328-346 | and an erase of a page of zeros with four bytes cached is of the second |
| `NvramRuns.WipedAfterFailedCommit` | subsys/osif/zb_nrf_nvram.c:328-346 | an erase after a commit that stopped at any byte leaves the page wiped under the pending data, whichever byte that was |
| `NvramRuns.CallLeaves` | subsys/osif/zb_nrf_nvram.c:255-356 | every call with every failure, on either kind of flash: what a reader sees afterwards is the effect of the accepted call; of a rejected one nothing, or the bytes of a write longer than the cache up to a point where it can stop, or a wiped page under the data that the failed commit kept |
| `NvramRuns.EveryRunShows` | subsys/osif/zb_nrf_nvram.c:255-356 | every run whatsoever, with no assumption about failures or flash: the contents are what its calls left one after the other, and each successful read returned them |
| `NvramRuns.OddNeverAgrees` | subsys/osif/zb_nrf_nvram.c:278-281 | an in-range read of length 0, and an in-range write of 1 to 3 bytes, is refused here and accepted by the plain version, whatever the contents |
| `NvramRuns.StepAgrees` | subsys/osif/zb_nrf_nvram.c:255-356 | any other call without a flash failure has the plain code, bytes and effect |
| `NvramRuns.RunAgreesIffNoOddCall` | subsys/osif/zb_nrf_nvram.c:255-346 | a run without flash failures gives the same codes and bytes as the plain version if and only if it contains none of those calls |
| `NvramAnswers.ReadAnswers` | subsys/osif/zb_nrf_nvram.c:255-290 | which parameters of a read get which code, in the order of the checks, and RET_ERROR exactly if a flash operation failed |
| `NvramAnswers.WriteAnswers` | subsys/osif/zb_nrf_nvram.c:292-326 | the same for a write |
| `NvramAnswers.EraseAnswers` | subsys/osif/zb_nrf_nvram.c:328-356 | an erase answers RET_ERROR exactly if a flash operation failed, a flush never |
| `NvramAnswers.RefusedCall` | subsys/osif/zb_nrf_nvram.c:255-326 | a call refused for its parameters touches neither flash nor cache |
| `NvramAnswers.SyncedCall` | subsys/osif/zb_nrf_nvram.c:218-356 | without a flash failure an accepted read, an erase, a flush and a write longer than the cache leave the cache empty, and the flash as it was for readers plus the effect of the call |
| `NvramAnswers.FlushCommits` | subsys/osif/zb_nrf_nvram.c:353-356 | in particular after a flush the flash holds what readers saw |
| `NvramAnswers.GatheredWrite` | subsys/osif/zb_nrf_nvram.c:211-239 | a write that goes on where the cached bytes end, and fits, waits behind them with no flash operation; any other that the cache has room for waits alone, behind the commit of what was there |
| `NvramAnswers.ReadsLastWritten` | subsys/osif/zb_nrf_nvram.c:255-346 | in every run with the failures of `FaultyRunRefinesPlain`, each byte that a successful read returns is the one that the last accepted write of its page and offset put there, 0xFF after an erase of its page, or what was there at the start |
| `NvramDurability.GatheredIsOneWrite` | subsys/osif/zb_nrf_nvram.c:211-239 | writing the gathered cache once has the effect of the calls that it gathered, one by one |
| `NvramDurability.CommittedIsDurable` | subsys/osif/zb_nrf_nvram.c:191-209 | a successful commit brings every accepted call to the flash, also after failed attempts |
| `NvramDurability.FailedCommitIsDurable` | subsys/osif/zb_nrf_nvram.c:191-209 | a failed commit keeps the order: the prefix of calls stays and a prefix of the cached bytes may join it |
| `NvramDurability.WriteIsDurable` | subsys/osif/zb_nrf_nvram.c:218-239 | continuing, starting anew and bypassing the cache all keep the accepted calls in order |
| `NvramDurability.StepIsDurable` | subsys/osif/zb_nrf_nvram.c:255-356 | one call, failures included, keeps the order, and the prefix on the flash never shrinks; the same is assumed of a rejected call that could disorder the flash: a long write that could leave something, an erase over a non-empty cache |
| `NvramDurability.OrderlyIsTraceless` | subsys/osif/zb_nrf_nvram.c:218-346 | every other rejected call does no more than that |
| `NvramDurability.OrderedDurability` | subsys/osif/zb_nrf_nvram.c:181-356 | in every run in which the rejected calls that could disorder the flash did no more than commit the cache, in whole or in part, the flash is at each call boundary the effect of a prefix of the accepted calls, and the cache is the rest as one stretch of one page; without flash failures exactly so, with them plus some first bytes of the cache |
| `NvramDurability.SyncedRun` | subsys/osif/zb_nrf_nvram.c:181-356 | if the last call of such a run is a flush, or another that leaves nothing in the cache, and met no flash failure, the flash holds the effect of every accepted call |
| `AsyncSerialRx.HandshakeKept` | subsys/osif/zb_nrf_async_serial.c:54-164 | every step: `rx_done_sem` is 0 exactly while a reception is outstanding, a reception has at most one notification, a running timer has a reception to end, and a waiting reception has a running timer exactly if the RX interrupt came since its buffer was published |
| `AsyncSerialRx.BoundsKept` | subsys/osif/zb_nrf_async_serial.c:115-164 | every step: the handlers stay inside the buffer of the reception and inside the ring |
| `AsyncSerialRx.FillConserves` | subsys/osif/zb_nrf_async_serial.c:121-149 | filling from the ring first and from the UART behind it keeps every byte in order |
| `AsyncSerialRx.StoreConserves` | subsys/osif/zb_nrf_async_serial.c:150-163 | storing in the ring keeps every byte, or counts the oldest ones it drops |
| `AsyncSerialRx.ThreadConserves` | subsys/osif/zb_nrf_async_serial.c:277-320 | no statement of the receive call or of the notification loses, repeats or reorders a byte, with interrupts in between |
| `AsyncSerialRx.StepKeepsInv` | subsys/osif/zb_nrf_async_serial.c:54-164 | handshake, bounds and conservation together, for every step |
| `AsyncSerialRx.ReceivedInOrder` | subsys/osif/zb_nrf_async_serial.c:54-320 | in every interleaving, the bytes delivered, then those in the user buffer, then those in the ring, are a subsequence of the bytes read from the UART, and all of them if and only if no step of the run was one of the three that lose bytes; every lost byte is counted; the semaphore is 0 exactly while a reception is outstanding, and at most one notification is pending |
| `AsyncSerialRx.StepKeepsOrder` | subsys/osif/zb_nrf_async_serial.c:54-164 | no step, whether it loses bytes or not, reorders or repeats one |
| `AsyncSerialRx.FillTakes` | subsys/osif/zb_nrf_async_serial.c:120-149 | the interrupt with a waiting reception: the buffer gets the first bytes of the ring and then the UART, as many as there is room for; if that fills it the timer stops and the notification is scheduled, or the reception is given up; if not the timer starts |
| `AsyncSerialRx.StoreKeepsNewest` | subsys/osif/zb_nrf_async_serial.c:150-163 | the interrupt otherwise: the ring keeps the newest bytes, as many as it holds, and nothing else changes |
| `AsyncSerialRx.UndisturbedNotify` | subsys/osif/zb_nrf_async_serial.c:54-70 | what a whole notification leaves of any state |
| `AsyncSerialRx.DiscardsExactlyWhen` | subsys/osif/zb_nrf_async_serial.c:102-164 | bytes are discarded if and only if the ring overflows, scheduling the notification fails with bytes at hand, or nobody listens |
| `AsyncSerialRx.DiscardedIff` | subsys/osif/zb_nrf_async_serial.c:102-164 | and over a run if and only if one of its steps does that |
| `AsyncSerialRx.PartialReceptionEndsIff` | subsys/osif/zb_nrf_async_serial.c:303-319 | a reception that waits with a partly filled buffer can end without another RX interrupt if and only if there was one since the buffer was published |
| `AsyncSerialRx.UndisturbedCallWaitsIff` | subsys/osif/zb_nrf_async_serial.c:277-320 | seen from the caller: an accepted receive call without an interrupt during it waits with bytes in hand if and only if the ring held some but fewer than it asked for, and it then waits for an interrupt with no timer, holding exactly the bytes of the ring; if the ring held enough they are delivered at once, and the rest stays |
| `AsyncSerialRx.PartialReceptionWaits` | subsys/osif/zb_nrf_async_serial.c:303-319 | a reachable run to one that cannot: bytes from the ring in the buffer, and no timer |
| `AsyncSerialRx.EndsByTimeout` | subsys/osif/zb_nrf_async_serial.c:102-113 | a running timer does end it, and its bytes are passed on next |
| `AsyncSerialRx.AsyncReceiver.HandleRxReadyEvt` | subsys/osif/zb_nrf_async_serial.c:115-164 | the interrupt handler on the real buffer does the step of the machine with exactly as many bytes of the UART as there is room for |
| `AsyncSerialRx.AsyncReceiver.UartRxTimeoutExpired` | subsys/osif/zb_nrf_async_serial.c:102-113 | the partial-reception timer ends the reception, or gives it up when scheduling fails |
| `AsyncSerialRx.AsyncReceiver.RecvData` | subsys/osif/zb_nrf_async_serial.c:277-320 | the whole receive call with interrupts between its statements: which calls are ignored and which refused; otherwise the whole buffer is delivered at once, or it is published with room left, the semaphore taken and nothing delivered |
| `AsyncSerialRx.AsyncReceiver.TakeSemaphore` | subsys/osif/zb_nrf_async_serial.c:279-297 | the checks and the semaphore, and the three answers |
| `AsyncSerialRx.AsyncReceiver.ReceiveFromRing` | subsys/osif/zb_nrf_async_serial.c:303-307 | the ring goes to the buffer with the RX interrupt off, and the call then completes or waits |
| `AsyncSerialRx.AsyncReceiver.FlushRing` | subsys/osif/zb_nrf_async_serial.c:303-305 | bytes that were already there go to the new buffer, oldest first |
| `AsyncSerialRx.AsyncReceiver.HandOver` | subsys/osif/zb_nrf_async_serial.c:307-312 | a buffer filled from the ring alone is delivered at once, `want` bytes of it |
| `AsyncSerialRx.AsyncReceiver.RecvPublish` | subsys/osif/zb_nrf_async_serial.c:318-319 | the buffer becomes visible to the handlers only after its length, with room left in it |
| `AsyncSerialRx.AsyncReceiver.UartRxNotify` | subsys/osif/zb_nrf_async_serial.c:54-70 | the whole notification with interrupts between its statements: it passes on exactly the bytes that the buffer held when it began, and they are still in the buffer when it does |
| `AsyncSerialRx.AsyncReceiver.NotifyRead` | subsys/osif/zb_nrf_async_serial.c:54-58 | a notification always finds a buffer |
| `AsyncSerialRx.AsyncReceiver.CallBack` | subsys/osif/zb_nrf_async_serial.c:67-69 | the bytes reported are at the start of the buffer at the moment of the call |
| `AsyncSerialTx.StepKeepsInv` | subsys/osif/zb_nrf_async_serial.c:84-97 | every step: `tx_done_sem` is 0 exactly while a send is prepared or under way (or stuck), a running timer has a transfer to end, and the home buffer is back between transfers |
| `AsyncSerialTx.EverySendEndsOnce` | subsys/osif/zb_nrf_async_serial.c:84-354 | in every interleaving each accepted send of at least one byte ends exactly once, by success or by timeout, but for at most the one that holds the semaphore; between transfers the home buffer is back |
| `AsyncSerialTx.UndisturbedCall` | subsys/osif/zb_nrf_async_serial.c:327-354 | what a whole send call without an interrupt leaves of any state |
| `AsyncSerialTx.TxReadyDoes` | subsys/osif/zb_nrf_async_serial.c:173-197 | the interrupt with bytes to send: if all are out the transfer ends, its callback is told of success and the timer stops; if not the timer runs and nobody is told |
| `AsyncSerialTx.TxReadyTurnsOff` | subsys/osif/zb_nrf_async_serial.c:168-171 | with nothing to send it turns itself off |
| `AsyncSerialTx.TimeoutDoes` | subsys/osif/zb_nrf_async_serial.c:84-97 | the timer ends the transfer and tells its callback of the timeout |
| `AsyncSerialTx.TransferEndsIff` | subsys/osif/zb_nrf_async_serial.c:84-197 | a transfer under way can end without another TX interrupt if and only if its timer runs, which it does once a byte is out |
| `AsyncSerialTx.RunKeepsClean` | subsys/osif/zb_nrf_async_serial.c:166-354 | in every interleaving in which no interrupt raced a send call, each end was reported once, to the very callback that its send call had, and the wire carried each transfer's bytes once and in order |
| `AsyncSerialTx.StuckForever` | subsys/osif/zb_nrf_async_serial.c:327-354 | after a send of no bytes no step ever gives the semaphore back |
| `AsyncSerialTx.SemaphoreReturnsIff` | subsys/osif/zb_nrf_async_serial.c:327-354 | the semaphore that a send takes can come back if and only if the send has bytes |
| `AsyncSerialTx.LostCallback` | subsys/osif/zb_nrf_async_serial.c:340-353 | with the TX interrupt still on, a transfer can end before the send call stored its callback: that one is never told |
| `AsyncSerialTx.InterruptStaysOn` | subsys/osif/zb_nrf_async_serial.c:166-198 | a reachable run after which that is so: one send and the interrupt that takes all its bytes |
| `AsyncSerialTx.CallbackIsLost` | subsys/osif/zb_nrf_async_serial.c:327-354 | a whole run in which a callback is lost |
| `AsyncSerialTx.DuplicatedBytes` | subsys/osif/zb_nrf_async_serial.c:340-353 | with the TX interrupt still on, a byte can be sent before the offset is reset and goes out twice |
| `AsyncSerialTx.ByteGoesOutTwice` | subsys/osif/zb_nrf_async_serial.c:327-354 | a whole run in which one does |
| `AsyncSerialTx.SendIsSafeIff` | subsys/osif/zb_nrf_async_serial.c:327-354 | a send keeps its promises, its callback told and each byte out once, in whatever order interrupts come, if and only if the TX interrupt is off when it gets the semaphore, or it has one byte and no callback |
| `AsyncSerialTx.NoRaceIff` | subsys/osif/zb_nrf_async_serial.c:327-354 | a send cannot be raced if and only if the TX interrupt is off when it gets the semaphore |
| `AsyncSerialTx.HarmlessRun` | subsys/osif/zb_nrf_async_serial.c:344-353 | with one byte and no callback the interrupt in between does no harm |
| `AsyncSerialTx.ByteIsForgotten` | subsys/osif/zb_nrf_async_serial.c:344-353 | with two bytes or more it can make the wire differ from the data |
| `AsyncSerialTx.AsyncSender.HandleTxReadyEvt` | subsys/osif/zb_nrf_async_serial.c:166-198 | the TX interrupt handler does the machine's step |
| `AsyncSerialTx.AsyncSender.UartTxTimeout` | subsys/osif/zb_nrf_async_serial.c:84-97 | a timeout ends the transfer |
| `AsyncSerialTx.AsyncSender.SendData` | subsys/osif/zb_nrf_async_serial.c:327-342 | a send without a UART, asleep, or with the semaphore out tells the callback so and changes nothing |
| `AsyncSerialTx.AsyncSender.SendStatement` | subsys/osif/zb_nrf_async_serial.c:344-353 | the statements after the semaphore, in the source's order |
| `AppCallbacks.StepKeepsInv` | subsys/osif/zb_nrf_platform.c:170-286 | every step of every thread keeps a waker for a non-empty queue and the dispatched requests a prefix of the accepted ones; `zigbee_deinit` clearing the flag does so if and only if the queue is empty or still has a waker |
| `AppCallbacks.OnlyDeinitCanLose` | subsys/osif/zb_nrf_platform.c:170-286 | so throughout a run, but for the ends of deinit |
| `AppCallbacks.NoLostWakeup` | subsys/osif/zb_nrf_platform.c:170-286 | in every interleaving of producers, work item, ZBOSS thread and any number of shutdowns, none of which began while the flag was set with neither a scheduled callback nor the work item to account for it, a non-empty queue always has a waker and the dispatched requests are a prefix of the accepted ones |
| `AppCallbacks.AbortIsSafeIff` | subsys/osif/zb_nrf_platform.c:358-370 | a shutdown begun in a given state can lose a request if and only if the flag is set there and neither accounts for it, which is while the callback has been entered and has not yet cleared the flag |
| `AppCallbacks.HandedOverInOrder` | subsys/osif/zb_nrf_platform.c:170-286 | in the runs in which no deinit ends over a queue without a waker, a waiting request always has something under way that will look at it, and every accepted request was dispatched once, in order, or is in the queue |
| `AppCallbacks.QuietDeinitWakes` | subsys/osif/zb_nrf_platform.c:358-370 | nor is a request lost, whenever the shutdown begins, if none is put between the purge of the queue and the end of deinit |
| `AppCallbacks.StrandedRequest` | subsys/osif/zb_nrf_platform.c:358-370 | a reachable run in which a shutdown leaves an accepted request with nothing that will look at it |
| `AppCallbacks.StepKeepsAtMostOne` | subsys/osif/zb_nrf_platform.c:260-286 | the flag counts the processing callbacks, unless deinit aborts one just entered or clears the flag of one still scheduled |
| `AppCallbacks.NeverTwoCallbacks` | subsys/osif/zb_nrf_platform.c:260-286 | while the thread is up there is never more than one processing callback scheduled |
| `AppCallbacks.QueueDrains` | subsys/osif/zb_nrf_platform.c:170-286 | in every schedule of the threads, without new requests, overflows and shutdowns, they come to rest within a bounded number of steps, and then every accepted request was delivered exactly once, in order |
| `AppCallbacks.ProgressCostsEffort` | subsys/osif/zb_nrf_platform.c:170-286 | every such step, of whichever thread, brings that closer |
| `AppCallbacks.Platform.ZigbeeSchedule` | subsys/osif/zb_nrf_platform.c:426-444 | on the ZBOSS thread the answer of the stack itself; elsewhere RET_OVERFLOW exactly on a full queue, and then nothing changes; otherwise the request is put, any other threads may run, and the work item is submitted |
| `AppCallbacks.Platform.PutRequest` | subsys/osif/zb_nrf_platform.c:433-440 | the request is last in the queue, or the queue is full and nothing changes |
| `AppCallbacks.Platform.SubmitWork` | subsys/osif/zb_nrf_platform.c:442 | the work item is submitted |
| `AppCallbacks.Platform.ZbAppCbProcess` | subsys/osif/zb_nrf_platform.c:170-258 | with producers and the work item running in between, the callback ends on an empty queue or with the work item submitted |
| `AppCallbacks.Platform.ProcessFirst` | subsys/osif/zb_nrf_platform.c:185-247 | the oldest request is removed only after a dispatch that did not overflow |
| `AppCallbacks.Platform.ZbAppCbProcessSchedule` | subsys/osif/zb_nrf_platform.c:260-286 | with every other thread and shutdowns in between, the work item looks at the queue, takes the flag if there is something, and if it was clear schedules exactly one callback, however often the stack refuses first |
| `AppCallbacks.Platform.TakeFlag` | subsys/osif/zb_nrf_platform.c:268-271 | the flag is set, and taken if it was clear |
| `AppCallbacks.Platform.ZigbeeDeinit` | subsys/osif/zb_nrf_platform.c:358-370 | the steps of the shutdown, with the other threads in between |
| `ListMacros.List.GetTail` | lib/zboss/include/zb_list_macros.h:158 | the last entry, or NULL |
| `ListMacros.List.Prev` | lib/zboss/include/zb_list_macros.h:156 | the entry before, NULL for the first |
| `ListMacros.List.InsertHead` | lib/zboss/include/zb_list_macros.h:184-198 | prepends |
| `ListMacros.List.InsertTail` | lib/zboss/include/zb_list_macros.h:204-219 | appends |
| `ListMacros.List.InsertAfter` | lib/zboss/include/zb_list_macros.h:225-242 | inserts behind the given entry, at the tail too; NULL inserts nothing |
| `ListMacros.List.CutHead` | lib/zboss/include/zb_list_macros.h:165-177 | removes and returns the first entry, marked as in no list, its `next` kept |
| `ListMacros.List.RemoveHead` | lib/zboss/include/zb_list_macros.h:248-259 | removes the first entry |
| `ListMacros.List.RemoveTail` | lib/zboss/include/zb_list_macros.h:264-284 | removes the last entry, with its `next` as the temporary |
| `ListMacros.List.Remove` | lib/zboss/include/zb_list_macros.h:294-318 | removes an entry wherever it is; one that is in no list stays as it is |
| `ListMacros.List.Iterate` | lib/zboss/include/zb_list_macros.h:286-287 | visits the entries first to last |
| `ListMacros.List.IterateBack` | lib/zboss/include/zb_list_macros.h:289-290 | ends, and visits exactly the reverse |
| `ListMacros.SlList.InsertHead` | lib/zboss/include/zb_list_macros.h:362-372 | prepends to the singly linked list |
| `ListMacros.SlList.InsertTail` | lib/zboss/include/zb_list_macros.h:375-390 | appends: with CutHead, a FIFO |
| `ListMacros.SlList.CutHead` | lib/zboss/include/zb_list_macros.h:408-425 | takes the first entry |
| `ListMacros.SlList.Remove` | lib/zboss/include/zb_list_macros.h:427-456 | removes the entry if it is there, keeping the tail right |
| `ListMacros.Stack.Push` | lib/zboss/include/zb_list_macros.h:489-495 | pushes |
| `ListMacros.Stack.Pop` | lib/zboss/include/zb_list_macros.h:497-510 | pops what was pushed last |
| `PooledList.ListsAreDisjoint` | lib/zboss/include/zb_pooled_list.h:104-277 | lists in one pool never share an entry |
| `PooledList.PrevTellsMembership` | lib/zboss/include/zb_pooled_list.h:124-130 | `prev` is not NULL for exactly the entries that are in a list |
| `PooledList.OneListChanged` | lib/zboss/include/zb_pooled_list.h:104-277 | an operation that rewrites one list and none of the others' entries keeps the whole pool |
| `PooledList.InsertHeadHolds` | lib/zboss/include/zb_pooled_list.h:124-143 | the link updates of INSERT_HEAD are [x] + s |
| `PooledList.InsertTailHolds` | lib/zboss/include/zb_pooled_list.h:145-165 | the link updates of INSERT_TAIL are s + [x] |
| `PooledList.InsertAfterHolds` | lib/zboss/include/zb_pooled_list.h:167-189 | the link updates of INSERT_AFTER put x behind entry i |
| `PooledList.RemoveHeadHolds` | lib/zboss/include/zb_pooled_list.h:191-206 | the link updates of REMOVE_HEAD are s[1..] |
| `PooledList.RemoveTailHolds` | lib/zboss/include/zb_pooled_list.h:208-233 | the link updates of REMOVE_TAIL drop the last entry |
| `PooledList.RemoveHolds` | lib/zboss/include/zb_pooled_list.h:252-277 | the link updates of REMOVE drop entry i |
| `PooledList.InsertHeadKeepsPool` | lib/zboss/include/zb_pooled_list.h:124-143 | INSERT_HEAD of a free entry keeps every list of the pool, and membership with it |
| `PooledList.InsertTailKeepsPool` | lib/zboss/include/zb_pooled_list.h:145-165 | INSERT_TAIL of a free entry does |
| `PooledList.InsertAfterKeepsPool` | lib/zboss/include/zb_pooled_list.h:167-189 | INSERT_AFTER of a free entry does |
| `PooledList.RemovalKeepsPool` | lib/zboss/include/zb_pooled_list.h:191-277 | taking any entry out of its list does |
| `PooledList.Pool.GetTail` | lib/zboss/include/zb_pooled_list.h:92 | the last entry, or NULL |
| `PooledList.Pool.InsertHead` | lib/zboss/include/zb_pooled_list.h:124-143 | the sequence operation on its own list; every other list of the pool is unchanged |
| `PooledList.Pool.InsertTail` | lib/zboss/include/zb_pooled_list.h:145-165 | the same |
| `PooledList.Pool.InsertAfter` | lib/zboss/include/zb_pooled_list.h:167-189 | the same; index NULL inserts nothing |
| `PooledList.Pool.CutHead` | lib/zboss/include/zb_pooled_list.h:104-122 | the same; returns the entry, marked free |
| `PooledList.Pool.RemoveHead` | lib/zboss/include/zb_pooled_list.h:191-206 | the same |
| `PooledList.Pool.RemoveTail` | lib/zboss/include/zb_pooled_list.h:208-233 | the same |
| `PooledList.Pool.Remove` | lib/zboss/include/zb_pooled_list.h:252-277 | the same; an entry in no list is left alone |
| `PooledList.Pool.Iterate` | lib/zboss/include/zb_pooled_list.h:235-237 | visits its own list first to last |
| `PooledList.Pool.IterateBack` | lib/zboss/include/zb_pooled_list.h:239-243 | visits a non-empty list last to first if and only if its first entry is not entry 0 of the pool; reads past the pool if and only if the list is empty |
| `RingBuffer.RingBuffer.Put` | lib/zboss/include/zb_ringbuffer.h:268-275 | appends one entry; the indices stay in range and `write_i` is `read_i + written` wrapped |
| `RingBuffer.RingBuffer.PutHead` | lib/zboss/include/zb_ringbuffer.h:128-165 | prepends one entry |
| `RingBuffer.BatchPut` | lib/zboss/include/zb_ringbuffer.h:215-231 | with entries of one byte, appends a prefix of the data, all of it unless it stopped at the end of the cells |
| `RingBuffer.BatchPutStoresIff` | lib/zboss/include/zb_ringbuffer.h:215-231 | with entries of `e` bytes, the copy of `n` bytes for `n` entries stores the data if and only if the remaining bytes were there before |
| `RingBuffer.BatchPutStoresAlwaysIff` | lib/zboss/include/zb_ringbuffer.h:215-231 | so for all contents and data if and only if an entry is one byte or there is none to store |
| `RingBuffer.TornInput` | lib/zboss/include/zb_ringbuffer.h:215-231 | zeros overwritten by ones, with fewer bytes copied than there are, are an input that it tears |
| `RingBuffer.RingBuffer.PutReuseLast` | lib/zboss/include/zb_ringbuffer.h:298-303 | replaces the entry put last |
| `RingBuffer.RingBuffer.Peek` | lib/zboss/include/zb_ringbuffer.h:313-316 | the oldest entry, if there is one |
| `RingBuffer.RingBuffer.FlushGet` | lib/zboss/include/zb_ringbuffer.h:350-354 | removes the oldest entry |
| `RingBuffer.RingBuffer.FlushGetBatch` | lib/zboss/include/zb_ringbuffer.h:423-427 | removes the oldest `size` entries |
| `RingBuffer.SearchBatchIsRightIff` | lib/zboss/include/zb_ringbuffer.h:356-400 | SEARCH_BATCH yields the longest contiguous stretch at the offset if and only if the state is not: full, offset 0, read index not 0 |
| `RingBuffer.GetBatchIsRight` | lib/zboss/include/zb_ringbuffer.h:518-528 | BYTE_ARRAY_GET_BATCH is right in every state and agrees with SEARCH_BATCH at offset 0 wherever that is right |
| `RingBuffer.RingBuffer.ByteArrayGetBatch` | lib/zboss/include/zb_ringbuffer.h:518-528 | the segment handed out holds the oldest entries, in order |
| `RingBuffer.RingBuffer.DrainInTwoRounds` | lib/zboss/include/zb_ringbuffer.h:518-542 | get and flush, twice, empty any state, a full one included, in order |
| `RxSlots.SlotAlwaysFree` | subsys/osif/zb_nrf_transceiver.c:74-78 | whenever the driver has a buffer to report the search finds a free slot, also between freeing a buffer and clearing its slot |
| `RxSlots.StepKeepsInv` | subsys/osif/zb_nrf_transceiver.c:344-527 | every step of the interrupt and of the thread keeps slots, FIFO and buffers in agreement; the release of all slots does if and only if the thread is idle and no frame waits |
| `RxSlots.FramesInOrder` | subsys/osif/zb_nrf_transceiver.c:344-527 | in every interleaving in which the slots are released only in such a state, the frames delivered are a prefix of the frames received, unchanged and in order, buffers are freed in that order, each once, the thread never follows a NULL, and an empty FIFO with an idle thread means that all was delivered and freed |
| `RxSlots.ReceivedTells` | subsys/osif/zb_nrf_transceiver.c:447-481 | the frame that a reception stores has as many bytes as the length byte of the reported buffer says, those behind it, the reported measurements, and the pending bit of the last acknowledgement if the frame asked for one |
| `RxSlots.FramesAreReports` | subsys/osif/zb_nrf_transceiver.c:442-490 | in every run whatsoever the frames received are those of the reports, field by field, where a report is what the driver last wrote to the buffer, and the acknowledgement started since the reception before |
| `RxSlots.StackGetsReports` | subsys/osif/zb_nrf_transceiver.c:344-527 | so in the runs of `FramesInOrder` the stack gets those, in order |
| `RxSlots.ThreadNeverFaults` | subsys/osif/zb_nrf_transceiver.c:352-371 | in those states the stack thread does not follow a NULL and can take its next step |
| `RxSlots.ReleaseFollowsNullIff` | subsys/osif/zb_nrf_transceiver.c:519-527 | after a release the thread can come to follow a NULL if and only if a frame waited in the FIFO or was being read |
| `RxSlots.ReleaseThenNull` | subsys/osif/zb_nrf_transceiver.c:354-371 | a reachable run in which it does |
| `RxSlots.ReleaseIsExactIff` | subsys/osif/zb_nrf_transceiver.c:519-527 | releasing all slots frees every held buffer once and no other, if and only if the thread is not between freeing a buffer and clearing its slot |
| `RxSlots.ReleaseGivesBackTwice` | subsys/osif/zb_nrf_transceiver.c:370-371 | a reachable run into that window |
| `RxSlots.Transceiver.ReleaseRxFrames` | subsys/osif/zb_nrf_transceiver.c:519-527 | gives back what every slot names, in slot order, clears every slot, and leaves the FIFO as it was |
| `RxSlots.ReceivedKeepsInv` | subsys/osif/zb_nrf_transceiver.c:447-481 | a reception keeps the order of the line of frames and puts the new one last |
| `RxSlots.Transceiver.ReceivedTimestampRaw` | subsys/osif/zb_nrf_transceiver.c:447-481 | stores the frame in the first free slot and queues that slot |
| `RxSlots.Transceiver.GetNextPacket` | subsys/osif/zb_nrf_transceiver.c:344-374 | with interrupts anywhere in between, the next frame in order of reception, or none exactly when there is no buffer or no frame; its payload is the bytes behind the length byte of the oldest buffer, as many as that says |
| `RxSlots.Transceiver.ReleaseFrame` | subsys/osif/zb_nrf_transceiver.c:370-371 | buffer first, slot second, with interrupts in between |
| `InstallCode.InstallCodeCrc` | scripts/zigbee_production_config.py:60-67 | the two loops compute the CRC register function |
| `InstallCode.CheckValue` | scripts/zigbee_production_config.py:60-67 | the check value of CRC-16/X-25, 0x906E for the characters 1 to 9 |
| `InstallCode.ShiftByte` | scripts/zigbee_production_config.py:64-66 | the inner loop shifts one byte in |
| `InstallCode.ResidueIsFixed` | scripts/zigbee_production_config.py:60-67 | any string followed by its own little-endian CRC has CRC 0x0F47 (register 0xF0B8, RFC 1662, Appendix C.2) |
| `InstallCode.RegisterIsInjective` | scripts/zigbee_production_config.py:60-67 | different registers stay different whatever follows |
| `InstallCode.ByteIsLinear` | scripts/zigbee_production_config.py:64-66 | the register differs by what the difference of the inputs makes of it |
| `InstallCode.BurstDetected` | scripts/zigbee_production_config.py:60-67 | two strings that differ within a burst of up to 16 bits, at any bit position, never share a CRC |
| `InstallCode.TwoBytesDetected` | scripts/zigbee_production_config.py:60-67 | nor do two that differ only within two adjacent bytes |
| `InstallCode.OddErrorDetected` | scripts/zigbee_production_config.py:60-67 | nor do two of equal length that differ in an odd number of bits |
| `InstallCode.ParsedHasResidue` | scripts/zigbee_production_config.py:77-92 | every accepted install code is 18 bytes with the fixed residue, starts with the code that was given and is accepted again unchanged |
| `InstallCode.AcceptedIff` | scripts/zigbee_production_config.py:77-92 | accepted are exactly 16 bytes, whatever they are, and 18 bytes with the residue; 16 get their CRC added, 18 stay as they are |
| `InstallCode.FieldAcceptedIff` | scripts/zigbee_production_config.py:77-92 | an 18-byte field is accepted if and only if it has the residue |
| `QrCode.SplitQrCode` | scripts/zigbee_production_config.py:127-138 | the loop splits at separators that no `*` escapes |
| `QrCode.JoinOfSplit` | scripts/zigbee_production_config.py:127-138 | joining the parts gives the string back, for every string and separator |
| `QrCode.SplitOfJoin` | scripts/zigbee_production_config.py:127-138 | parts without loose separators or escapes come back from the joined string |
| `QrCode.SplitPartsAreClean` | scripts/zigbee_production_config.py:127-138 | no part of any string has a loose separator, and only the last can end with an escape that escapes nothing |
| `QrCode.UnescapeOfEscape` | scripts/zigbee_production_config.py:150 | unescaping undoes escaping |
| `QrCode.UnescapeOfAnyEscape` | scripts/zigbee_production_config.py:150 | also if other characters than the special ones are escaped, but for a line feed |
| `QrCode.LooseEscapeStays` | scripts/zigbee_production_config.py:150 | an escape before a line feed, or before nothing, stays |
| `QrCode.ParameterIs` | scripts/zigbee_production_config.py:149-151 | the name of a parameter is what stands before its first colon, as it is, and its value what stands behind it, unescaped |
| `QrCode.InterfaceIs` | scripts/zigbee_production_config.py:147-148 | key and shortcut of an interface are what stands around the first colon of its first part |
| `QrCode.SpacesRemoved` | scripts/zigbee_production_config.py:146 | the spaces are removed and every other character stays, in order |
| `QrCode.WrittenExample` | scripts/zigbee_production_config.py:141-172 | a code written out, character by character |
| `QrCode.InterfaceRoundTrip` | scripts/zigbee_production_config.py:147-151 | one written interface is read back with its key, shortcut and parameters |
| `QrCode.RoundTrip` | scripts/zigbee_production_config.py:146-151 | a written QR code is read back as the same interfaces |
| `QrCode.BuildParams` | scripts/zigbee_production_config.py:149-151 | the dictionary that the comprehension builds |
| `QrCode.ParamMapIsLastValue` | scripts/zigbee_production_config.py:149-151 | in that dictionary the last parameter of a name wins |
| `QrCode.ParamMapAppend` | scripts/zigbee_production_config.py:153-164 | updating one dictionary with another is reading the second list after the first |
| `QrCode.ParseQrCode` | scripts/zigbee_production_config.py:141-172 | result and error of the whole parser are the meaning of the interfaces in the string |
| `QrCode.MeaningIs` | scripts/zigbee_production_config.py:161-172 | with one Zigbee interface: the address is its shortcut, or else the last A of its own parameters, or else the last A of the global interfaces; the install code the last I of its own or else of the global ones; both are returned exactly if both are there and the code has 36 characters, and the errors say exactly what is wrong |
| `QrCode.ZigbeeErrors` | scripts/zigbee_production_config.py:153-160 | the other errors: no Zigbee interface, or more than one |
| `QrCode.WrittenCodeMeans` | scripts/zigbee_production_config.py:141-172 | reading a written QR code says what its interfaces say |
| `PartitionGaps.ExpandPartitionGaps` | docs/_extensions/memory_data.py:102-156 | the function as a whole, both branches |
| `PartitionGaps.FillGaps` | docs/_extensions/memory_data.py:115-132 | the loop with its cursor |
| `PartitionGaps.Number` | docs/_extensions/memory_data.py:134-136 | the order numbers |
| `PartitionGaps.SumKb` | docs/_extensions/memory_data.py:142 | the sum of the sizes |
| `PartitionGaps.PaddingIsExactIff` | docs/_extensions/memory_data.py:86-92 | a padding entry is as long as its gap if and only if the gap is a whole number of KB |
| `PartitionGaps.WholeKbGapsTile` | docs/_extensions/memory_data.py:113-136 | with whole-KB gaps every byte up to the end of the map is in a partition, or in exactly one padding entry, never both, overlapping partitions included |
| `PartitionGaps.TilesIff` | docs/_extensions/memory_data.py:113-136 | partitions of at least one byte tile the flash if and only if all gaps are whole KB |
| `PartitionGaps.OddGapShows` | docs/_extensions/memory_data.py:113-136 | for every other gap, a byte in no entry, in two, or past the end |
| `PartitionGaps.RealsSurvive` | docs/_extensions/memory_data.py:102-156 | every real partition survives once, sorted, those with equal keys in the order they had, and with nothing changed but its order number |
| `PartitionGaps.RealsAre` | docs/_extensions/memory_data.py:106-111 | the partitions kept are those that are neither padding nor in RAM, in their order |
| `PartitionGaps.EntriesAre` | docs/_extensions/memory_data.py:102-136 | where all partitions have an offset, entry i has order number i; nothing but entries for unused flash is added; without partitions there is no map |
| `PartitionGaps.UnplacedEntries` | docs/_extensions/memory_data.py:138-156 | otherwise the partitions come in their order, and the entry for the rest last, with the next number |
| `PartitionGaps.PaddingIs` | docs/_extensions/memory_data.py:86-92 | an entry for a gap starts where the gap does, and its size is the nearest number of KB, halves to the even one |
| `PartitionGaps.BytesAreNearest` | docs/_extensions/memory_data.py:81-83 | sizes in bytes are the nearest numbers to 1024 times those in KB |
| `PartitionGaps.SortedIsStable` | docs/_extensions/memory_data.py:114 | the sort keeps the order of partitions with equal keys |
| `PartitionGaps.ExpandTwice` | docs/_extensions/memory_data.py:102-156 | expanding the result again gives the same list, in every case |
| `PartitionGaps.UnplacedSizesAddUp` | docs/_extensions/memory_data.py:138-156 | without offsets one padding entry brings the sizes up to the flash total, if they fall short of it |
| `PartitionGaps.SortedKeeps` | docs/_extensions/memory_data.py:114 | the sort is ascending and a permutation |

## Left out

- NvramRuns.StepRefines: of a rejected call that could leave a trace by the state before it (`NvramRuns.RejectionKeepsIff` says which), assumes that it did no more than commit the cache; `NvramRuns.CallLeaves` says what it leaves otherwise, with no exception. On NOR flash an accepted write is assumed to store its data (`Flash.NorStoresExactly` says when).
- NvramRuns.FaultyRunRefinesPlain: the same; `NvramRuns.EveryRunShows` covers every run.
- NvramAnswers.ReadsLastWritten: the same.
- NvramRuns.RunAgreesIffNoOddCall: on NOR flash assumes that each write stores its data; nothing is assumed on overwriting flash.
- NvramDurability.StepIsDurable: the same is assumed of a rejected long write that could leave a trace and of a rejected erase over a non-empty cache; the first leaves its first bytes on the flash, the second wipes a page that cached data may belong to.
- NvramDurability.OrderedDurability: the same.
- NvramDurability.SyncedRun: the same.
- Nvram.NvramDriver.OsifRead: `pos + len` is an unbounded sum; its wrap-around at 32 bits is not modelled.
- Nvram.NvramDriver.OsifWrite: `pos + len` is an unbounded sum; its wrap-around at 32 bits is not modelled.
- NvramRuns.PlainNvram.Read: `pos + len` is an unbounded sum; its wrap-around at 32 bits is not modelled.
- NvramRuns.PlainNvram.Write: `pos + len` is an unbounded sum; its wrap-around at 32 bits is not modelled.
- Nvram.NvramDriver.OsifEraseAsync: the report of the finished erase to the stack is not modelled.
- NvramRuns.PlainNvram.EraseAsync: the report of the finished erase to the stack is not modelled.
- AsyncSerialRx.ReceivedInOrder: one ZBOSS thread; sleep and wake-up while a reception is outstanding, and the waiting time of the semaphore, are not modelled.
- AsyncSerialRx.AsyncReceiver.HandleRxReadyEvt: an error from reading the UART, and the per-character handler, are not modelled.
- AsyncSerialTx.RunKeepsClean: one sending thread; `zb_osif_async_serial_put_bytes`, flush and the user I/O buffer are not modelled, and a failure to schedule the callback of an ended send is not told apart from success, as in the code.
- AppCallbacks.NoLostWakeup: the stack's own scheduler is a counter of waiting callbacks that keeps them while its thread is down.
- AppCallbacks.Platform.ZigbeeDeinit: the poll signal and the started flag are not modelled.
- AppCallbacks.Platform.Dispatch: which stack function a request type calls, and the delay computed for an alarm, are not modelled; any answer is possible.
- RxSlots.StepKeepsInv: the release of all slots is one step, and the driver makes no further calls after it; the memory reset at the next start of the radio is a new initial state.
- RxSlots.Transceiver.GetNextPacket: the notification flags are not modelled, and no release happens in the middle of it, which `RxSlots.ReleaseFollowsNullIff` is about. The offsets of the acknowledge-request bit come from a driver header that is not part of this model.
- PooledList.Pool.CutHead: the extra assertion of the 16-bit macro on its output variable is not modelled; the other 16-bit macros are the 8-bit ones with another NULL.
- RingBuffer.BatchPut: on entries of one byte; what the macro does to longer ones is in `RingBuffer.BatchPutStoresAlwaysIff`.
- InstallCode.ParsedHasResidue: starts from the bytes; decoding the hexadecimal string is not modelled.
- InstallCode.AcceptedIff: starts from the bytes; decoding the hexadecimal string is not modelled.
- QrCode.ParseQrCode: ends with the two strings that the install code and address parsers get; hexadecimal decoding and the address check are not modelled.
- PartitionGaps.ExpandPartitionGaps: sizes are exact reals, not floating point, and every entry has an order; YAML records are a datatype with the fields used.
- PartitionGaps.SumKb: sizes are exact reals, not floating point.
- The pooled singly linked list, whose INSERT_HEAD tests `head + 1`, and the ring buffer macros with an external capacity other than the batch read.
- Production configuration reads, passcodes, the packing of the configuration image, and the OTA header script: fixed layouts.
- Radio transmission, energy detection, channel and address settings: single calls into the radio driver.
- LEDs, buttons, logging, reset reasons, settings and shell: plumbing.
- Rendering of the documentation tables, and precompiled ZBOSS code, whose source is not in the repository.
