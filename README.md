# nRF52 flash HAL sequencer, modelled in Dafny

This project models the mbed flash HAL for the Nordic nRF52
(`targets/TARGET_NORDIC/TARGET_NRF5x/TARGET_NRF52/flash_api.c`). The HAL puts a
synchronous-looking `flash_program_page` / `flash_erase_sector` API on top of
the asynchronous `nrf_fstorage` driver:

- `flash_program_page` copies the caller's data into a heap buffer and pushes
  a request onto a 20-slot queue that refuses pushes when full. If the driver
  is idle, it then starts the head of the queue.
- `flash_start_program_page` holds at most one write in flight
  (`data_current_buffer`). It pops the head and issues the write, retrying
  while the driver answers `NRF_ERROR_NO_MEM` and less than 200 ms have
  passed. If the write fails, it pushes the item back at the tail.
- `flash_storage_event_handler` frees the in-flight buffer when a write
  result arrives, then starts the next pending write.
- `flash_erase_sector` runs the same bounded retry synchronously.
- `flash_init` initialises the driver once per process. Every call empties the
  queue and clears the in-flight buffer.

Layout, one module per component:

- `uint.dfy` (`Uint`): uint8/uint32 types and wrapping arithmetic.
- `fstorage.dfy` (`Fstorage`): the driver's status codes, event ids and responses.
- `alignment.dfy` (`Alignment`): `align_up` and the size a queued request records.
- `write_queue.dfy` (`WriteQueue`): the bounded FIFO of pending writes.
- `retry.dfy` (`Retry`): when the retry loops stop.
- `sequencer.dfy` (`Sequencer`): `StartNext`, a function that gives the effect of
  starting the next write. The imperative method is proved to match it.
- `flash_api.dfy` (`FlashApi`): class `Flash`, holding the file's statics
  (`do_init`, the fstorage region, the queue), the heap buffers that are
  allocated and not yet freed, and the device's `data_current_buffer`. It has
  one method or function per HAL entry point.
- `scenarios.dfy` (`Scenarios`): call sequences on a fresh `Flash` whose
  outcomes follow from the contracts.

The driver, the ticker and malloc are oracles passed in as parameters. Each
call receives the `nrf_fstorage_is_busy` answer and whether malloc succeeds.
It also receives the first `lp_ticker_read` value and the sequence of
(driver answer, next ticker reading) pairs it will see. A retry loop requires
that this sequence contains an answer that stops it, because the ticker
advances. Elapsed time is the unsigned difference `now - start` modulo 2^32.
malloc hands out fresh buffer identities; `live` is the set that has not
been freed.

Where a natural reading of the HAL contract and the code differ, the model
follows the code:

- A second `flash_init` returns 0 even if the first one failed to initialise
  the driver (`Scenarios.SecondInitHidesFailure`).
- `flash_program_page` does not return 0 just because the request was queued.
  It returns -1 when the driver is busy, and otherwise the status of starting
  the queue head. If malloc failed, the request is dropped, yet the call
  returns 0 when the head starts (`Scenarios.DroppedRequestStillReportsSuccess`).
- A write that fails to start goes back to the tail of the queue. It is not
  dropped.

`MBED_FLASH_INVALID_SIZE` is 0xFFFFFFFF, as defined by mbed's
`hal/flash_api.h`. That file is not part of this model.

## Model

Source paths are relative to the repository root; `flash_api.c` below is
`targets/TARGET_NORDIC/TARGET_NRF5x/TARGET_NRF52/flash_api.c`.

| member | source | states |
|---|---|---|
| Alignment.AlignUp | targets/TARGET_NORDIC/TARGET_NRF5x/TARGET_NRF52/flash_api.c:291-294 | for `val >= 1`, `size > 0` and no uint32 overflow, `align_up` is a multiple of `size`, at least `val` and less than `val + size`, so it is the least such multiple |
| Alignment.AlignUpWordExamples | targets/TARGET_NORDIC/TARGET_NRF5x/TARGET_NRF52/flash_api.c:291-294 | rounding to 4-byte words: 13 → 16, 16 → 16, 1 → 4 |
| Alignment.AlignUpZeroWraps | targets/TARGET_NORDIC/TARGET_NRF5x/TARGET_NRF52/flash_api.c:291-294 | `align_up(0, 4)` is 0 only through uint32 wrap-around of `val - 1` and of the product |
| Alignment.TruncatedWriteSizeLosesBytes | targets/TARGET_NORDIC/TARGET_NRF5x/TARGET_NRF52/flash_api.c:64-171 | as written, the `uint8_t` write size of a 256- or 4096-byte request is 0, and of a 300-byte request 44, fewer than the bytes copied |
| Alignment.TruncatedWriteSize | targets/TARGET_NORDIC/TARGET_NRF5x/TARGET_NRF52/flash_api.c:166 | the `uint8_t` write size a request records is still a multiple of the 4-byte word, and equals `align_up(size, 4)` whenever that is below 256 |
| Alignment.WriteSize | targets/TARGET_NORDIC/TARGET_NRF5x/TARGET_NRF52/flash_api.c:166 | the intended write size is a word multiple that covers the request and adds less than one word |
| Alignment.TruncationHarmlessWhenCopyFits | targets/TARGET_NORDIC/TARGET_NRF5x/TARGET_NRF52/flash_api.c:164-171 | the copy of `size` bytes fits the recorded write size exactly when `size <= 252`, and there the recorded and intended sizes agree |
| Fstorage.ToHal | targets/TARGET_NORDIC/TARGET_NRF5x/TARGET_NRF52/flash_api.c:185 | the HAL status is 0 exactly for NRF_SUCCESS and -1 for every error code |
| WriteQueue.Push | targets/TARGET_NORDIC/TARGET_NRF5x/TARGET_NRF52/flash_api.c:55-71 | a push succeeds exactly when fewer than 20 items are queued, and then appends at the tail (no-overflow mode) |
| WriteQueue.Pop | targets/TARGET_NORDIC/TARGET_NRF5x/TARGET_NRF52/flash_api.c:238 | a pop succeeds exactly on a non-empty queue and splits it into head and rest |
| WriteQueue.PushPopFifo | targets/TARGET_NORDIC/TARGET_NRF5x/TARGET_NRF52/flash_api.c:71 | FIFO order: pushing before a pop does not change the head, and the pushed item ends up behind the rest |
| Retry.Elapsed | targets/TARGET_NORDIC/TARGET_NRF5x/TARGET_NRF52/flash_api.c:138 | the unsigned `now_us - start_us` is the elapsed time `now - start` when the ticker has not wrapped, and `now + 2^32 - start` across one wrap |
| Retry.Stops | targets/TARGET_NORDIC/TARGET_NRF5x/TARGET_NRF52/flash_api.c:138-139 | a retry loop stops after an answer exactly when the answer is not NRF_ERROR_NO_MEM or at least 200 000 µs have elapsed |
| Retry.FirstStop | targets/TARGET_NORDIC/TARGET_NRF5x/TARGET_NRF52/flash_api.c:137-146 | the first driver answer after which the loop stops: it stops there, and at no earlier answer |
| Retry.Attempts | targets/TARGET_NORDIC/TARGET_NRF5x/TARGET_NRF52/flash_api.c:249-257 | a retry loop issues at least one request, and no more than the answers available |
| Retry.RetryResult | targets/TARGET_NORDIC/TARGET_NRF5x/TARGET_NRF52/flash_api.c:249-257 | the loop's result is the driver's answer to its last request, and it is NRF_ERROR_NO_MEM only when that answer came at least 200 ms after the start |
| Retry.RetryStopsAtFirstChance | targets/TARGET_NORDIC/TARGET_NRF5x/TARGET_NRF52/flash_api.c:249-257 | every request but the last was refused with NO_MEM within 200 ms; the last was answered otherwise or read 200 ms or more on the ticker |
| Retry.BusyDriverTimesOut | targets/TARGET_NORDIC/TARGET_NRF5x/TARGET_NRF52/flash_api.c:56-146 | a driver that always answers NO_MEM ends the loop at the first reading at least 200 000 µs after the start, never before |
| Sequencer.StartNext | targets/TARGET_NORDIC/TARGET_NRF5x/TARGET_NRF52/flash_api.c:229-271 | on an empty queue the status is NRF_ERROR_NOT_FOUND; otherwise it is the retry loop's result; a write is in flight exactly when the status is NRF_SUCCESS; and the in-flight request plus the queue hold as many requests as the queue held before |
| Sequencer.StartNextKeepsEveryRequest | targets/TARGET_NORDIC/TARGET_NRF5x/TARGET_NRF52/flash_api.c:238-267 | nothing is lost when a write is started: the queued buffers and the in-flight one together are the buffers queued before, and the queue stays within 20 |
| Sequencer.StartNextOnEmptyQueue | targets/TARGET_NORDIC/TARGET_NRF5x/TARGET_NRF52/flash_api.c:231-238 | on an empty queue the start returns NRF_ERROR_NOT_FOUND with nothing in flight |
| Sequencer.StartNextOutcome | targets/TARGET_NORDIC/TARGET_NRF5x/TARGET_NRF52/flash_api.c:238-267 | the status is the driver's last answer; on success the head is in flight and the rest keep their order; on failure nothing is in flight and the head sits behind every other request |
| FlashApi.Flash.constructor | targets/TARGET_NORDIC/TARGET_NRF5x/TARGET_NRF52/flash_api.c:68-89 | at start-up the region is zero, `do_init` is set and nothing is queued, in flight or allocated |
| FlashApi.Flash.Init | targets/TARGET_NORDIC/TARGET_NRF5x/TARGET_NRF52/flash_api.c:82-118 | only the first call sets the region to CODESIZE × CODEPAGESIZE and returns the driver's init status; later calls return 0; every call empties the queue and clears the in-flight buffer without freeing |
| FlashApi.Flash.Free | targets/TARGET_NORDIC/TARGET_NRF5x/TARGET_NRF52/flash_api.c:120-125 | closing returns 0 |
| FlashApi.Flash.EraseSector | targets/TARGET_NORDIC/TARGET_NRF5x/TARGET_NRF52/flash_api.c:127-150 | the erase loop issues requests until the first answer that is not NO_MEM or reads 200 ms elapsed, and returns 0 exactly when that last answer is NRF_SUCCESS |
| FlashApi.Flash.ProgramPage | targets/TARGET_NORDIC/TARGET_NRF5x/TARGET_NRF52/flash_api.c:152-186 | no data or size 0: NRF_ERROR_NULL, reported as -1, and nothing changes; full queue: -1, the fresh buffer is freed, the queue is unchanged; otherwise the request is appended at the tail (if malloc succeeded); when busy the result stays NRF_ERROR_NULL, reported as -1, and the request stays queued; when idle the queue head is started as StartNext says |
| FlashApi.Flash.Enqueue | targets/TARGET_NORDIC/TARGET_NRF5x/TARGET_NRF52/flash_api.c:168-176 | after a successful malloc the fresh buffer is allocated and the request is appended at the tail exactly when fewer than 20 are queued; otherwise the buffer is freed again and the queue is unchanged |
| FlashApi.Flash.GetSize | targets/TARGET_NORDIC/TARGET_NRF5x/TARGET_NRF52/flash_api.c:188-193 | the size is the length of the region |
| FlashApi.Flash.GetSectorSize | targets/TARGET_NORDIC/TARGET_NRF5x/TARGET_NRF52/flash_api.c:195-206 | the erase unit for addresses in `[start, end)`, MBED_FLASH_INVALID_SIZE otherwise |
| FlashApi.Flash.SectorSizeValidExactlyInRegion | targets/TARGET_NORDIC/TARGET_NRF5x/TARGET_NRF52/flash_api.c:188-220 | the geometry queries agree: a sector size is valid exactly for addresses within `flash_get_size()` bytes of `flash_get_start_address()` |
| FlashApi.Flash.GetPageSize | targets/TARGET_NORDIC/TARGET_NRF5x/TARGET_NRF52/flash_api.c:208-214 | the page size is the 4-byte word, a positive rounding unit for `align_up` |
| FlashApi.Flash.GetStartAddress | targets/TARGET_NORDIC/TARGET_NRF5x/TARGET_NRF52/flash_api.c:216-220 | the reported start address is where the region starts |
| FlashApi.Flash.GetEraseValue | targets/TARGET_NORDIC/TARGET_NRF5x/TARGET_NRF52/flash_api.c:222-227 | erased flash reads as 0xFF |
| FlashApi.Flash.StartProgramPage | targets/TARGET_NORDIC/TARGET_NRF5x/TARGET_NRF52/flash_api.c:229-271 | requires nothing in flight; no write request is sent on an empty queue, and otherwise exactly `Retry.Attempts` of them; its do-while retry loop and re-push produce exactly StartNext's status, queue and in-flight buffer; every buffer stays owned; the invariant (≤ 20 queued, each once, the in-flight one not queued) is kept |
| FlashApi.Flash.WriteWithRetry | targets/TARGET_NORDIC/TARGET_NRF5x/TARGET_NRF52/flash_api.c:249-257 | the do-while sends at least one write and exactly `Retry.Attempts` of them: every answer but the last was NO_MEM within 200 ms, the last one stops the loop, and the result is that last answer |
| FlashApi.Flash.HandleEvent | targets/TARGET_NORDIC/TARGET_NRF5x/TARGET_NRF52/flash_api.c:273-289 | events other than a write result change nothing; a write result requires a buffer in flight, frees it and then starts the next write as StartNext says |
| Scenarios.FailedStartReordersQueue | targets/TARGET_NORDIC/TARGET_NRF5x/TARGET_NRF52/flash_api.c:259-267 | A queued while busy, then B while idle, and A's write is rejected: both calls return -1, the queue is B then A, and nothing is in flight |
| Scenarios.WritesStartOneAtATime | targets/TARGET_NORDIC/TARGET_NRF5x/TARGET_NRF52/flash_api.c:273-289 | with A in flight, B waits in the queue; only A's write-result event puts B in flight |
| Scenarios.FullQueueRefusesRequest | targets/TARGET_NORDIC/TARGET_NRF5x/TARGET_NRF52/flash_api.c:170-175 | with 20 requests queued, a 21st returns -1, the queue stays at 20 and its buffer is freed (no leak) |
| Scenarios.EraseGivesUpAfterTimeout | targets/TARGET_NORDIC/TARGET_NRF5x/TARGET_NRF52/flash_api.c:131-149 | against a driver that always answers NO_MEM, the erase stops at the reading 200 ms after the start and fails |
| Scenarios.EraseAcrossTickerWrap | targets/TARGET_NORDIC/TARGET_NRF5x/TARGET_NRF52/flash_api.c:134-138 | the unsigned `now - start` measures elapsed time correctly across a ticker wrap |
| Scenarios.SecondInitHidesFailure | targets/TARGET_NORDIC/TARGET_NRF5x/TARGET_NRF52/flash_api.c:86-117 | after a failed driver initialisation, the second `flash_init` returns 0 |
| Scenarios.DroppedRequestStillReportsSuccess | targets/TARGET_NORDIC/TARGET_NRF5x/TARGET_NRF52/flash_api.c:168-185 | when malloc fails, the request is not queued, but the idle driver is given the queued head and the call returns 0 |

## Findings

| source | as written | input that shows it | evidently intended | confidence | as-written member | corrected member |
|---|---|---|---|---|---|---|
| targets/TARGET_NORDIC/TARGET_NRF5x/TARGET_NRF52/flash_api.c:64-171 | `write_size` is a `uint8_t`, so `(uint8_t) align_up(size, 4)` keeps the rounded size modulo 256. `malloc`, `nrf_fstorage_write` and the queue use the truncated size, while `memcpy` copies all `size` bytes | `size = 256` gives `write_size = 0`: `malloc(0)`, then a 256-byte `memcpy` into it. `size = 300` gives 44 | the request records the full rounded size, which covers every copied byte | not executed | Alignment.TruncatedWriteSizeLosesBytes | Alignment.WriteSize |

`FlashApi.Flash.ProgramPage` keeps the `uint8_t` field as written. When
malloc succeeds, it takes the memory-safety bound of the `memcpy` that follows
as a precondition (`size` fits the recorded write size). When malloc fails no
copy happens, and any size is accepted. `Alignment.TruncationHarmlessWhenCopyFits` shows that
this bound holds exactly for `size <= 252`, and that there the recorded size
equals `Alignment.WriteSize`.

## Left out

- FlashApi.Flash.ProgramPage: a successful malloc followed by the memcpy of `size` bytes into a buffer of the truncated write size is not modelled for `size > 252`. It is required away, since it overflows the heap buffer (see Findings). Requests of any size whose malloc fails are modelled.
- FlashApi.Flash.ProgramPage: the bytes of the data, the copy and the uninitialised padding are not modelled. Buffers are identities, tracked only for ownership.
- FlashApi.Flash.Init: the driver's region is set on the first call whatever `nrf_fstorage_init` returns. The erase unit is a parameter standing for the `p_flash_info->erase_unit` the driver fills in. CODESIZE and CODEPAGESIZE (FICR registers) are parameters.
- Internals of `nrf_fstorage_*` and `nrf_queue_*` are vendor code. The driver is an oracle of answers and busy flags. The queue is a bounded FIFO that refuses pushes when full.
- `lp_ticker_read` is hardware. Its readings come with the driver's answers.
- Interrupt context and `CRITICAL_REGION_ENTER`/`EXIT`: the write-result event is a discrete, atomic call (`HandleEvent`). With the NVMC backend, the event would be delivered inside `nrf_fstorage_write` itself. That re-entrant drain is not modelled.
- One `flash_t` object is modelled. In the source the queue and the init flag are process-wide, while `data_current_buffer` is per object. Several objects sharing the queue are not modelled.
- `MBED_ASSERT` failures are preconditions (`current == None` before a start; a buffer in flight on a write result), not modelled crash paths.
- The requests and buffers dropped by `flash_init`'s queue reset stay allocated (`live` keeps them). The model records this leak and does not free them.
- `PinNames.h` and `PeripheralPinsRegent.c` are static pin tables without logic, and are not part of this model.
