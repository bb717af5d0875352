# Zephyr: HCI over SPI, the nRF5 ticker clock and the flash samples

A Dafny model of a few parts of the Zephyr RTOS:

- **The Bluetooth HCI-over-SPI transport** between the host driver (`drivers/bluetooth/hci/spi.c`) and the nRF51 controller firmware (`samples/bluetooth/hci-spi/src/main.c`).
  - Host to controller: one buffer per 255-byte transfer, framed as `[len + 2, type, data...]`.
  - Controller to host: up to 255 bytes holding `[count, (type, len, data...)*]`, packed under a byte budget.
  - Each side is a class holding its queues and its fixed transmit buffer. The framing loops are methods proved against functions that specify the frames.
  - Round-trip lemmas tie each encoder to the decoder on the other side.
- **The tickless-idle clock driver over the controller's ticker** (`drivers/timer/ticker_timer.c`):
  - the clamp of the idle request to a non-zero 16-bit lazy count;
  - the two flags by which idle entry and exit release each other;
  - the wrapping 32-bit cycle counter;
  - the initialisation return code.
- **The Kinetis K64F flash driver** (`drivers/flash/soc_flash_mk64f.c`) as a contract over memory-mapped flash. Offsets become 32-bit addresses and unaligned writes are refused. Vendor statuses become 0 or -1. Each FLASH_Erase and FLASH_Program call an instance issues is recorded; FLASH_Init is only its status.
- **The logic of the two flash test samples**:
  - `sstrstr`;
  - the sector tables;
  - the alternating test pattern and its check;
  - the split of large sectors into 64 KB passes;
  - the 16 KB block addressing inside 1 MB;
  - the progress-mark cycle;
  - which sectors are erased.

Modules:

- `Bytes`: bytes, `Option`, and memset/memcpy/copy-out loops.
- `HciBuf`: buffer types and `Packet`.
- `HciSpiHost`
- `HciSpiController`
- `HciSpiLink`: the round trips.
- `TickerTimer`
- `FlashMk64f`
- `SampleSearch`: `sstrstr`, which is identical in both samples.
- `Stm32f4FlashTest`
- `Mk64fFlashTest`

Things the code takes from the outside become parameters:

- SPI transceive statuses, and whether a buffer pool had a free buffer (`allocOk`);
- the statuses returned by the ticker and vendor flash libraries;
- the bytes a flash read returns in the samples.

Delivering a buffer (`bt_recv`, `bt_send`) appends it to a sequence field. The values of `bt_buf_type` (CMD 0, EVT 1, ACL_OUT 2, ACL_IN 3), of the ticker statuses (success 0, failure 1, busy 2) and of `kStatus_Success` (0) come from headers that are not part of this model. Only their distinctness matters.

Neither HCI decoder checks its input:

- The host's cursor can walk past its 255-byte buffer.
- The controller computes `spi_buf_len - 2` for a length byte of 1, and memcpy then gets `(size_t)-1`.

The model states these as preconditions (`ParseFrame(...).Some?`, `DecodableCommand`). The host's treatment of a rejected record is modelled as written: it skips the two header bytes but not the payload. A concrete lemma shows what that does to the next record.

## Model

| member | source | states |
|---|---|---|
| HciSpiHost.FitsFrame | drivers/bluetooth/hci/spi.c:286-295 | The size check of the send thread. A buffer that passes it has a length byte `len + 2` that the `uint8_t` store does not truncate. |
| HciSpiHost.CommandFrame | drivers/bluetooth/hci/spi.c:294-297 | The 255-byte transmit buffer holds length byte `len + 2`, then the type, then the data in order, then zeros. |
| HciSpiHost.ParseRecords | drivers/bluetooth/hci/spi.c:226-264 | The record walk: `n` records from the cursor, where a rejected record skips only its header. A walk that stays inside the buffer delivers at most `n` buffers. |
| HciSpiHost.ParseRecordsYieldsIncoming | drivers/bluetooth/hci/spi.c:224-264 | Walking `n` records yields at most `n` buffers. Each is EVT or ACL_IN and holds fewer than 256 bytes, its length having come in one byte. |
| HciSpiHost.WalkStep | drivers/bluetooth/hci/spi.c:227-262 | One step of a walk that succeeds. The header lies inside the buffer. An accepted record's data does too, it is the next buffer delivered, and the walk resumes `2 + len` bytes on. A rejected record leaves the rest of the result to the walk from 2 bytes on. |
| HciSpiHost.ParseFrame | drivers/bluetooth/hci/spi.c:218-226 | A count byte of 0 yields no buffers. Otherwise the records are walked from byte 1, and at most `count` buffers come out. |
| HciSpiHost.RejectedRecordSkipsHeaderOnly | drivers/bluetooth/hci/spi.c:227-251 | For an unknown type or a failed allocation, the walk goes on 2 bytes later, with the payload not skipped. |
| HciSpiHost.AllocationFailureMisreadsPayload | drivers/bluetooth/hci/spi.c:234-262 | Frame `[2, EVT, 2, ACL_IN, 0, EVT, 1, 9]` with no buffer for the first record. Its payload is read as a header, so an empty ACL_IN buffer is delivered and the real second event is lost. |
| HciSpiHost.SpiHost.Queue | drivers/bluetooth/hci/spi.c:362-375 | Returns 0 exactly for CMD and ACL_OUT, which are appended at the tail of the transmit queue. Anything else returns -1 and leaves the queue unchanged. |
| HciSpiHost.SpiHost.SendNext | drivers/bluetooth/hci/spi.c:281-301 | Takes the oldest queued buffer. A buffer with `len + 2 > 255` is dropped and nothing is sent. Otherwise the buffer equals `CommandFrame` and exactly byte-0 bytes, `len + 2`, are sent. |
| HciSpiHost.WalkFrame | drivers/bluetooth/hci/spi.c:223-264 | The record loop, reading the array in place, returns exactly `ParseFrame`'s buffers, in frame order. |
| HciSpiHost.SpiHost.Receive | drivers/bluetooth/hci/spi.c:195-264 | A failed transceive or a count byte of 0 delivers nothing. Otherwise it delivers exactly `ParseFrame`'s buffers, in frame order, appended to those delivered before. |
| HciSpiController.Record | samples/bluetooth/hci-spi/src/main.c:202-206 | A record is type byte, length byte, data: `len + 2` bytes. |
| HciSpiController.Records | samples/bluetooth/hci-spi/src/main.c:170-206 | The records of a list of buffers, back to back in list order, at least two header bytes each. |
| HciSpiController.RecordsAppend | samples/bluetooth/hci-spi/src/main.c:201-206 | Packing one more buffer appends exactly its record to the bytes of those packed before. |
| HciSpiController.MultiFrame | samples/bluetooth/hci-spi/src/main.c:170-206 | A controller frame is the count byte, equal to the number of records, followed by their bytes. |
| HciSpiController.PackExtras | samples/bluetooth/hci-spi/src/main.c:189-209 | The extra buffers taken from the queue never exceed the queue. |
| HciSpiController.PackExtrasSent | samples/bluetooth/hci-spi/src/main.c:189-209 | When the loop ends normally, it took a prefix of the queue, in order. It spent no more than the budget. It stopped only at an empty queue or with fewer than 72 bytes left. |
| HciSpiController.PackExtrasInvalid | samples/bluetooth/hci-spi/src/main.c:194-199 | -EINVAL comes exactly at the first buffer longer than 70 bytes. Every buffer before it fitted. |
| HciSpiController.Pack | samples/bluetooth/hci-spi/src/main.c:158-209 | A sent frame has records that all fit, fewer than 256 of them, and never takes more buffers than are queued. |
| HciSpiController.PackSent | samples/bluetooth/hci-spi/src/main.c:169-212 | A sent frame is the first buffer followed by the buffers taken, in queue order. Byte 0 is the number of records. The frame is at most 255 bytes. |
| HciSpiController.PackInvalid | samples/bluetooth/hci-spi/src/main.c:158-199 | -EINVAL takes no buffer exactly when the first buffer is longer than 70. Otherwise it stops at the first oversized extra. |
| HciSpiController.PutRecord | samples/bluetooth/hci-spi/src/main.c:202-206 | Writes a record at `offset` and keeps every other byte. |
| HciSpiController.StartFrame | samples/bluetooth/hci-spi/src/main.c:167-176 | After memset and the first record, the buffer is `[1, type, len, data...]` followed by zeros. |
| HciSpiController.AddToFrame | samples/bluetooth/hci-spi/src/main.c:201-207 | Incrementing byte 0 and writing the record where the padding began gives the frame of one more record, with the padding shortened by the record. |
| HciSpiController.DecodeCommand | samples/bluetooth/hci-spi/src/main.c:244-283 | Length byte 0 is a handshake. Only CMD and ACL_OUT with a free buffer are forwarded, and exactly those. The forwarded buffer has the type of byte 1 and data bytes 2 to `len - 1`, of length `len - 2`. |
| HciSpiController.SpiController.Transmit | samples/bluetooth/hci-spi/src/main.c:149-222 | The queue loses exactly the buffers taken. On -EINVAL nothing is sent. Otherwise the result is the transceive status, the sent length equals the frame length (at most 255), and the buffer holds the frame, zero-padded. |
| HciSpiController.SpiController.PackQueued | samples/bluetooth/hci-spi/src/main.c:188-209 | The loop's invariant: bytes used plus `remaining` is 255. The buffer holds the frame of the records packed so far, zero-padded. The outcome agrees with `PackExtras`. |
| HciSpiController.SpiController.Receive | samples/bluetooth/hci-spi/src/main.c:236-288 | A failed transceive does nothing. Otherwise the result is `DecodeCommand`, and exactly a forwarded buffer is appended to those sent up the stack. |
| HciSpiLink.HostFrameDecodes | drivers/bluetooth/hci/spi.c:294-297 | A frame built by the host from a queued buffer has length byte at least 2, so the controller (main.c:247-283) never sees a handshake or the length-1 case. With a free buffer the controller forwards exactly the original type and data. |
| HciSpiLink.ParseEncodedRecord | drivers/bluetooth/hci/spi.c:226-262 | Where a record's type, length and data lie at the cursor, an accepted record is read back as that buffer, ahead of whatever the walk yields after it. |
| HciSpiLink.ParseRecordsOfEncoding | drivers/bluetooth/hci/spi.c:224-264 | Records laid out back to back, all EVT/ACL_IN and always given a buffer, are read back as exactly the same list, in order, whatever follows them. |
| HciSpiLink.ControllerFrameParses | samples/bluetooth/hci-spi/src/main.c:170-209 | Under those conditions the host delivers from a controller frame exactly the buffers packed, in packing order. |
| TickerTimer.Lazy | drivers/timer/ticker_timer.c:49-55 | The lazy count is always in 1..65535 and never 0. It is 65535 for negative or very large requests and `ticks + 1` otherwise. |
| TickerTimer.LazyMonotone | drivers/timer/ticker_timer.c:49-53 | A longer non-negative idle request never gives a smaller lazy count. |
| TickerTimer.LazyOfForeverIsLongest | drivers/timer/ticker_timer.c:49-50 | An open-ended (negative) request gets the largest lazy count of all. |
| TickerTimer.ClockDriverInit | drivers/timer/ticker_timer.c:113-137 | Returns -1 exactly when ticker_init fails. Returns 0 exactly when start reports success or busy. Otherwise returns the start status. |
| TickerTimer.TickPeriodUs | drivers/timer/ticker_timer.c:123 | The tick period is the largest whole number of microseconds with `us * ticks_per_sec <= 1000000`. |
| TickerTimer.TicklessTimer.IdleEnter | drivers/timer/ticker_timer.c:41-62 | Does nothing while the enter flag is set. Otherwise sets it and issues exactly one update with `Lazy(ticks)`, whose completion clears the exit flag. |
| TickerTimer.TicklessTimer.IdleExit | drivers/timer/ticker_timer.c:64-76 | Does nothing while the exit flag is set. Otherwise sets it and issues one update with lazy 1, whose completion clears the enter flag. |
| TickerTimer.TicklessTimer.OpDone | drivers/timer/ticker_timer.c:34-39 | Clears exactly the flag given as context and leaves the other. |
| TickerTimer.TicklessTimer.Timeout | drivers/timer/ticker_timer.c:80-95 | Adds one tick's cycles to the counter modulo 2^32. Sets the idle elapsed ticks to `lazy + 1`. |
| TickerTimer.TicklessTimer.CycleGet | drivers/timer/ticker_timer.c:140-143 | Returns the counter, a 32-bit value, without changing anything. |
| TickerTimer.WrappingAdd | drivers/timer/ticker_timer.c:88 | uint32 addition: the exact sum when it fits, the sum less 2^32 otherwise. |
| TickerTimer.WrappingAddDifference | drivers/timer/ticker_timer.c:88 | Across wrap-around, the unsigned difference between readings one timeout apart is one tick's cycles. |
| FlashMk64f.StatusToResult | drivers/flash/soc_flash_mk64f.c:46 | 0 exactly for kStatus_Success, -1 for any other status. |
| FlashMk64f.Address | drivers/flash/soc_flash_mk64f.c:40 | The address is `offset + PFlashBlockBase` modulo 2^32. It is the plain sum when that fits. |
| FlashMk64f.AlignedOffsetGivesAlignedAddress | drivers/flash/soc_flash_mk64f.c:69-76 | With a word-aligned block base, the offset check alone makes the programmed address word-aligned. |
| FlashMk64f.Mk64fFlash.Init | drivers/flash/soc_flash_mk64f.c:96-103 | 0 exactly when FLASH_Init succeeds, -1 otherwise. |
| FlashMk64f.Mk64fFlash.Erase | drivers/flash/soc_flash_mk64f.c:33-47 | Issues one erase of `len` bytes at the translated address. Returns 0 exactly when it succeeded, -1 otherwise. Flash inside the range may change; every byte outside it keeps its value. |
| FlashMk64f.Mk64fFlash.Read | drivers/flash/soc_flash_mk64f.c:49-59 | Always returns 0. Copies exactly `len` bytes from the translated address into `data` and leaves the rest of `data`, and all of flash, unchanged. |
| FlashMk64f.Mk64fFlash.Write | drivers/flash/soc_flash_mk64f.c:61-80 | An offset not a multiple of 4 returns -1 and programs nothing; the length is not checked. Otherwise issues one program of `data` at the translated address and returns 0 exactly on success. A refused write leaves flash as it was. Otherwise flash inside the range may change, and every byte outside it keeps its value. |
| FlashMk64f.Mk64fFlash.WriteProtection | drivers/flash/soc_flash_mk64f.c:82-85 | Always 0, with no effect. |
| SampleSearch.FirstMatchFromIsLowest | samples/drivers/soc_flash_stm32f4/src/main.c:61-70 | The search from index `from` finds the lowest match at or after it. None means there is none. |
| SampleSearch.FirstMatchIsLowest | samples/drivers/soc_flash_stm32f4/src/main.c:56-71 | sstrstr returns the lowest `i < length` with `i + strlen(needle) <= length` at which the needle occurs. NULL means there is no such `i`. |
| SampleSearch.FirstMatchFromReadsOnlyPrefix | samples/drivers/soc_flash_stm32f4/src/main.c:61-66 | Bytes at or beyond `length` never affect the result. |
| SampleSearch.EmptyNeedle | samples/drivers/soc_flash_stm32f4/src/main.c:58-70 | An empty needle is found at index 0 when `length > 0`, and not at all when `length == 0`. |
| SampleSearch.StrNCmpEqual | samples/drivers/soc_flash_stm32f4/src/main.c:66 | strncmp over the needle's length is 0 exactly when the haystack holds the needle there. |
| SampleSearch.SStrStr | samples/drivers/soc_flash_stm32f4/src/main.c:56-71 | The loop returns the first match as specified above. The copy at samples/drivers/soc_flash_mk64f/src/main.c:44-59 is the same code. |
| Stm32f4FlashTest.SectorsContiguous | samples/drivers/soc_flash_stm32f4/src/main.c:24-36 | Each sector starts where the previous one ends. They cover 0 to 0x80000. |
| Stm32f4FlashTest.Label | samples/drivers/soc_flash_stm32f4/src/main.c:41-54 | The six-character "KB" labels go exactly to 16K, 64K, 128K and 0. Every other length gets the blank label. |
| Stm32f4FlashTest.Passes | samples/drivers/soc_flash_stm32f4/src/main.c:75-94 | One or two passes of at most 64 KB. |
| Stm32f4FlashTest.PassesCoverSector | samples/drivers/soc_flash_stm32f4/src/main.c:80-94 | For sectors up to 128 KB, the passes stay inside the sector and together reach every byte of it. |
| Stm32f4FlashTest.LargeSectorHalves | samples/drivers/soc_flash_stm32f4/src/main.c:80-94 | A 128 KB sector is tested as its two 64 KB halves. |
| Stm32f4FlashTest.Expected | samples/drivers/soc_flash_stm32f4/src/main.c:112 | 0xA5 at even indices, 0x5A at odd ones. |
| Stm32f4FlashTest.LowByteOfNot | samples/drivers/soc_flash_stm32f4/src/main.c:90 | `0x000000FF & ~x` on the 32-bit promoted byte is always a byte, and it swaps 0xA5 and 0x5A. |
| Stm32f4FlashTest.FillStepIsPattern | samples/drivers/soc_flash_stm32f4/src/main.c:88-91 | The C step applied to the pattern byte at `j - 1` gives the pattern byte at `j`. |
| Stm32f4FlashTest.CheckedValue | samples/drivers/soc_flash_stm32f4/src/main.c:112 | `0x000000FF & ((j % 2) ? ~val : val)`, evaluated in 32 bits, is the pattern byte at `j`. |
| Stm32f4FlashTest.FillPattern | samples/drivers/soc_flash_stm32f4/src/main.c:88-91 | The complement loop produces exactly the pattern the check expects, at every index. |
| Stm32f4FlashTest.CheckPattern | samples/drivers/soc_flash_stm32f4/src/main.c:110-117 | Stops at the first byte differing from the pattern, or at `len` when none differs. |
| Stm32f4FlashTest.TestPass | samples/drivers/soc_flash_stm32f4/src/main.c:86-126 | What is written is the pattern. The check finds no error exactly when the readback equals what was written. Otherwise it stops at the first differing byte. |
| Stm32f4FlashTest.TestAccess | samples/drivers/soc_flash_stm32f4/src/main.c:73-128 | For each pass of sector i, the check passes exactly when that pass's readback is the pattern. |
| Stm32f4FlashTest.EraseRequests | samples/drivers/soc_flash_stm32f4/src/main.c:146-160 | The erase loop erases sectors 2 to 7, in order, and skips 0 and 1. |
| Stm32f4FlashTest.ErasesSpareFirmware | samples/drivers/soc_flash_stm32f4/src/main.c:146-154 | No erased address lies in sector 0 or sector 1. |
| Stm32f4FlashTest.LookForFirmware | samples/drivers/soc_flash_stm32f4/src/main.c:162-175 | FOUND exactly when the read succeeded and the banner occurs in the first 16 KB. |
| Mk64fFlashTest.SectorStart | samples/drivers/soc_flash_mk64f/src/main.c:74-76 | Sector starts are multiples of 4 KB. |
| Mk64fFlashTest.FillSectorTable | samples/drivers/soc_flash_mk64f/src/main.c:74-76 | After the loop, `sector[i].start == i * 4096` for every i. |
| Mk64fFlashTest.SectorsTileFlash | samples/drivers/soc_flash_mk64f/src/main.c:24-32 | 256 sectors, consecutive, ending exactly at 1 MB. |
| Mk64fFlashTest.WritePattern | samples/drivers/soc_flash_mk64f/src/main.c:111-113 | Every byte of the pattern is in 0..254. It is the index itself below 255. |
| Mk64fFlashTest.FillWriteBuffer | samples/drivers/soc_flash_mk64f/src/main.c:110-113 | The loop leaves `j % 255` at every index j. |
| Mk64fFlashTest.BlockSector | samples/drivers/soc_flash_mk64f/src/main.c:119 | `4 + i * BUFFER_LEN / SECTOR_LEN` is exactly sector `4 + 4i`: the division loses nothing. |
| Mk64fFlashTest.BlockAddress | samples/drivers/soc_flash_mk64f/src/main.c:118-128 | Block i is written and read at `16 KB * (i + 1)`. |
| Mk64fFlashTest.BlockLayout | samples/drivers/soc_flash_mk64f/src/main.c:116-128 | 63 iterations. Iteration i uses sector `4 + 4i`, below 256, at address `16 KB * (i + 1)`. The blocks are consecutive and the last ends exactly at 1 MB. |
| Mk64fFlashTest.EraseStart | samples/drivers/soc_flash_mk64f/src/main.c:101 | The erase starts at 16 KB. |
| Mk64fFlashTest.EraseCoversBlocks | samples/drivers/soc_flash_mk64f/src/main.c:100-106 | The erase ends at 1 MB and covers every byte the check loop writes. |
| Mk64fFlashTest.NextProgress | samples/drivers/soc_flash_mk64f/src/main.c:135 | The next progress index is always in 0..3. |
| Mk64fFlashTest.ProgressCycles | samples/drivers/soc_flash_mk64f/src/main.c:115-135 | After n steps from 0 the progress index is `n mod 4`. |
| Mk64fFlashTest.MemEqual | samples/drivers/soc_flash_mk64f/src/main.c:137 | memcmp is 0 exactly when the two buffers agree on their first n bytes. |
| Mk64fFlashTest.CheckBlock | samples/drivers/soc_flash_mk64f/src/main.c:125-140 | After clearing and reading, the buffers compare equal exactly when the readback equals the write buffer. |
| Mk64fFlashTest.CheckFlash | samples/drivers/soc_flash_mk64f/src/main.c:115-141 | The loop stops at the first block whose readback differs, and every earlier block matched. It writes at 16 KB, 32 KB, ... in order. The progress index equals the blocks written mod 4. |
| Mk64fFlashTest.LookForFirmware | samples/drivers/soc_flash_mk64f/src/main.c:84-98 | The test goes on exactly when the read failed or sstrstr finds the banner in the first 16 KB. A successful read without the banner ends it. |

## Left out

- Threads, semaphores (`sem_req`, `sem_rdy`, `sem_spi_active`, `sem_rx_thread`, `sem_tx_thread`), `k_sleep` and the endless thread loops. Each model method is one round of a loop, run sequentially.
- SPI transceive, GPIO pins and callbacks, and `device_get_binding`. Transceive is a status parameter, and the data it brings in is an array parameter.
- `net_buf` pools. Allocation success is a parameter: per record on the host, per transfer on the controller.
- The choice between `bt_recv` and `bt_recv_prio` on the host. Both deliver the buffer, and the model appends it to `delivered`.
- `hexdump`, `printf`, `printk` and all logging.
- The ticker library (`ticker_init`, `ticker_start`, `ticker_update`, `ticker_ticks_now_get`, `work_run`), `clock_k32src_start`, and the `TICKER_US_TO_TICKS`/`TICKER_REMAINDER` conversions. Their statuses are parameters, and the updates the driver issues are recorded.
- `_sys_clock_tick_announce` and the SWI5 interrupt service routine, along with `irq_lock`/`irq_unlock` around the vendor calls.
- What FLASH_Erase and FLASH_Program leave in the range they are given. They are foreign, so the model records the call and its arguments, and leaves those bytes unconstrained rather than invent erased or programmed values. That they touch nothing outside the range is taken from their interface, not from code in this model.
- FlashMk64f.Mk64fFlash.Init does not record the FLASH_Init call in `ops`. It is static, and only its status matters to the driver.
- The flash drivers behind the two samples. Their return codes there only lead to messages, and what a read returns is a parameter.
- The samples' `main` sequencing as a whole. The steps are modelled one by one: erase, firmware search, per-sector or per-block test.
- HciSpiHost.SpiHost.Receive requires that the record walk stays inside the 255-byte buffer. The driver does not check this, and a longer walk would read past the array.
- HciSpiHost.WalkFrame requires the same of its walk, for the same reason.
- HciSpiHost.SpiHost.Receive appends the walk's buffers to `delivered` once the walk is over, where the driver hands each to `bt_recv` as it goes. No part of the model observes the state in between.
- HciSpiController.SpiController.Receive requires `DecodableCommand`: an accepted type with length byte 1 makes the driver copy `(size_t)-1` bytes.
- FlashMk64f.Mk64fFlash.Read requires the translated range to lie inside the modelled memory. The driver copies from whatever address it computes.
- TickerTimer.TicklessTimer.OpDone does not model the `ASSERT` on the completion status. Nor do the update calls model the `ASSERT` that their status is success or busy.
- SampleSearch.SStrStr takes the needle as its bytes before the terminating zero. That zero is not modelled.
- `tests/kernel/lifo/test_lifo_api/src/test_lifo_loop.c` and `samples/basic/disco/src/main.c` are not part of this model. The first exercises a LIFO that is not among these files across a thread and an interrupt. The second only blinks LEDs.
