# embedded-utils: a verified model of its sequential core

This project models, in Dafny, the parts of embedded-utils that small
STM32 firmware builds on:

- **The staged bootloader self-update.** `update_bootloader` in
  bench/fwupdate_tb.c, with the fake on-chip flash and the CRC session it
  drives. This is module `FwUpdate` over module `FakeFlash`. The flash is
  64 pages of 2048 bytes, with per-page erased flags and a lock flag. The
  routine first checks the image CRC and its page count. It then erases the
  image's pages and writes a jump-to-application stub into page 0. Next it
  writes every 64-bit word after page 0 and relocks. It checks a CRC built
  from the image's page 0 followed by the flash from offset 2048. Last it
  rewrites page 0 and checks the CRC of the whole image in flash.
- **The CRC-32 engine of src/stm32crc.c** (module `Stm32Crc`). It uses the
  STM32 hardware-CRC parameters: polynomial 0x04C11DB7, initial value
  0xFFFFFFFF, most significant bit first, no reflection and no final XOR.
  These are the CRC-32 parameters of ISO/IEC 13818-1, annex A. The code
  fills a 256-entry table lazily. It offers a one-shot calculation and a
  per-byte step.
- **The ring buffer of src/ringbuf.h and src/ringbuf.c** (module
  `RingBuffer`). It is a power-of-two circular index (head, tail,
  wrap = size - 1) over a data array. It offers count and space, push and
  pop, create and clear, and acquire/current/release, which hand out slot
  indices without touching the data.
- **The integer formatters of src/strfmt.c** (module `StrFmt`). These are:
  - `strapp`;
  - the 16-, 32- and 64-bit unsigned and signed decimal printers, with
    their `sprint*` variants;
  - the 4.60 fixed-point helpers `frac_to_str` and `bankers64`.
- **The SDA response buffers of bench/response.c** (module `Response`):
  four output buffers handed out through a ring buffer over their ready flags.

Each stateful entity of the C code is a class whose methods update it in
place:

- the flash, the CRC session and the CRC table;
- the ring buffer, over an `array`;
- the response buffers.

Every method is proved against pure functions that give its meaning:
- `CrcCalc` and the table-free `BitwiseFold` for the CRC;
- `Contents` and `Slots` for the ring buffer;
- `Decimal` and `SignedDecimal` (what `sprintf`'s `%u` and `%d` print) and
  `FracDigits` and `RoundToEven` for the formatters.

A C `char *` argument is an array together with an index into it. The
printers are proved to write exactly the decimal text and a NUL, and to
leave every other cell of the buffer unchanged (`StrFmt.Written`).

The fake flash never fails. So once an image passes the two preparation
checks, every later error return of `update_bootloader` is proved
unreachable. These returns are the erase and write failures and the two
later CRC mismatches. The proof is an `assert false` on each such path.

## Model

| member | source | states |
|---|---|---|
| Stm32Crc.Engine.constructor | src/stm32crc.c:42-43 | program start: a 256-entry table, not yet initialised |
| Stm32Crc.Engine.Init | src/stm32crc.c:105-124 | every entry `crc_tab32[i]` is `i << 24` divided eight times by the polynomial (the table `Table()`), and the init flag is set; the result does not depend on the old contents |
| Stm32Crc.PolyStepAsWritten | src/stm32crc.c:117 | the branch-free step `(crc << 1) ^ ((crc >> 31) & 1) * POLY` is the textbook step: shift, and XOR in the polynomial when the top bit was set |
| Stm32Crc.Engine.Calc | src/stm32crc.c:51-77 | the result is the one-shot CRC of the first numBytes bytes, and the start value 0xFFFFFFFF for a NULL input; the table is built on first use and never changes afterwards |
| Stm32Crc.Engine.Next | src/stm32crc.c:83-98 | one table-driven byte step, `CrcNext`; initialises the table on first use and leaves an initialised table unchanged |
| Stm32Crc.TableIndexMasked | src/stm32crc.c:94-95 | the 32-bit index `((crc >> 24) ^ c) & 0xff` is the top byte of the register XOR the input byte |
| Stm32Crc.IndexAsWritten | src/stm32crc.c:72 | the array slot the C code reads is that table index |
| Stm32Crc.CrcNextIsBitwise | src/stm32crc.c:83-98 | the table step equals eight bitwise polynomial-division steps applied to `crc ^ (c << 24)` |
| Stm32Crc.CrcFoldIsBitwise | src/stm32crc.c:64-76 | the table-driven CRC of any message equals the bitwise CRC of that message |
| Stm32Crc.CrcFoldAppend | src/stm32crc.c:68-74 | folding over `a + b` is folding over `b` from the result over `a` |
| Stm32Crc.CrcCalcAppend | bench/fwupdate_tb.c:203-208 | the one-shot CRC of `a + b` is the one-shot CRC of `a` continued byte by byte over `b`; the streaming CRC session depends on this |
| Stm32Crc.TestVector | bench/stm32crc_tb.c:19-22 | the CRC of the 33 bytes "A test-string for CRC32 checking\n" is 0xF1C14AD9 |
| FakeFlash.Wrap32 | bench/fwupdate_tb.c:104-110 | a uint32_t sum is below 2^32 and is exact when it does not overflow |
| FakeFlash.Flash.constructor | bench/fwupdate_tb.c:21-24 | static storage: zeroed memory, no page erased, flash locked |
| FakeFlash.Flash.Unlock | bench/fwupdate_tb.c:132-136 | needs a locked flash and leaves it unlocked |
| FakeFlash.Flash.Lock | bench/fwupdate_tb.c:138-142 | needs an unlocked flash and leaves it locked |
| FakeFlash.Flash.Erase | bench/fwupdate_tb.c:102-113 | succeeds exactly when the range starts and ends inside the flash; then it sets the erased flag of exactly the pages `[page, page + num)`, and no flag is ever cleared |
| FakeFlash.Flash.Write | bench/fwupdate_tb.c:115-130 | needs an unlocked flash, an 8-aligned offset, a page below 22 and an erased page; it stores the 8 bytes at the offset, changes no other byte and reports success |
| FakeFlash.CrcSession.constructor | bench/fwupdate_tb.c:25-26 | no session open and `curr_crc` 0xFFFFFFFF |
| FakeFlash.CrcSession.Start | bench/fwupdate_tb.c:72-79 | needs a closed session; opens one seeded with the one-shot CRC of the first len bytes and returns that CRC |
| FakeFlash.CrcSession.Accum | bench/fwupdate_tb.c:81-89 | needs an open session; `curr_crc` and the result become the old `curr_crc` continued over the first len bytes |
| FakeFlash.CrcSession.Finish | bench/fwupdate_tb.c:91-97 | needs an open session; closes it and resets `curr_crc` to 0xFFFFFFFF |
| FwUpdate.WordRoundTrip | bench/fwupdate_tb.c:167 | a 32-bit word stored as four little-endian bytes reads back as the same word |
| FwUpdate.StubWords | bench/fwupdate_tb.c:45-50 | while page 0 starts with the stub, its words 0 to 3 read back as the four `jumpToApplication` vectors |
| FwUpdate.NumPagesWraps | bench/fwupdate_tb.c:161-164 | the length 0xFFFFFFFF wraps to zero pages and passes the size check, though it needs far more than 22 pages |
| FwUpdate.NumPagesBound | bench/fwupdate_tb.c:161-164 | num_pages is `ceil(length / 2048)`: the pages cover the image with less than a page to spare, and at most 22 pages are exactly the images of at most 44 KiB |
| FwUpdate.WordsInPages | bench/fwupdate_tb.c:186-189 | proof step of Stage II: every word it reads starts inside the image and lies in one of its num_pages pages |
| FwUpdate.WordsCover | bench/fwupdate_tb.c:188 | proof step of Stage II: the words it reads cover the image and end less than 8 bytes past it |
| FwUpdate.WriteStub | bench/fwupdate_tb.c:173-181 | Stage I erases exactly pages `[0, num_pages)` and makes the first 16 bytes of flash the stub; nothing else in memory changes |
| FwUpdate.WriteTail | bench/fwupdate_tb.c:186-195 | Stage II writes image word `i` at offset `8 * i` for exactly `i` in `[256, (length + 7) / 8)`; page 0 and everything past the last word keep their contents, so the stub survives |
| FwUpdate.TailCrc | bench/fwupdate_tb.c:203-208 | once the tail is in flash, the CRC of the image's page 0 continued over `length - 2048` flash bytes from offset 2048 is the image CRC |
| FwUpdate.CheckTail | bench/fwupdate_tb.c:199-217 | Stage III: that CRC equals crc32, so the mismatch return cannot happen; the session ends closed |
| FwUpdate.WriteHead | bench/fwupdate_tb.c:224-236 | Stage IV writes image words 0 to 255 over page 0, replacing the stub; nothing else changes |
| FwUpdate.CheckImage | bench/fwupdate_tb.c:245-255 | the final CRC of the first length bytes of flash equals crc32, so the final mismatch cannot happen |
| FwUpdate.Installed | bench/fwupdate_tb.c:247 | proof step of the final CRC check: a flash that agrees with the image on its first length bytes holds the image |
| FwUpdate.Install | bench/fwupdate_tb.c:166-243 | Stages I to IV for a validated image: the flash ends locked and the session closed; memory holds the image words up to `8 * ((length + 7) / 8)` and nothing else changed; exactly the image's pages are added to the erased set |
| FwUpdate.UpdateBootloader | bench/fwupdate_tb.c:147-256 | with the corrected page count (see Findings): the result is a CRC error when the image CRC differs from crc32, otherwise a length error when it needs over 22 pages, otherwise NULL; NULL exactly for a validated image; the lock is as on entry on every path; on an error no memory or erased flag has changed; on success the flash holds the image |
| FwUpdate.TestBench | bench/fwupdate_tb.c:269-283 | a 44 KiB image whatever its contents, with its own CRC, installs with a NULL result and the flash holds it afterwards |
| RingBuffer.MaskRange | src/ringbuf.h:34 | `x & wrap` on the values the fields reach adds or subtracts at most one size |
| RingBuffer.CountOf | src/ringbuf.h:77-80 | `(head - tail) & wrap` lies in `[0, wrap]`, is zero exactly when tail equals head, and is the distance from tail forward to head |
| RingBuffer.RingBuf.Count | src/ringbuf.h:77-80 | rb_count is in `[0, wrap]` and is zero exactly when tail equals head |
| RingBuffer.RingBuf.Space | src/ringbuf.h:82-85 | rb_space is in `[0, wrap]`; count plus space is wrap; it is zero exactly when advancing head would meet tail |
| RingBuffer.RingBuf.Slots | src/ringbuf.h:33-51 | the occupied slots, oldest first, number rb_count and start at tail |
| RingBuffer.SlotsAdvanceHead | src/ringbuf.h:33-34 | after head advances, the occupied slots are the old ones plus the old head |
| RingBuffer.SlotsAdvanceTail | src/ringbuf.h:50-51 | after tail advances, the occupied slots are the old ones without the first |
| RingBuffer.RingBuf.Create | src/ringbuf.c:11-21 | for a power-of-two size: wrap is size - 1, head and tail are 0, and the buffer is empty |
| RingBuffer.RingBuf.Over | bench/response.c:12 | a static `{0, 0, size - 1, buffer}`: an empty ring over the given array |
| RingBuffer.RingBuf.Clear | src/ringbuf.c:31-34 | tail becomes head; head is unchanged and the buffer is empty |
| RingBuffer.RingBuf.Push | src/ringbuf.h:30-40 | succeeds exactly when count is below wrap; then the element is stored at the old head, head advances modulo size, count grows by one and the element becomes the newest item (FIFO); on failure nothing changes |
| RingBuffer.RingBuf.Pop | src/ringbuf.h:46-57 | succeeds exactly when tail differs from head; then it returns the oldest item, `data[tail]`, tail advances modulo size, count drops by one and the rest stay in order; on failure nothing changes and the output keeps its value |
| RingBuffer.RingBuf.Acquire | src/ringbuf.c:40-52 | succeeds exactly when count is below wrap; then it returns the old head, in `[0, wrap]`, as the newest slot, and head advances modulo size; on failure head and the output keep their values |
| RingBuffer.RingBuf.Current | src/ringbuf.c:57-68 | succeeds exactly when count is positive, returning tail, the oldest slot; it changes nothing |
| RingBuffer.RingBuf.Release | src/ringbuf.c:73-85 | succeeds exactly when tail differs from head; then the oldest slot is dropped and tail advances modulo size; head is unchanged |
| RingBuffer.SanityChecks | bench/ringbuf_tb.c:23-47 | the sanity-check sequence on an 8-slot buffer runs with every assertion holding and ends holding just 90210 |
| RingBuffer.PushPopOne | bench/ringbuf_tb.c:30-33 | an item pushed into an empty buffer is popped back, and a second pop fails |
| RingBuffer.FillUp | bench/ringbuf_tb.c:35-42 | seven of eight pushes fit, the next push fails, and after one pop a push succeeds |
| RingBuffer.ClearCheck | bench/ringbuf_tb.c:44-47 | after rb_clear a pop fails and a push succeeds |
| RingBuffer.RandomPushPop | bench/ringbuf_tb.c:52-61 | under any sequence of pushes and pops the running count equals rb_count and stays in `[0, 8)` |
| Response.SdaMessages.constructor | bench/response.c:6-12 | zeroed ready flags and buffers, and an empty ring with wrap 3 over the flags |
| Response.SdaMessages.Start | bench/response.c:16-24 | returns NULL exactly when the ring already holds three slots (count equals wrap); otherwise it returns buffer idx, the old head in `[0, 4)`, clears that ready flag and adds idx as the newest slot; on NULL nothing changes and idx keeps its value |
| Response.SdaMessages.Finish | bench/response.c:28-35 | writes a newline at the end position and a NUL after it, changes no other buffer cell, sets the ready flag of idx and returns 1 |
| Response.ResponseTb | bench/response_tb.c:11-26 | the first start succeeds with buffer 0, and finishing it marks only that buffer ready |
| Response.Exhaust | bench/response.c:16-35 | with no release anywhere, three starts succeed and every later one returns NULL |
| StrFmt.NegateThenCast | src/strfmt.c:109-113 | `n = -n` on a negative signed n, then the cast to the unsigned type, gives abs(n); this holds for the most negative value too, whose negation wraps to itself |
| StrFmt.Decimal | bench/strfmt_tb.c:365-415 | the reference text of sprintf's `%u`: at least one digit, and a leading '0' only for zero |
| StrFmt.DecimalValueOf | bench/strfmt_tb.c:365-415 | the printed digits read back as the number |
| StrFmt.DecimalOfValue | bench/strfmt_tb.c:365-415 | every numeral without leading zeros is the printed form of its value |
| StrFmt.DecimalLength | src/strfmt.c:6-13 | the decimal form of n has at most k digits exactly when n is below 10^k |
| StrFmt.SignedDecimalHead | bench/strfmt_tb.c:370-379 | sprintf's `%d` text starts with '-' exactly for negative n, and the digits of abs(n) follow |
| StrFmt.BufferSizes | src/strfmt.c:6-13 | MAX_UINT16_BYTES, MAX_SINT16_BYTES and the 32- and 64-bit constants hold every output of their width and its NUL |
| StrFmt.PrintU16 | src/strfmt.c:40-101 | the unrolled chain of `__printu16`/`printu16` writes the decimal form of n and a NUL, changes nothing else in the buffer and returns the index of the NUL |
| StrFmt.PrintDigitsLoop | src/strfmt.c:42-55 | the reference loops of the disabled branch (lowest digit first into m, then copied back) write the same decimal text and NUL |
| StrFmt.DigitsLowFirst | src/strfmt.c:46-50 | the collected digits, at most 10, are the decimal form reversed |
| StrFmt.CopyReversed | src/strfmt.c:52-55 | the copy-back loop writes m reversed and a NUL, and nothing else |
| StrFmt.WrittenUnique | src/strfmt.c:40-92 | two writes of the same text from the same buffer leave the same buffer, so the unrolled chain and the reference loop agree cell for cell |
| StrFmt.CopyBack | src/strfmt.c:79-86 | the goto chain copies the collected digits back highest first |
| StrFmt.PrintU32 | src/strfmt.c:142-205 | `__printu32`/`printu32` write the decimal form of n and a NUL, changing nothing else: five low digits and the rest, below 42950, through `__printu16` |
| StrFmt.TopDigits | src/strfmt.c:183 | what is left above five low digits is printed by `__printu16`, whose NUL the next copy overwrites |
| StrFmt.PrintU64 | src/strfmt.c:238-276 | printu64 writes the decimal form of x, at most 20 digits, and a NUL, changing nothing else, and returns the index of the NUL |
| StrFmt.DigitsBackwards | src/strfmt.c:241-248 | the do/while stores the decimal form at the end of the local m, lowest digit last |
| StrFmt.MemcpyTerminated | src/strfmt.c:250-251 | memcpy of the n digits used, then the NUL |
| StrFmt.PutSign | src/strfmt.c:109-112 | a '-' exactly for negative n, and a value left whose unsigned cast is abs(n) |
| StrFmt.PrintI16 | src/strfmt.c:107-114 | printi16 writes sprintf's `%d` text of n and a NUL and returns the index of the NUL, the minimum -32768 included |
| StrFmt.PrintI32 | src/strfmt.c:207-214 | the same for printi32 over int32_t |
| StrFmt.PrintI64 | src/strfmt.c:278-290 | the same for `__printi64`/printi64 over int64_t |
| StrFmt.SprintU16 | src/strfmt.c:120-123 | writes the decimal text and NUL and returns the number of digits |
| StrFmt.SprintI16 | src/strfmt.c:129-137 | writes the signed text and NUL and returns its length, sign included |
| StrFmt.SprintU32 | src/strfmt.c:230-233 | as SprintU16 for uint32_t |
| StrFmt.SprintI32 | src/strfmt.c:220-228 | as SprintI16 for int32_t |
| StrFmt.SprintU64 | src/strfmt.c:302-306 | as SprintU16 for uint64_t |
| StrFmt.SprintI64 | src/strfmt.c:296-300 | as SprintI16 for int64_t |
| StrFmt.FracDigits | src/strfmt.c:349-360 | the first digits of a 60-bit fraction: digits only, at most limit of them |
| StrFmt.FracDigitsValue | src/strfmt.c:349-360 | those k digits and the fraction left make up `f * 10^k / 2^60`, so they are its first k decimals, truncated |
| StrFmt.FracDigitsStop | src/strfmt.c:353 | fewer than limit digits come out only when the fraction has run out |
| StrFmt.FracAsWrittenPadded | src/strfmt.c:350-360 | frac_to_str as written emits those digits, then an extra '0' whenever the fraction ran out before limit digits |
| StrFmt.FracHalf | src/strfmt.c:353-354 | one half with room for two digits comes out as "50", while its digits are "5" |
| StrFmt.FracToStr | src/strfmt.c:350-360 | frac_to_str as written: the digits it emits and a NUL at the returned length, nothing else changed |
| StrFmt.FracToStrCorrected | src/strfmt.c:350-360 | with the integral bits masked before the loop test: exactly the digits of the fraction, at most limit, a NUL after them and their number returned |
| StrFmt.RoundToEvenNearest | src/strfmt.c:311-312 | the rounding is to a nearest integer, and to the even one on a tie |
| StrFmt.RoundsUpIsHalfEven | src/strfmt.c:331-336 | the odd, round and sticky bit test is the round-half-even decision on the fractional part |
| StrFmt.BankersBound | src/strfmt.c:318-347 | a fraction below one times 10^k rounds to at most 10^k, which fits 64 bits for k up to 19 |
| StrFmt.Bankers64 | src/strfmt.c:318-347 | for a positive limit the new limit is in `[0, limit]`; x is the fraction times 10^newLimit rounded half to even (modulo 2^64), at most 10^newLimit when limit is at most 19; fewer digits only when the fraction runs out exactly; a limit of 0 or less gives 0 and keeps the limit |
| StrFmt.BankersDigit | src/strfmt.c:329-342 | one digit step: frac times 10 plus the rounding increment stays below 16 * 2^60 = 2^64, so the uint64_t never overflows; the new frac is its low 60 bits and the digit its bits from 60 up added to x * 10 modulo 2^64 |
| StrFmt.CString | bench/strfmt_tb.c:500-515 | the C string at a position: no NUL in it, a NUL right after it |
| StrFmt.StrApp | src/strfmt.c:23-35 | strapp copies src's string and its NUL to dst, changes nothing else in dst and returns the length of the string |
| StrFmt.CStringOfWritten | bench/strfmt_tb.c:500-515 | the string then left in dst has the returned length, as the bench's strlen check expects |

## Left out

- Pointer casts and byte order: the image and the stub are sequences of
  bytes, and a 64-bit word is its eight bytes in little-endian memory order.
- FwUpdate.UpdateBootloader requires a validated image to be at least one
  page long. `length - FLASH_PAGE_SIZE` at bench/fwupdate_tb.c:208 wraps
  below 2048, and then `accum_crc32` would read far past the flash.
- FwUpdate.UpdateBootloader requires the 7 bytes past length that Stage II
  reads to be part of the bootrom sequence. It also requires the flash to be
  locked on entry, because Stage I's unlock asserts this.
- The error returns after the preparation checks (kFlashEraseError,
  kFlashWriteError, and the two later kImageCRCError returns) cannot happen
  with the fake flash. They are proved unreachable rather than modelled as
  outcomes.
- `bl_crc32` is a local of the routine here rather than a global.
- FwUpdate.UpdateBootloader decides the size check with the corrected page
  count `ceil(length / 2048)`, not the wrapping uint32_t sum of
  bench/fwupdate_tb.c:161. For a matching CRC and a length from 0xFFFFF801
  the C code computes 0 pages, passes the check, unlocks, erases nothing and
  then fails the erased-page assertion of `flash_write`; the model returns
  the length error there, with nothing touched. NumPagesWraps records the
  wrap.
- FakeFlash.Flash.Write checks the alignment of the offset from FLASH_BASE.
  The C code asserts it on the absolute address, so the model assumes that
  `flash_memory`, and so FLASH_BASE, is 8-byte aligned.
- FwUpdate.UpdateBootloader takes the image as a byte sequence apart from
  the flash, so an image pointer into `flash_memory` itself, which the
  Stage III and final CRCs would then read while it is rewritten, is not
  modelled: the image is assumed not to alias the flash.
- `printf`, `fill_rom`'s `rand()` image contents (any contents here) and
  `Error_Handler`:
  - the start/finish calls' assertions are preconditions;
  - `Error_Handler` is never reached.
- stm32crc.h is not part of this model. CRC_START_32 and CRC_POLY_32 are
  the constants that the test vector fixes.
- The concurrency notes on the ring buffer (use from an ISR): the model is
  sequential.
- The memory layout of `rb_create`: the data follows the struct in one
  block there. Here data is a separate array of size wrap + 1.
- `& wrap` is modelled as a remainder modulo the power-of-two size. Heads
  and tails stay in `[0, wrap]`, so the int32_t fields never overflow.
- The strfmt masks and shifts are `%` and `/` by powers of two.
- A `char *` is an array and an index. The local digit buffers of
  `__printu16` and `__printu32` are sequences, and printu64's is an array.
  Buffer overruns are excluded by preconditions that ask for room for the
  text and its NUL.
- The negation of the most negative int32_t or int64_t in the signed
  printers is undefined in C. It is modelled as the two's-complement wrap
  that the code relies on.
- StrFmt.StrApp requires dst and src to be different arrays, so overlapping
  copies are not modelled.
- StrFmt.Bankers64:
  - It does not model the overflow of `int n` that `n--` causes when
    `*limit` is INT_MIN.
  - The product `x * 10` wraps modulo 2^64 in the model. The bound
    `x <= 10^newLimit` is stated only for limits up to 19, because past
    that the C code overflows too.
- The float formatters `float_to_str`, `fp32_to_str` and `double_to_str`,
  and the branches for when bankers' rounding is turned off. These work on
  floating-point numbers.
- response.c's buffers are modelled as a 4 x 256 array of characters;
  `sda_finish` takes the row and column of `end`.
- The test string of bench/stm32crc_tb.c is checked over its 33 characters,
  without the NUL that `sizeof` counts. Those are the characters the code
  passes.

## Findings

| source | as written | input that shows it | evidently intended | confidence | as-written member | corrected member |
|---|---|---|---|---|---|---|
| bench/fwupdate_tb.c:161 | `(length + FLASH_PAGE_SIZE - 1) / FLASH_PAGE_SIZE` is a uint32_t sum that wraps for lengths from 0xFFFFF801 | length 0xFFFFFFFF: num_pages is 0, and the size check passes | `ceil(length / 2048)`, which rejects any image over 22 pages | not executed | FwUpdate.NumPagesWraps | FwUpdate.NumPagesBound |
| src/strfmt.c:353-354 | the loop tests the product before its integral bits are masked off, so a fraction that runs out still takes one more turn | frac 2^59 (one half), limit 2: the output is "50" | the digits of the fraction, "5", stopping when the fraction is zero | not executed | StrFmt.FracHalf | StrFmt.FracToStrCorrected |
