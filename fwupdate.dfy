/**
 * update_bootloader of bench/fwupdate_tb.c: the staged self-update of a
 * 22-page bootloader image over the fake flash and the CRC session.
 *
 *   Preparation  check the image CRC and its page count; nothing is touched
 *                when either check fails.
 *   Stage I      unlock, erase the image's pages and put the jump-to-application
 *                stub into the first 16 bytes of page 0.
 *   Stage II     write 64-bit word i of the image to flash offset 8 * i for
 *                every word after page 0; relock.
 *   Stage III    the CRC of the image's page 0 continued over flash from
 *                offset 2048 must equal the expected CRC.
 *   Stage IV     unlock, erase page 0, write the image's page 0; relock, and
 *                check the CRC of the first length bytes of flash.
 *
 * The fake flash never fails, so once an image passes the preparation
 * checks every later check passes too: the corresponding error returns are
 * proved unreachable (`assert false`) rather than modelled as outcomes.
 */
module FwUpdate {
  import opened Options
  import opened Stm32Crc
  import opened FakeFlash

  /** The result of update_bootloader: NULL or one of its error strings. */
  datatype Outcome = Success | ImageCrcError | ImageLengthError | FlashEraseError | FlashWriteError

  /** The returned C string; NULL for success. */
  function Message(r: Outcome): Option<string> {
    match r
    case Success => None
    case ImageCrcError => Some("Firmware CRC32 failed")
    case ImageLengthError => Some("Firmware image length is incorrect")
    case FlashEraseError => Some("Erasing Flash failed")
    case FlashWriteError => Some("Writing to Flash failed")
  }

  // -- The jump-to-application stub -- //

  /** jumpToApplication: _estack, Reset_Handler, NMI_Handler, HardFault_Handler. */
  const JumpToApplication: seq<bv32> := [0x2000_8000, 0x0800_4D49, 0x0800_4CD9, 0x0800_4CDD]

  /** A 32-bit word as its four bytes in memory order (little-endian). */
  function WordBytes(w: bv32): (b: seq<bv8>)
    ensures |b| == 4
  {
    [(w & 0xFF) as bv8, ((w >> 8) & 0xFF) as bv8, ((w >> 16) & 0xFF) as bv8, (w >> 24) as bv8]
  }

  /** The little-endian word held by four bytes. */
  function BytesWord(b: seq<bv8>): bv32
    requires |b| == 4
  {
    (b[0] as bv32) | ((b[1] as bv32) << 8) | ((b[2] as bv32) << 16) | ((b[3] as bv32) << 24)
  }

  /** Reading a stored word back gives the word. */
  lemma WordRoundTrip(w: bv32)
    ensures BytesWord(WordBytes(w)) == w
  {
  }

  /** The 16 bytes of jumpToApplication, written to page 0 by Stage I as the
      two 64-bit words jmp[0] and jmp[1]. */
  function Stub(): (s: seq<bv8>)
    ensures |s| == 16
  {
    WordBytes(JumpToApplication[0]) + WordBytes(JumpToApplication[1]) +
    WordBytes(JumpToApplication[2]) + WordBytes(JumpToApplication[3])
  }

  /** Word k of page 0 reads back as jumpToApplication[k] while the stub is there. */
  lemma StubWords(m: seq<bv8>, k: nat)
    requires |m| >= 16 && m[..16] == Stub() && k < 4
    ensures BytesWord(m[4 * k..4 * k + 4]) == JumpToApplication[k]
  {
    var o := 4 * k;
    assert o <= 12;
    var a, b, c, d := WordBytes(JumpToApplication[0]), WordBytes(JumpToApplication[1]),
                      WordBytes(JumpToApplication[2]), WordBytes(JumpToApplication[3]);
    assert m[..16] == a + b + c + d;
    assert m[o..o + 4] == (a + b + c + d)[o..o + 4];
    assert (a + b + c + d)[o..o + 4] == [a, b, c, d][k];
    WordRoundTrip(JumpToApplication[k]);
  }

  // -- Sizes -- //

  /** num_pages = ceil(length / 2048). */
  function NumPages(length: nat): nat {
    (length + FlashPageSize - 1) / FlashPageSize
  }

  /** num_pages as written: `length + FLASH_PAGE_SIZE - 1` is a uint32_t sum. */
  function NumPagesAsWritten(length: nat): nat {
    Wrap32(length + FlashPageSize - 1) / FlashPageSize
  }

  /** The largest 32-bit length wraps to zero pages and passes the size check. */
  lemma NumPagesWraps()
    ensures NumPagesAsWritten(0xFFFF_FFFF) == 0 <= MaxNumBootloaderPages
    ensures NumPages(0xFFFF_FFFF) > MaxNumBootloaderPages
  {
  }

  /** The size check accepts exactly the images of at most 22 pages, 44 KiB. */
  lemma NumPagesBound(length: nat)
    ensures NumPages(length) <= MaxNumBootloaderPages <==> length <= MaxNumBootloaderPages * FlashPageSize
    ensures NumPages(length) * FlashPageSize >= length
    ensures length > 0 ==> (NumPages(length) - 1) * FlashPageSize < length
  {
  }

  /** `len = (length + 7) / 8`: the number of 64-bit words read from the image. */
  function WordCount(length: nat): nat {
    (length + 7) / 8
  }

  /** The words read end at most 7 bytes past the image, in its last page. */
  lemma WordsInPages(length: nat, i: nat)
    requires i < WordCount(length)
    ensures 8 * i < length
    ensures (8 * i) / FlashPageSize < NumPages(length)
  {
  }

  /** The bytes the routine reads from the image: length rounded up to words. */
  lemma WordsCover(length: nat)
    ensures length <= 8 * WordCount(length) < length + 8
  {
  }

  /** An image that passes the preparation checks. */
  predicate Validated(bootrom: seq<bv8>, length: nat, crc32: bv32) {
    length <= |bootrom| && CrcCalc(bootrom[..length]) == crc32 &&
    NumPages(length) <= MaxNumBootloaderPages
  }

  // -- The stages -- //

  /** Stage I (after the unlock): erase pages [0, numPages) and write the stub
      into the first 16 bytes of page 0. */
  method WriteStub(flash: Flash, numPages: nat)
    requires flash.Valid() && !flash.locked
    requires 1 <= numPages <= MaxNumBootloaderPages
    modifies flash.erased, flash.memory
    ensures forall p :: 0 <= p < flash.erased.Length ==> flash.erased[p] == (old(flash.erased[p]) || p < numPages)
    ensures forall j :: 0 <= j < flash.memory.Length ==>
              flash.memory[j] == if j < 16 then Stub()[j] else old(flash.memory[j])
  {
    var ok := flash.Erase(0, numPages);
    if !ok {
      // kFlashEraseError: pages [0, numPages) lie inside the flash
      assert false;
    }
    var jmp := Stub();
    ok := flash.Write(0, jmp[..8]);
    if ok {
      ok := flash.Write(8, jmp[8..]);
    }
    if !ok {
      // kFlashWriteError: the fake flash_write always succeeds
      assert false;
    }
  }

  /** Stage II (still unlocked): write image word i to offset 8 * i for each i
      in [256, WordCount(length)). Page 0, holding the stub, is not touched. */
  method WriteTail(flash: Flash, bootrom: seq<bv8>, length: nat)
    requires flash.Valid() && !flash.locked
    requires 8 * WordCount(length) <= |bootrom|
    requires NumPages(length) <= MaxNumBootloaderPages
    requires forall p :: 0 <= p < NumPages(length) ==> flash.erased[p]
    modifies flash.memory
    ensures forall j :: 0 <= j < flash.memory.Length ==>
              flash.memory[j] == if FlashPageSize <= j < 8 * WordCount(length) then bootrom[j] else old(flash.memory[j])
  {
    var len := WordCount(length);
    var dst := FlashPageSize;
    var i := FlashPageSize / 8;
    while i < len
      invariant FlashPageSize / 8 <= i && dst == 8 * i
      invariant i <= len || i == FlashPageSize / 8
      invariant forall j :: 0 <= j < flash.memory.Length ==>
                  flash.memory[j] == if FlashPageSize <= j < dst then bootrom[j] else old(flash.memory[j])
    {
      WordsInPages(length, i);
      var ok := flash.Write(dst, bootrom[8 * i..8 * i + 8]);
      if !ok {
        // kFlashWriteError: the fake flash_write always succeeds
        assert false;
      }
      dst := dst + 8;
      i := i + 1;
    }
  }

  /** Stage IV (after unlocking and erasing page 0): write image words 0..255
      to page 0, replacing the stub. */
  method WriteHead(flash: Flash, bootrom: seq<bv8>)
    requires flash.Valid() && !flash.locked
    requires FlashPageSize <= |bootrom|
    requires flash.erased[0]
    modifies flash.memory
    ensures forall j :: 0 <= j < flash.memory.Length ==>
              flash.memory[j] == if j < FlashPageSize then bootrom[j] else old(flash.memory[j])
  {
    var dst := 0;
    var i := 0;
    while i < FlashPageSize / 8
      invariant 0 <= i <= FlashPageSize / 8 && dst == 8 * i
      invariant forall j :: 0 <= j < flash.memory.Length ==>
                  flash.memory[j] == if j < dst then bootrom[j] else old(flash.memory[j])
    {
      var ok := flash.Write(dst, bootrom[8 * i..8 * i + 8]);
      if !ok {
        // kFlashWriteError: the fake flash_write always succeeds
        assert false;
      }
      dst := dst + 8;
      i := i + 1;
    }
  }

  /** The Stage III CRC is the image CRC once the tail is in flash. */
  lemma TailCrc(bootrom: seq<bv8>, m: seq<bv8>, length: nat)
    requires FlashPageSize <= length <= |bootrom| && length <= |m|
    requires forall j :: FlashPageSize <= j < length ==> m[j] == bootrom[j]
    ensures CrcFold(CrcCalc(bootrom[..FlashPageSize]), m[FlashPageSize..][..length - FlashPageSize]) == CrcCalc(bootrom[..length])
  {
    assert m[FlashPageSize..][..length - FlashPageSize] == bootrom[FlashPageSize..length];
    assert bootrom[..length] == bootrom[..FlashPageSize] + bootrom[FlashPageSize..length];
    CrcCalcAppend(bootrom[..FlashPageSize], bootrom[FlashPageSize..length]);
  }

  // -- update_bootloader -- //

  /** What update_bootloader returns for an image, in this never-failing flash. */
  function Expected(bootrom: seq<bv8>, length: nat, crc32: bv32): Outcome
    requires length <= |bootrom|
  {
    if CrcCalc(bootrom[..length]) != crc32 then ImageCrcError
    else if NumPages(length) > MaxNumBootloaderPages then ImageLengthError
    else Success
  }

  /**
   * update_bootloader(bootrom, length, crc32). The CRC session must be closed
   * on entry; an image that passes the preparation checks must be at least a
   * page long, and the flash locked, since Stage III and the unlock assert
   * them. The image is read in whole 64-bit words, up to 7 bytes past length.
   */
  method UpdateBootloader(flash: Flash, session: CrcSession, bootrom: seq<bv8>, length: nat, crc32: bv32)
    returns (result: Outcome)
    requires flash.Valid() && session.Valid() && !session.enabled
    requires length < 0x1_0000_0000 && length <= |bootrom|
    requires Validated(bootrom, length, crc32) ==>
               flash.locked && FlashPageSize <= length && 8 * WordCount(length) <= |bootrom|
    modifies flash`locked, flash.memory, flash.erased
    modifies session, session.engine`crcTab32Init, session.engine.crcTab32
    ensures result == Expected(bootrom, length, crc32)
    ensures result == Success <==> Validated(bootrom, length, crc32)
    ensures flash.locked == old(flash.locked)
    ensures session.Valid() && !session.enabled && session.currCrc == 0xFFFF_FFFF
    ensures result != Success ==> flash.memory[..] == old(flash.memory[..]) && flash.erased[..] == old(flash.erased[..])
    ensures result == Success ==> forall j :: 0 <= j < flash.memory.Length ==>
              flash.memory[j] == if j < 8 * WordCount(length) then bootrom[j] else old(flash.memory[j])
    ensures result == Success ==> forall p :: 0 <= p < flash.erased.Length ==>
              flash.erased[p] == (old(flash.erased[p]) || p < NumPages(length))
    ensures result == Success ==> flash.memory[..length] == bootrom[..length]
  {
    // Preparation
    var blCrc32 := session.Start(bootrom, length);
    session.Finish();
    if blCrc32 != crc32 {
      return ImageCrcError;
    }
    if NumPages(length) > MaxNumBootloaderPages {
      return ImageLengthError;
    }
    Install(flash, session, bootrom, length, crc32);
    result := Success;
  }

  /** Stages I to IV and the final check, for an image that passed the
      preparation checks. */
  method Install(flash: Flash, session: CrcSession, bootrom: seq<bv8>, length: nat, crc32: bv32)
    requires flash.Valid() && flash.locked && session.Valid() && !session.enabled
    requires Validated(bootrom, length, crc32)
    requires FlashPageSize <= length && 8 * WordCount(length) <= |bootrom|
    modifies flash`locked, flash.memory, flash.erased
    modifies session, session.engine`crcTab32Init, session.engine.crcTab32
    ensures flash.locked
    ensures session.Valid() && !session.enabled && session.currCrc == 0xFFFF_FFFF
    ensures forall j :: 0 <= j < flash.memory.Length ==>
              flash.memory[j] == if j < 8 * WordCount(length) then bootrom[j] else old(flash.memory[j])
    ensures forall p :: 0 <= p < flash.erased.Length ==>
              flash.erased[p] == (old(flash.erased[p]) || p < NumPages(length))
    ensures flash.memory[..length] == bootrom[..length]
  {
    WordsCover(length);
    NumPagesBound(length);
    flash.Unlock();

    // Stage I
    WriteStub(flash, NumPages(length));

    // Stage II
    WriteTail(flash, bootrom, length);
    assert flash.memory[..16] == Stub();
    flash.Lock();

    // Stage III: page 0 still holds the stub while the tail is checked
    CheckTail(flash, session, bootrom, length, crc32);
    assert flash.memory[..16] == Stub();

    // Stage IV
    flash.Unlock();
    var ok := flash.Erase(0, 1);
    if !ok {
      // kFlashEraseError: page 0 lies inside the flash
      assert false;
    }
    WriteHead(flash, bootrom);
    flash.Lock();

    // Finalise
    CheckImage(flash, session, bootrom, length, crc32);
  }

  /** Stage III: the CRC of the image's page 0 continued over flash from
      offset 2048 for length - 2048 bytes equals crc32 once Stage II has
      written the tail; page 0 still holds the stub. */
  method CheckTail(flash: Flash, session: CrcSession, bootrom: seq<bv8>, length: nat, crc32: bv32)
    requires flash.Valid() && session.Valid() && !session.enabled
    requires Validated(bootrom, length, crc32) && FlashPageSize <= length
    requires forall j :: FlashPageSize <= j < length ==> flash.memory[j] == bootrom[j]
    modifies session, session.engine`crcTab32Init, session.engine.crcTab32
    ensures session.Valid() && !session.enabled && session.currCrc == 0xFFFF_FFFF
  {
    var blCrc32 := session.Start(bootrom, FlashPageSize);
    blCrc32 := session.Accum(flash.memory[FlashPageSize..], length - FlashPageSize);
    session.Finish();
    TailCrc(bootrom, flash.memory[..], length);
    if blCrc32 != crc32 {
      // kImageCRCError after Stage II: the tail in flash is the image's tail
      assert false;
    }
  }

  /** The final check: the CRC of the first length bytes of flash is crc32. */
  method CheckImage(flash: Flash, session: CrcSession, bootrom: seq<bv8>, length: nat, crc32: bv32)
    requires flash.Valid() && session.Valid() && !session.enabled
    requires Validated(bootrom, length, crc32)
    requires forall j :: 0 <= j < length ==> flash.memory[j] == bootrom[j]
    modifies session, session.engine`crcTab32Init, session.engine.crcTab32
    ensures session.Valid() && !session.enabled && session.currCrc == 0xFFFF_FFFF
    ensures flash.memory[..length] == bootrom[..length]
  {
    Installed(flash.memory[..], bootrom, length);
    var blCrc32 := session.Start(flash.memory[..], length);
    session.Finish();
    if blCrc32 != crc32 {
      // kImageCRCError at the end: flash holds the image
      assert false;
    }
  }

  /** After Stage IV the first length bytes of flash are the image. */
  lemma Installed(m: seq<bv8>, bootrom: seq<bv8>, length: nat)
    requires length <= |m| && length <= |bootrom|
    requires forall j :: 0 <= j < length ==> m[j] == bootrom[j]
    ensures m[..length] == bootrom[..length]
  {
  }

  /**
   * fwupdate_tb: a 44 KiB image, exactly 22 pages, with its own CRC installs;
   * the flash holds it afterwards. The random ROM contents of fill_rom are
   * any contents here.
   */
  method TestBench(flash: Flash, session: CrcSession, rom: seq<bv8>) returns (res: Outcome)
    requires flash.Valid() && flash.locked
    requires session.Valid() && !session.enabled
    requires |rom| == 44 * 1024
    modifies flash`locked, flash.memory, flash.erased
    modifies session, session.engine`crcTab32Init, session.engine.crcTab32
    ensures res == Success
    ensures flash.memory[..|rom|] == rom
  {
    var len := |rom|;
    var crc := session.engine.Calc(Some(rom), len);
    assert rom[..len] == rom;
    res := UpdateBootloader(flash, session, rom, len, crc);
  }
}
