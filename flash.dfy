/**
 * The test-bench stand-ins of bench/fwupdate_tb.c that update_bootloader
 * drives: a fake on-chip flash (flash_memory, flash_erased, flash_locked
 * with flash_erase, flash_write and the HAL lock calls) and the
 * single-session CRC-32 routines (start_crc32, accum_crc32, finish_crc32)
 * over the engine of src/stm32crc.c.
 */
module FakeFlash {
  import opened Options
  import opened Stm32Crc

  /** FLASH_PAGE_NUM. */
  const FlashPageNum: nat := 64
  /** FLASH_PAGE_SIZE, in bytes. */
  const FlashPageSize: nat := 2048
  /** MAX_NUM_BOOTLOADER_PAGES: the pretend 44 KiB bootloader region. */
  const MaxNumBootloaderPages: nat := 22
  /** The size of flash_memory, in bytes. */
  const FlashSize: nat := FlashPageNum * FlashPageSize

  /** A uint32_t sum, wrapped. */
  function Wrap32(x: nat): (r: nat)
    ensures r < 0x1_0000_0000
    ensures x < 0x1_0000_0000 ==> r == x
  {
    x % 0x1_0000_0000
  }

  /** The pages flash_erase marks: `for (i = page; i < page + num; i++)`, where
      `page + num` is a wrapped uint32_t sum. */
  function EraseEnd(page: nat, num: nat): nat {
    Wrap32(page + num)
  }

  /**
   * flash_memory as one byte array (byte k of page p at p * 2048 + k), the
   * per-page flash_erased flags and flash_locked. The flags start cleared and
   * the memory zeroed, as C static storage does.
   */
  class Flash {
    var memory: array<bv8>
    var erased: array<bool>
    var locked: bool

    ghost predicate Valid()
      reads this
    {
      memory.Length == FlashSize && erased.Length == FlashPageNum
    }

    constructor ()
      ensures Valid() && locked && fresh(memory) && fresh(erased)
      ensures forall j :: 0 <= j < memory.Length ==> memory[j] == 0
      ensures forall p :: 0 <= p < erased.Length ==> !erased[p]
    {
      memory := new bv8[FlashSize](_ => 0);
      erased := new bool[FlashPageNum](_ => false);
      locked := true;
    }

    /** HAL_FLASH_Unlock: asserts the flash is locked. */
    method Unlock()
      requires locked
      modifies this`locked
      ensures !locked
    {
      locked := false;
    }

    /** HAL_FLASH_Lock: asserts the flash is unlocked. */
    method Lock()
      requires !locked
      modifies this`locked
      ensures locked
    {
      locked := true;
    }

    /**
     * flash_erase: under its two assertions, fails when the range starts or
     * ends past the flash, and otherwise sets the erased flag of each page from
     * `page` up to the wrapped end. The lock is not checked, memory contents are
     * kept and no flag is ever cleared.
     */
    method Erase(page: nat, num: nat) returns (ok: bool)
      requires Valid()
      requires page < 0x1_0000_0000 && num < 0x1_0000_0000
      requires page < FlashPageNum || EraseEnd(page, num) <= FlashPageNum
      requires EraseEnd(page, num) <= MaxNumBootloaderPages
      modifies erased
      ensures ok <==> page < FlashPageNum && EraseEnd(page, num) <= FlashPageNum
      ensures forall p :: 0 <= p < erased.Length ==>
                erased[p] == (old(erased[p]) || (ok && page <= p < EraseEnd(page, num)))
    {
      var end := EraseEnd(page, num);
      if page >= FlashPageNum || end > FlashPageNum {
        return false;
      }
      var i := page;
      while i < end
        invariant i == page || page <= i <= end
        invariant forall p :: 0 <= p < erased.Length ==>
                    erased[p] == (old(erased[p]) || (page <= p < i))
      {
        erased[i] := true;
        i := i + 1;
      }
      return true;
    }

    /**
     * flash_write at `offset` bytes from FLASH_BASE: asserts the flash is
     * unlocked, the address 8-byte aligned, the page inside the bootloader
     * region and erased; stores the eight bytes of the 64-bit value in memory
     * order and reports success.
     */
    method Write(offset: nat, val: seq<bv8>) returns (ok: bool)
      requires Valid() && !locked
      requires |val| == 8 && offset % 8 == 0
      requires offset / FlashPageSize < MaxNumBootloaderPages
      requires erased[offset / FlashPageSize]
      modifies memory
      ensures ok
      ensures forall j :: 0 <= j < memory.Length ==>
                memory[j] == if offset <= j < offset + 8 then val[j - offset] else old(memory[j])
    {
      var page := offset / FlashPageSize;
      var index := offset % FlashPageSize;
      forall k | 0 <= k < 8 {
        memory[page * FlashPageSize + index + k] := val[k];
      }
      return true;
    }
  }

  /**
   * The CRC session state, crc32_enabled and curr_crc, over the CRC engine's
   * static table. At most one session is open at a time.
   */
  class CrcSession {
    const engine: Engine
    var enabled: bool
    var currCrc: bv32

    ghost predicate Valid()
      reads this, engine, engine.crcTab32
    {
      engine.Valid()
    }

    constructor (engine: Engine)
      requires engine.Valid()
      ensures Valid() && this.engine == engine && !enabled && currCrc == 0xFFFF_FFFF
    {
      this.engine := engine;
      enabled := false;
      currCrc := 0xFFFF_FFFF;
    }

    /** start_crc32: asserts no session is open, opens one seeded with the
        one-shot CRC of the first len bytes of buf, and hands that CRC back. */
    method Start(buf: seq<bv8>, len: nat) returns (crc: bv32)
      requires Valid() && !enabled && len <= |buf|
      modifies this, engine`crcTab32Init, engine.crcTab32
      ensures Valid() && engine.crcTab32Init
      ensures enabled && currCrc == crc
      ensures crc == CrcCalc(buf[..len])
    {
      enabled := true;
      currCrc := engine.Calc(Some(buf), len);
      crc := currCrc;
    }

    /** accum_crc32: asserts a session is open and continues its CRC over the
        first len bytes of buf, one stm32crc_next step per byte. */
    method Accum(buf: seq<bv8>, len: nat) returns (crc: bv32)
      requires Valid() && enabled && len <= |buf|
      modifies this`currCrc, engine`crcTab32Init, engine.crcTab32
      ensures Valid()
      ensures currCrc == crc
      ensures crc == CrcFold(old(currCrc), buf[..len])
    {
      crc := currCrc;
      var i := 0;
      while i < len
        invariant 0 <= i <= len
        invariant Valid()
        invariant crc == CrcFold(old(currCrc), buf[..i])
      {
        CrcFoldPrefix(old(currCrc), buf, i);
        crc := engine.Next(crc, buf[i]);
        i := i + 1;
      }
      currCrc := crc;
    }

    /** finish_crc32: asserts a session is open, closes it and resets curr_crc. */
    method Finish()
      requires enabled
      modifies this`enabled, this`currCrc
      ensures !enabled && currCrc == 0xFFFF_FFFF
    {
      enabled := false;
      currCrc := 0xFFFF_FFFF;
    }
  }
}
