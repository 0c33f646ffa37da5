/**
 * The update attempt as the firmware runs it (main.c:35-87): the flash is one byte
 * array that the library calls change in place, and each routine of main.c is a
 * method whose loop is proved to follow the pure specification in FlashModel.
 */
module Programmer {
  import opened Layout
  import opened Header
  import opened FlashModel

  /**
   * The flash controller with the primary and staging regions behind it. `log` records
   * every library call made so far; `script` is the controller's answer to the n-th call.
   */
  class Flash {
    const mem: array<byte>
    var log: seq<FlashOp>
    const script: Script

    ghost predicate Valid()
      reads this
    {
      mem.Length == FLASH_SIZE
    }

    /** The flash as a value of the specification. */
    ghost function State(): FlashState
      reads this, mem
    {
      FlashState(mem[..], log)
    }

    /** A controller that has made no call yet, over the given flash contents. */
    constructor (image: seq<byte>, script: Script)
      requires |image| == FLASH_SIZE
      ensures Valid() && State() == FlashState(image, []) && this.script == script
      ensures fresh(mem)
    {
      mem := new byte[FLASH_SIZE](k requires 0 <= k < FLASH_SIZE => image[k]);
      log := [];
      this.script := script;
      new;
      assert mem[..] == image;
    }

    /** FLASH_Unlock. */
    method FlashUnlock()
      requires Valid()
      modifies this
      ensures Valid() && State() == Logged(old(State()), [Unlock])
    {
      log := log + [Unlock];
    }

    /** FLASH_ClearFlag, clearing the program and write-protection error flags. */
    method FlashClearFlag()
      requires Valid()
      modifies this
      ensures Valid() && State() == Logged(old(State()), [ClearFlag])
    {
      log := log + [ClearFlag];
    }

    /** FLASH_ErasePage: the controller's status; the page reads erased only if it completed. */
    method FlashErasePage(addr: nat) returns (status: FlashStatus)
      requires Valid() && IsPageAddress(addr)
      modifies this, mem
      ensures Valid() && Run(status, State()) == ErasePageStep(old(State()), script, addr)
    {
      status := script(|log|);
      log := log + [ErasePage(addr, status)];
      if status == FLASH_COMPLETE {
        var base := addr - FIRMWARE_ADDR;
        forall x | base <= x < base + PAGE_SIZE {
          mem[x] := ERASED;
        }
        ErasedPageAt(old(mem[..]), addr);
        assert mem[..] == ErasedPage(old(mem[..]), addr);
      }
    }

    /** FLASH_ProgramHalfWord: the controller's status; the half-word is stored only if it completed. */
    method FlashProgramHalfWord(addr: nat, data: u16) returns (status: FlashStatus)
      requires Valid() && IsHalfWordAddress(addr)
      modifies this, mem
      ensures Valid() && Run(status, State()) == ProgramStep(old(State()), script, addr, data)
    {
      status := script(|log|);
      log := log + [ProgramHalfWord(addr, data, status)];
      if status == FLASH_COMPLETE {
        var x := addr - FIRMWARE_ADDR;
        mem[x] := LowByte(data);
        mem[x + 1] := HighByte(data);
        assert mem[..] == old(mem[..])[x := LowByte(data)][x + 1 := HighByte(data)];
      }
    }

    /** erase_firmware: erases the 48 primary pages in ascending order, stopping at the first failure. */
    method EraseFirmware() returns (status: FlashStatus)
      requires Valid()
      modifies this, mem
      ensures Valid() && Run(status, State()) == Erasure(old(State()), script)
    {
      ghost var goal := Erasure(State(), script);
      FlashUnlock();
      FlashClearFlag();
      assert log == old(log) + [Unlock, ClearFlag];
      assert State() == Logged(old(State()), [Unlock, ClearFlag]);
      var i: nat := 0;
      while i < FW_NUM_PAGES
        invariant Valid() && i <= FW_NUM_PAGES
        invariant EraseFrom(State(), script, i) == goal
      {
        ghost var before := State();
        status := FlashErasePage(PageAddress(i));
        assert EraseFrom(before, script, i) ==
               if status != FLASH_COMPLETE then Run(status, State()) else EraseFrom(State(), script, i + 1);
        if status != FLASH_COMPLETE {
          return;
        }
        i := i + 1;
      }
      status := FLASH_COMPLETE;
    }

    /**
     * write_firmware_data: programs `len` bytes read from the flash itself at `dataOff`
     * into the flash at `offset`, one half-word at a time, stopping at the first failure.
     * The written range lies below the bytes read, as in write_firmware's one call.
     */
    method WriteFirmwareData(offset: nat, dataOff: nat, len: nat) returns (status: FlashStatus)
      requires Valid()
      requires offset + ReadLength(len) <= dataOff && dataOff + ReadLength(len) <= FLASH_SIZE
      modifies this, mem
      ensures Valid()
      ensures Run(status, State()) ==
              Programming(old(State()), script, offset, old(mem[dataOff..dataOff + ReadLength(len)]), len)
    {
      ghost var dataEnd := dataOff + ReadLength(len);
      ghost var data := mem[dataOff..dataEnd];
      ghost var goal := Programming(State(), script, offset, data, len);
      assert goal == Programming(old(State()), script, offset, old(mem[dataOff..dataOff + ReadLength(len)]), len);
      FlashClearFlag();
      ghost var st := State();
      var i: nat := 0;
      while i < len
        invariant Valid() && st == State() && i % 2 == 0 && i <= ReadLength(len)
        invariant st.mem[dataOff..dataEnd] == data
        invariant ProgramFrom(st, script, offset, data, len, i) == goal
      {
        NextHalfWord(len, i);
        var lo, hi := mem[dataOff + i], mem[dataOff + i + 1];
        assert lo == data[i] && hi == data[i + 1];
        status := FlashProgramHalfWord(FIRMWARE_ADDR + offset + i, HalfWord(lo, hi));
        ProgramLoopStep(st, State(), status, script, offset, data, len, i, dataOff, lo, hi, goal);
        if status != FLASH_COMPLETE {
          return;
        }
        st := State();
        i := i + 2;
      }
      status := FLASH_COMPLETE;
    }

    /**
     * write_firmware: decodes the staged header, rejects an oversized (-1), empty (-2)
     * or corrupt (-3) image without touching the flash, then erases and programs.
     */
    method WriteFirmware(crc16: seq<byte> -> u16, order: ByteOrder) returns (res: int)
      requires Valid()
      modifies this, mem
      ensures Valid() && Run(res, State()) == Attempt(old(State()), script, crc16, order)
    {
      var (h, ind) := DecodeHeader(mem[STAGING_OFFSET..STAGING_OFFSET + HEADER_SIZE], order);
      var size, crcApp := h.size, h.crc;
      if size > NEW_FW_MAX_SIZE {
        return -1;
      }
      if size == 0 {
        return -2;
      }
      var crcCalc := crc16(mem[STAGING_OFFSET + ind..STAGING_OFFSET + ind + size]);
      if crcCalc != crcApp {
        return -3;
      }
      var status := EraseFirmware();
      if status != FLASH_COMPLETE {
        return status;
      }
      ReadLengthFits(size);
      status := WriteFirmwareData(0, STAGING_OFFSET + ind, size);
      res := status;
    }
  }
}
