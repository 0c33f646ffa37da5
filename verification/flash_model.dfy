/**
 * Pure specification of one update attempt over the flash (main.c:35-87).
 *
 * The flash holds the primary and the staging region as one byte sequence indexed
 * from FIRMWARE_ADDR. Every call into the STM32 flash library is appended to a log,
 * and the status the controller reports for the n-th logged call is script(n): a
 * mock controller that can inject any failure at any call.
 */
module FlashModel {
  import opened Layout
  import opened Header

  /** One call into the flash library, with the status it reported. */
  datatype FlashOp =
    | Unlock
    | ClearFlag
    | ErasePage(addr: nat, status: FlashStatus)
    | ProgramHalfWord(addr: nat, data: u16, status: FlashStatus)

  /** The status the flash controller reports for the n-th logged call. */
  type Script = nat -> FlashStatus

  datatype FlashState = FlashState(mem: seq<byte>, log: seq<FlashOp>)

  /** A returned code together with the flash it leaves behind. */
  datatype Run = Run(code: int, flash: FlashState)

  /** Absolute address of primary page `page`. */
  function PageAddress(page: nat): (addr: nat)
    ensures page < FW_NUM_PAGES ==> IsPageAddress(addr)
  {
    FIRMWARE_ADDR + page * PAGE_SIZE
  }

  /**
   * A page starting at the address lies inside the modelled flash. The addresses
   * erase_firmware passes are PageAddress(i), page-aligned by construction.
   */
  predicate IsPageAddress(addr: nat)
  {
    FIRMWARE_ADDR <= addr && addr - FIRMWARE_ADDR + PAGE_SIZE <= FLASH_SIZE
  }

  /** The address names a half-word of the modelled flash. */
  predicate IsHalfWordAddress(addr: nat)
  {
    FIRMWARE_ADDR <= addr && addr - FIRMWARE_ADDR + 2 <= FLASH_SIZE
  }

  // ---------------------------------------------------------------------------
  // Half-words

  /** The half-word `(hi << 8) | lo` of main.c:54, written for 8-bit operands as hi * 256 + lo. */
  function HalfWord(lo: byte, hi: byte): (h: u16)
    ensures LowByte(h) == lo && HighByte(h) == hi
  {
    hi as int * 0x100 + lo
  }

  /** The byte a half-word leaves at its (lower) address: the Cortex-M is little-endian. */
  function LowByte(h: u16): byte
  {
    h % 0x100
  }

  function HighByte(h: u16): byte
  {
    h / 0x100
  }

  /** Bytes and half-word agree both ways: a half-word is its two bytes. */
  lemma HalfWordOfBytes(h: u16)
    ensures HalfWord(LowByte(h), HighByte(h)) == h
  {
  }

  // ---------------------------------------------------------------------------
  // Single library calls

  /** The contents of a freshly erased page. */
  function BlankPage(): (p: seq<byte>)
    ensures |p| == PAGE_SIZE && forall k :: 0 <= k < PAGE_SIZE ==> p[k] == ERASED
  {
    seq(PAGE_SIZE, k => ERASED)
  }

  /** The memory with the page at `addr` set to the erased value. */
  function ErasedPage(mem: seq<byte>, addr: nat): (m: seq<byte>)
    requires |mem| == FLASH_SIZE && IsPageAddress(addr)
    ensures |m| == FLASH_SIZE
  {
    var base := addr - FIRMWARE_ADDR;
    mem[..base] + BlankPage() + mem[base + PAGE_SIZE..]
  }

  /** Erasing a page sets exactly its bytes to the erased value. */
  lemma ErasedPageAt(mem: seq<byte>, addr: nat)
    requires |mem| == FLASH_SIZE && IsPageAddress(addr)
    ensures var base := addr - FIRMWARE_ADDR;
            forall x :: 0 <= x < FLASH_SIZE ==>
              ErasedPage(mem, addr)[x] == if base <= x < base + PAGE_SIZE then ERASED else mem[x]
  {
    var base := addr - FIRMWARE_ADDR;
    var m := ErasedPage(mem, addr);
    forall x | 0 <= x < FLASH_SIZE
      ensures m[x] == if base <= x < base + PAGE_SIZE then ERASED else mem[x]
    {
      if x < base {
        assert m[x] == mem[..base][x];
      } else if x < base + PAGE_SIZE {
        assert m[x] == BlankPage()[x - base];
      } else {
        assert m[x] == mem[base + PAGE_SIZE..][x - base - PAGE_SIZE];
      }
    }
  }

  /** FLASH_ErasePage: erases the page only when the controller reports FLASH_COMPLETE. */
  function ErasePageStep(s: FlashState, script: Script, addr: nat): (r: Run)
    requires |s.mem| == FLASH_SIZE && IsPageAddress(addr)
    ensures |r.flash.mem| == FLASH_SIZE && FLASH_BUSY <= r.code <= FLASH_TIMEOUT
  {
    var status := script(|s.log|);
    var log := s.log + [ErasePage(addr, status)];
    if status == FLASH_COMPLETE then Run(status, FlashState(ErasedPage(s.mem, addr), log))
    else Run(status, FlashState(s.mem, log))
  }

  /** FLASH_ProgramHalfWord: stores the half-word only when the controller reports FLASH_COMPLETE. */
  function ProgramStep(s: FlashState, script: Script, addr: nat, data: u16): (r: Run)
    requires |s.mem| == FLASH_SIZE && IsHalfWordAddress(addr)
    ensures |r.flash.mem| == FLASH_SIZE && FLASH_BUSY <= r.code <= FLASH_TIMEOUT
  {
    var status := script(|s.log|);
    var log := s.log + [ProgramHalfWord(addr, data, status)];
    var x := addr - FIRMWARE_ADDR;
    if status == FLASH_COMPLETE then Run(status, FlashState(s.mem[x := LowByte(data)][x + 1 := HighByte(data)], log))
    else Run(status, FlashState(s.mem, log))
  }

  /** A completed FLASH_ProgramHalfWord of HalfWord(lo, hi) stores lo, then hi, and nothing else. */
  lemma ProgramStepBytes(s: FlashState, script: Script, x: nat, lo: byte, hi: byte)
    requires |s.mem| == FLASH_SIZE && IsHalfWordAddress(FIRMWARE_ADDR + x)
    ensures var r := ProgramStep(s, script, FIRMWARE_ADDR + x, HalfWord(lo, hi));
            r.code == FLASH_COMPLETE ==>
              && r.flash.mem[x] == lo && r.flash.mem[x + 1] == hi
              && forall y :: 0 <= y < FLASH_SIZE && y != x && y != x + 1 ==> r.flash.mem[y] == s.mem[y]
  {
  }

  /** A half-word write leaves the bytes above the half-word as they were. */
  lemma ProgramStepKeepsAbove(s: FlashState, script: Script, addr: nat, data: u16, lo: nat, hi: nat)
    requires |s.mem| == FLASH_SIZE && IsHalfWordAddress(addr)
    requires addr - FIRMWARE_ADDR + 2 <= lo <= hi <= FLASH_SIZE
    ensures ProgramStep(s, script, addr, data).flash.mem[lo..hi] == s.mem[lo..hi]
  {
  }

  /** The flash with entries appended to the log and the memory unchanged. */
  function Logged(s: FlashState, ops: seq<FlashOp>): (t: FlashState)
    ensures t.mem == s.mem && t.log == s.log + ops
  {
    FlashState(s.mem, s.log + ops)
  }

  /** Appending to a log or a history is associative. */
  lemma Regroup<T>(a: seq<T>, b: seq<T>, c: seq<T>)
    ensures a + b + c == a + (b + c)
  {
  }

  // ---------------------------------------------------------------------------
  // erase_firmware (main.c:35-47)

  /** The loop of erase_firmware from page `page` on. */
  function EraseFrom(s: FlashState, script: Script, page: nat): (r: Run)
    requires |s.mem| == FLASH_SIZE && page <= FW_NUM_PAGES
    ensures |r.flash.mem| == FLASH_SIZE && FLASH_BUSY <= r.code <= FLASH_TIMEOUT
    // The page count alone ends the recursion; |s.log| is there only so that Dafny does not
    // unroll the 48 literal iterations when it meets a call with a constant page.
    decreases FW_NUM_PAGES - page, |s.log|
  {
    if page == FW_NUM_PAGES then Run(FLASH_COMPLETE, s)
    else
      var r := ErasePageStep(s, script, PageAddress(page));
      if r.code != FLASH_COMPLETE then r else EraseFrom(r.flash, script, page + 1)
  }

  /** erase_firmware: unlock, clear the error flags, erase the 48 primary pages. */
  function Erasure(s: FlashState, script: Script): (r: Run)
    requires |s.mem| == FLASH_SIZE
    ensures |r.flash.mem| == FLASH_SIZE && FLASH_BUSY <= r.code <= FLASH_TIMEOUT
  {
    EraseFrom(Logged(s, [Unlock, ClearFlag]), script, 0)
  }

  /**
   * The erase loop stops at the first failure: it returns FLASH_COMPLETE exactly when
   * the controller completes every remaining page, and otherwise the status of the
   * failing erase, which is the last call it makes.
   */
  lemma {:induction false} EraseFromCode(s: FlashState, script: Script, page: nat)
    requires |s.mem| == FLASH_SIZE && page <= FW_NUM_PAGES
    ensures var r := EraseFrom(s, script, page);
            var n := |s.log|;
            && (r.code == FLASH_COMPLETE <==> forall m :: n <= m < n + FW_NUM_PAGES - page ==> script(m) == FLASH_COMPLETE)
            && (r.code == FLASH_COMPLETE ==> |r.flash.log| == n + FW_NUM_PAGES - page)
            && (r.code != FLASH_COMPLETE ==>
                  && n < |r.flash.log| <= n + FW_NUM_PAGES - page
                  && r.code == script(|r.flash.log| - 1)
                  && forall m :: n <= m < |r.flash.log| - 1 ==> script(m) == FLASH_COMPLETE)
    decreases FW_NUM_PAGES - page
  {
    if page < FW_NUM_PAGES {
      var step := ErasePageStep(s, script, PageAddress(page));
      if step.code == FLASH_COMPLETE {
        EraseFromCode(step.flash, script, page + 1);
        assert EraseFrom(s, script, page) == EraseFrom(step.flash, script, page + 1);
      } else {
        assert EraseFrom(s, script, page) == step;
      }
    }
  }

  /** The FLASH_ErasePage calls for `count` pages from page `page` on, the first logged as call n. */
  function EraseOps(script: Script, n: nat, page: nat, count: nat): (ops: seq<FlashOp>)
    ensures |ops| == count
    decreases count
  {
    if count == 0 then []
    else [ErasePage(PageAddress(page), script(n))] + EraseOps(script, n + 1, page + 1, count - 1)
  }

  /** The k-th of those calls erases page page+k and carries the status of call n+k. */
  lemma {:induction false} EraseOpsAt(script: Script, n: nat, page: nat, count: nat)
    ensures forall k :: 0 <= k < count ==>
              EraseOps(script, n, page, count)[k] == ErasePage(PageAddress(page + k), script(n + k))
    decreases count
  {
    if count > 0 {
      EraseOpsAt(script, n + 1, page + 1, count - 1);
      var ops := EraseOps(script, n, page, count);
      var rest := EraseOps(script, n + 1, page + 1, count - 1);
      forall k | 0 < k < count
        ensures ops[k] == ErasePage(PageAddress(page + k), script(n + k))
      {
        assert ops[k] == rest[k - 1];
        assert rest[k - 1] == ErasePage(PageAddress(page + 1 + (k - 1)), script(n + 1 + (k - 1)));
      }
    }
  }

  /** The controller completes the 48 calls from call n on. */
  predicate AllErasesComplete(script: Script, n: nat)
  {
    forall m :: n <= m < n + FW_NUM_PAGES ==> script(m) == FLASH_COMPLETE
  }

  /** The erase loop logs one FLASH_ErasePage per page tried, in ascending address order. */
  lemma {:induction false} EraseFromLog(s: FlashState, script: Script, page: nat)
    requires |s.mem| == FLASH_SIZE && page <= FW_NUM_PAGES
    ensures var r := EraseFrom(s, script, page);
            && |s.log| <= |r.flash.log| <= |s.log| + FW_NUM_PAGES - page
            && r.flash.log == s.log + EraseOps(script, |s.log|, page, |r.flash.log| - |s.log|)
    decreases FW_NUM_PAGES - page
  {
    if page < FW_NUM_PAGES {
      var step := ErasePageStep(s, script, PageAddress(page));
      var op := ErasePage(PageAddress(page), script(|s.log|));
      assert step.flash.log == s.log + [op];
      if step.code == FLASH_COMPLETE {
        EraseFromLog(step.flash, script, page + 1);
        var r := EraseFrom(step.flash, script, page + 1);
        assert EraseFrom(s, script, page) == r;
        var rest := EraseOps(script, |s.log| + 1, page + 1, |r.flash.log| - |step.flash.log|);
        assert EraseOps(script, |s.log|, page, |r.flash.log| - |s.log|) == [op] + rest;
        Regroup(s.log, [op], rest);
      } else {
        assert EraseFrom(s, script, page) == step;
        assert EraseOps(script, |s.log|, page, 1) == [op];
      }
    } else {
      assert s.log + EraseOps(script, |s.log|, page, 0) == s.log;
    }
  }

  /**
   * The erase loop erases the pages the controller completed, from page `page` up, and
   * leaves every other byte as it was.
   */
  lemma {:induction false} EraseFromMem(s: FlashState, script: Script, page: nat)
    requires |s.mem| == FLASH_SIZE && page <= FW_NUM_PAGES
    ensures var r := EraseFrom(s, script, page);
            var done := if r.code == FLASH_COMPLETE then |r.flash.log| - |s.log| else |r.flash.log| - |s.log| - 1;
            && 0 <= done
            && forall x :: 0 <= x < FLASH_SIZE ==>
                 r.flash.mem[x] == if page * PAGE_SIZE <= x < (page + done) * PAGE_SIZE then ERASED else s.mem[x]
    decreases FW_NUM_PAGES - page
  {
    if page < FW_NUM_PAGES {
      var step := ErasePageStep(s, script, PageAddress(page));
      if step.code == FLASH_COMPLETE {
        EraseFromMem(step.flash, script, page + 1);
        var r := EraseFrom(step.flash, script, page + 1);
        assert EraseFrom(s, script, page) == r;
        var done' := if r.code == FLASH_COMPLETE then |r.flash.log| - |step.flash.log| else |r.flash.log| - |step.flash.log| - 1;
        forall x | 0 <= x < FLASH_SIZE
          ensures r.flash.mem[x] == if page * PAGE_SIZE <= x < (page + 1 + done') * PAGE_SIZE then ERASED else s.mem[x]
        {
          ErasedPageAt(s.mem, PageAddress(page));
          assert step.flash.mem[x] == if page * PAGE_SIZE <= x < (page + 1) * PAGE_SIZE then ERASED else s.mem[x];
          assert r.flash.mem[x] == if (page + 1) * PAGE_SIZE <= x < (page + 1 + done') * PAGE_SIZE then ERASED else step.flash.mem[x];
        }
      } else {
        assert EraseFrom(s, script, page) == step;
      }
    }
  }

  /**
   * erase_firmware logs FLASH_Unlock and FLASH_ClearFlag, then one FLASH_ErasePage per
   * page tried, in ascending address order from the first primary page, at most 48.
   */
  lemma ErasureLog(s: FlashState, script: Script)
    requires |s.mem| == FLASH_SIZE
    ensures var r := Erasure(s, script);
            var n := |s.log| + 2;
            && n <= |r.flash.log| <= n + FW_NUM_PAGES
            && r.flash.log == s.log + [Unlock, ClearFlag] + EraseOps(script, n, 0, |r.flash.log| - n)
  {
    EraseFromLog(Logged(s, [Unlock, ClearFlag]), script, 0);
  }

  /**
   * erase_firmware returns FLASH_COMPLETE exactly when all 48 page erases report it,
   * after exactly 48 erases; otherwise it stops at the first failing erase and returns
   * that erase's status.
   */
  lemma ErasureCode(s: FlashState, script: Script)
    requires |s.mem| == FLASH_SIZE
    ensures var r := Erasure(s, script);
            var n := |s.log| + 2;
            && (r.code == FLASH_COMPLETE <==> AllErasesComplete(script, n))
            && (r.code == FLASH_COMPLETE ==> |r.flash.log| == n + FW_NUM_PAGES)
            && (r.code != FLASH_COMPLETE ==>
                  && n < |r.flash.log| <= n + FW_NUM_PAGES
                  && r.code == script(|r.flash.log| - 1)
                  && forall m :: n <= m < |r.flash.log| - 1 ==> script(m) == FLASH_COMPLETE)
  {
    EraseFromCode(Logged(s, [Unlock, ClearFlag]), script, 0);
  }

  /**
   * erase_firmware erases the pages the controller completed, from the first primary
   * page up, and leaves every other byte as it was; the staging region is never touched.
   */
  lemma ErasureMem(s: FlashState, script: Script)
    requires |s.mem| == FLASH_SIZE
    ensures var r := Erasure(s, script);
            var n := |s.log| + 2;
            var erased := if r.code == FLASH_COMPLETE then |r.flash.log| - n else |r.flash.log| - n - 1;
            && 0 <= erased <= FW_NUM_PAGES
            && (r.code == FLASH_COMPLETE <==> erased == FW_NUM_PAGES)
            && forall x :: 0 <= x < FLASH_SIZE ==>
                 r.flash.mem[x] == if x < erased * PAGE_SIZE then ERASED else s.mem[x]
  {
    var t := Logged(s, [Unlock, ClearFlag]);
    EraseFromCode(t, script, 0);
    EraseFromMem(t, script, 0);
  }

  // ---------------------------------------------------------------------------
  // write_firmware_data (main.c:49-61)

  /** Bytes write_firmware_data reads for `len` payload bytes: one more when len is odd. */
  function ReadLength(len: nat): nat
  {
    len + len % 2
  }

  /** An iteration at an even index below len reads two bytes and moves to the next even index. */
  lemma NextHalfWord(len: nat, i: nat)
    requires i % 2 == 0 && i < len
    ensures (i + 2) % 2 == 0 && i + 2 <= ReadLength(len)
  {
  }

  /** An accepted size never reads past the staging region, not even for an odd size. */
  lemma ReadLengthFits(len: nat)
    requires len <= NEW_FW_MAX_SIZE
    ensures ReadLength(len) <= NEW_FW_MAX_SIZE && PAYLOAD_START + ReadLength(len) <= FLASH_SIZE
  {
  }

  /** The number of iterations write_firmware_data's loop still makes from index i. */
  function HalfWordsLeft(len: nat, i: nat): (n: nat)
    requires i % 2 == 0 && i <= ReadLength(len)
    ensures i + 2 * n == ReadLength(len)
    decreases len - i
  {
    if i >= len then 0 else 1 + HalfWordsLeft(len, i + 2)
  }

  /** The loop of write_firmware_data from payload index i on. */
  function ProgramFrom(s: FlashState, script: Script, offset: nat, data: seq<byte>, len: nat, i: nat): (r: Run)
    requires |s.mem| == FLASH_SIZE
    requires i % 2 == 0 && i <= ReadLength(len) <= |data|
    requires offset + ReadLength(len) <= FLASH_SIZE
    ensures |r.flash.mem| == FLASH_SIZE && FLASH_BUSY <= r.code <= FLASH_TIMEOUT
    decreases len - i
  {
    if i >= len then Run(FLASH_COMPLETE, s)
    else
      var r := ProgramStep(s, script, FIRMWARE_ADDR + offset + i, HalfWord(data[i], data[i + 1]));
      if r.code != FLASH_COMPLETE then r else ProgramFrom(r.flash, script, offset, data, len, i + 2)
  }

  /**
   * One iteration of write_firmware_data's loop, reading its two bytes from the flash
   * at dataOff + i: a failure ends the loop with the write's status, and a completed
   * write leaves the rest of the loop to run on the new flash, the bytes it reads intact.
   */
  lemma ProgramLoopStep(s: FlashState, t: FlashState, status: int, script: Script, offset: nat,
                        data: seq<byte>, len: nat, i: nat, dataOff: nat, lo: byte, hi: byte, goal: Run)
    requires |s.mem| == FLASH_SIZE && i % 2 == 0 && i < len && ReadLength(len) == |data|
    requires offset + ReadLength(len) <= dataOff && dataOff + ReadLength(len) <= FLASH_SIZE
    requires s.mem[dataOff..dataOff + ReadLength(len)] == data && lo == data[i] && hi == data[i + 1]
    requires ProgramFrom(s, script, offset, data, len, i) == goal
    requires Run(status, t) == ProgramStep(s, script, FIRMWARE_ADDR + offset + i, HalfWord(lo, hi))
    ensures status != FLASH_COMPLETE ==> Run(status, t) == goal
    ensures status == FLASH_COMPLETE ==>
              && |t.mem| == FLASH_SIZE && i + 2 <= ReadLength(len)
              && ProgramFrom(t, script, offset, data, len, i + 2) == goal
              && t.mem[dataOff..dataOff + ReadLength(len)] == data
  {
    NextHalfWord(len, i);
    ProgramStepKeepsAbove(s, script, FIRMWARE_ADDR + offset + i, HalfWord(lo, hi), dataOff, dataOff + ReadLength(len));
  }

  /** write_firmware_data: clear the error flags, then program the half-words in ascending order. */
  function Programming(s: FlashState, script: Script, offset: nat, data: seq<byte>, len: nat): (r: Run)
    requires |s.mem| == FLASH_SIZE && ReadLength(len) <= |data|
    requires offset + ReadLength(len) <= FLASH_SIZE
    ensures |r.flash.mem| == FLASH_SIZE && FLASH_BUSY <= r.code <= FLASH_TIMEOUT
  {
    ProgramFrom(Logged(s, [ClearFlag]), script, offset, data, len, 0)
  }

  /**
   * The program loop stops at the first failure: it returns FLASH_COMPLETE exactly when
   * the controller completes every remaining half-word write, and otherwise the
   * status of the failing write, which is the last call it makes.
   */
  lemma {:induction false} ProgramFromCode(s: FlashState, script: Script, offset: nat, data: seq<byte>, len: nat, i: nat)
    requires |s.mem| == FLASH_SIZE
    requires i % 2 == 0 && i <= ReadLength(len) <= |data|
    requires offset + ReadLength(len) <= FLASH_SIZE
    ensures var r := ProgramFrom(s, script, offset, data, len, i);
            var n := |s.log|;
            var total := HalfWordsLeft(len, i);
            && (r.code == FLASH_COMPLETE <==> forall m :: n <= m < n + total ==> script(m) == FLASH_COMPLETE)
            && (r.code == FLASH_COMPLETE ==> |r.flash.log| == n + total)
            && (r.code != FLASH_COMPLETE ==>
                  && n < |r.flash.log| <= n + total
                  && r.code == script(|r.flash.log| - 1)
                  && forall m :: n <= m < |r.flash.log| - 1 ==> script(m) == FLASH_COMPLETE)
    decreases len - i
  {
    if i < len {
      var step := ProgramStep(s, script, FIRMWARE_ADDR + offset + i, HalfWord(data[i], data[i + 1]));
      assert HalfWordsLeft(len, i) == 1 + HalfWordsLeft(len, i + 2);
      if step.code == FLASH_COMPLETE {
        ProgramFromCode(step.flash, script, offset, data, len, i + 2);
        assert ProgramFrom(s, script, offset, data, len, i) == ProgramFrom(step.flash, script, offset, data, len, i + 2);
      } else {
        assert ProgramFrom(s, script, offset, data, len, i) == step;
      }
    }
  }

  /**
   * The FLASH_ProgramHalfWord calls for `count` half-words of data from index i on,
   * written at base + i, base + i + 2, ..., the first logged as call n.
   */
  function ProgramOps(script: Script, n: nat, base: nat, data: seq<byte>, i: nat, count: nat): (ops: seq<FlashOp>)
    requires i + 2 * count <= |data|
    ensures |ops| == count
    decreases count
  {
    if count == 0 then []
    else [ProgramHalfWord(base + i, HalfWord(data[i], data[i + 1]), script(n))]
         + ProgramOps(script, n + 1, base, data, i + 2, count - 1)
  }

  /** The k-th of those calls writes data[i+2k] | data[i+2k+1] << 8 at base+i+2k with the status of call n+k. */
  lemma {:induction false} ProgramOpsAt(script: Script, n: nat, base: nat, data: seq<byte>, i: nat, count: nat)
    requires i + 2 * count <= |data|
    ensures forall k :: 0 <= k < count ==>
              ProgramOps(script, n, base, data, i, count)[k]
                == ProgramHalfWord(base + i + 2 * k, HalfWord(data[i + 2 * k], data[i + 2 * k + 1]), script(n + k))
    decreases count
  {
    if count > 0 {
      ProgramOpsAt(script, n + 1, base, data, i + 2, count - 1);
      var ops := ProgramOps(script, n, base, data, i, count);
      var rest := ProgramOps(script, n + 1, base, data, i + 2, count - 1);
      forall k | 0 < k < count
        ensures ops[k] == ProgramHalfWord(base + i + 2 * k, HalfWord(data[i + 2 * k], data[i + 2 * k + 1]), script(n + k))
      {
        assert ops[k] == rest[k - 1];
        assert i + 2 + 2 * (k - 1) == i + 2 * k;
      }
    }
  }

  /** The program loop logs one FLASH_ProgramHalfWord per half-word tried, in ascending address order. */
  lemma {:induction false} ProgramFromLog(s: FlashState, script: Script, offset: nat, data: seq<byte>, len: nat, i: nat)
    requires |s.mem| == FLASH_SIZE
    requires i % 2 == 0 && i <= ReadLength(len) <= |data|
    requires offset + ReadLength(len) <= FLASH_SIZE
    ensures var r := ProgramFrom(s, script, offset, data, len, i);
            && |s.log| <= |r.flash.log| <= |s.log| + HalfWordsLeft(len, i)
            && r.flash.log == s.log + ProgramOps(script, |s.log|, FIRMWARE_ADDR + offset, data, i, |r.flash.log| - |s.log|)
    decreases len - i
  {
    if i < len {
      var step := ProgramStep(s, script, FIRMWARE_ADDR + offset + i, HalfWord(data[i], data[i + 1]));
      var op := ProgramHalfWord(FIRMWARE_ADDR + offset + i, HalfWord(data[i], data[i + 1]), script(|s.log|));
      assert step.flash.log == s.log + [op];
      if step.code == FLASH_COMPLETE {
        ProgramFromLog(step.flash, script, offset, data, len, i + 2);
        var r := ProgramFrom(step.flash, script, offset, data, len, i + 2);
        assert ProgramFrom(s, script, offset, data, len, i) == r;
        var rest := ProgramOps(script, |s.log| + 1, FIRMWARE_ADDR + offset, data, i + 2, |r.flash.log| - |step.flash.log|);
        assert ProgramOps(script, |s.log|, FIRMWARE_ADDR + offset, data, i, |r.flash.log| - |s.log|) == [op] + rest;
        Regroup(s.log, [op], rest);
      } else {
        assert ProgramFrom(s, script, offset, data, len, i) == step;
        assert ProgramOps(script, |s.log|, FIRMWARE_ADDR + offset, data, i, 1) == [op];
      }
    } else {
      assert s.log + ProgramOps(script, |s.log|, FIRMWARE_ADDR + offset, data, i, 0) == s.log;
    }
  }

  /**
   * The program loop stores, byte for byte, the data of the half-words the controller
   * completed, from offset+i up, and leaves every other byte as it was.
   */
  lemma {:induction false} ProgramFromMem(s: FlashState, script: Script, offset: nat, data: seq<byte>, len: nat, i: nat)
    requires |s.mem| == FLASH_SIZE
    requires i % 2 == 0 && i <= ReadLength(len) <= |data|
    requires offset + ReadLength(len) <= FLASH_SIZE
    ensures var r := ProgramFrom(s, script, offset, data, len, i);
            var done := if r.code == FLASH_COMPLETE then |r.flash.log| - |s.log| else |r.flash.log| - |s.log| - 1;
            && 0 <= done && i + 2 * done <= ReadLength(len)
            && forall x :: 0 <= x < FLASH_SIZE ==>
                 r.flash.mem[x] == if offset + i <= x < offset + i + 2 * done then data[x - offset] else s.mem[x]
    decreases len - i
  {
    if i < len {
      var step := ProgramStep(s, script, FIRMWARE_ADDR + offset + i, HalfWord(data[i], data[i + 1]));
      if step.code == FLASH_COMPLETE {
        ProgramFromMem(step.flash, script, offset, data, len, i + 2);
        var r := ProgramFrom(step.flash, script, offset, data, len, i + 2);
        assert ProgramFrom(s, script, offset, data, len, i) == r;
        var done' := if r.code == FLASH_COMPLETE then |r.flash.log| - |step.flash.log| else |r.flash.log| - |step.flash.log| - 1;
        ProgramStepBytes(s, script, offset + i, data[i], data[i + 1]);
        forall x | 0 <= x < FLASH_SIZE
          ensures r.flash.mem[x] == if offset + i <= x < offset + i + 2 + 2 * done' then data[x - offset] else s.mem[x]
        {
          assert r.flash.mem[x] == if offset + i + 2 <= x < offset + i + 2 + 2 * done' then data[x - offset] else step.flash.mem[x];
          if x == offset + i {
            assert step.flash.mem[x] == data[i];
          } else if x == offset + i + 1 {
            assert step.flash.mem[x] == data[i + 1];
          } else {
            assert step.flash.mem[x] == s.mem[x];
          }
        }
      } else {
        assert ProgramFrom(s, script, offset, data, len, i) == step;
      }
    }
  }

  /**
   * When every half-word is programmed, primary bytes offset .. offset+len-1 equal the
   * payload; for an odd len the byte after them holds data[len], the byte the last
   * iteration reads past the payload. Nothing outside that range changes.
   */
  lemma ProgrammingComplete(s: FlashState, script: Script, offset: nat, data: seq<byte>, len: nat)
    requires |s.mem| == FLASH_SIZE && ReadLength(len) <= |data|
    requires offset + ReadLength(len) <= FLASH_SIZE
    requires Programming(s, script, offset, data, len).code == FLASH_COMPLETE
    ensures var r := Programming(s, script, offset, data, len);
            && r.flash.mem[offset..offset + len] == data[..len]
            && (len % 2 == 1 ==> r.flash.mem[offset + len] == data[len])
            && (forall x :: 0 <= x < FLASH_SIZE && !(offset <= x < offset + ReadLength(len)) ==>
                  r.flash.mem[x] == s.mem[x])
  {
    var t := Logged(s, [ClearFlag]);
    ProgramFromCode(t, script, offset, data, len, 0);
    ProgramFromMem(t, script, offset, data, len, 0);
    var r := Programming(s, script, offset, data, len);
    assert forall x :: offset <= x < offset + ReadLength(len) ==> r.flash.mem[x] == data[x - offset];
    assert r.flash.mem[offset..offset + len] == data[..len];
  }

  /**
   * write_firmware_data logs FLASH_ClearFlag, then one FLASH_ProgramHalfWord per
   * half-word tried, at ascending addresses from FIRMWARE_ADDR + offset.
   */
  lemma ProgrammingLog(s: FlashState, script: Script, offset: nat, data: seq<byte>, len: nat)
    requires |s.mem| == FLASH_SIZE && ReadLength(len) <= |data|
    requires offset + ReadLength(len) <= FLASH_SIZE
    ensures var r := Programming(s, script, offset, data, len);
            var n := |s.log| + 1;
            && n <= |r.flash.log| && 2 * (|r.flash.log| - n) <= ReadLength(len)
            && r.flash.log == s.log + [ClearFlag] + ProgramOps(script, n, FIRMWARE_ADDR + offset, data, 0, |r.flash.log| - n)
  {
    ProgramFromLog(Logged(s, [ClearFlag]), script, offset, data, len, 0);
  }

  /**
   * write_firmware_data returns FLASH_COMPLETE exactly when every half-word write
   * reports it, after ReadLength(len) / 2 writes; otherwise it stops at the first
   * failing write and returns that write's status.
   */
  lemma ProgrammingCode(s: FlashState, script: Script, offset: nat, data: seq<byte>, len: nat)
    requires |s.mem| == FLASH_SIZE && ReadLength(len) <= |data|
    requires offset + ReadLength(len) <= FLASH_SIZE
    ensures var r := Programming(s, script, offset, data, len);
            var n := |s.log| + 1;
            && (r.code == FLASH_COMPLETE <==> forall m :: n <= m < n + HalfWordsLeft(len, 0) ==> script(m) == FLASH_COMPLETE)
            && (r.code == FLASH_COMPLETE ==> 2 * (|r.flash.log| - n) == ReadLength(len))
            && (r.code != FLASH_COMPLETE ==>
                  && n < |r.flash.log|
                  && r.code == script(|r.flash.log| - 1)
                  && forall m :: n <= m < |r.flash.log| - 1 ==> script(m) == FLASH_COMPLETE)
  {
    ProgramFromCode(Logged(s, [ClearFlag]), script, offset, data, len, 0);
  }

  // ---------------------------------------------------------------------------
  // write_firmware (main.c:63-87)

  /** Offset of the payload inside the modelled flash. */
  const PAYLOAD_START: nat := STAGING_OFFSET + HEADER_SIZE

  /** The staged header, decoded from the first six bytes of the staging region. */
  function StagedHeader(s: FlashState, order: ByteOrder): (h: Header)
    requires |s.mem| == FLASH_SIZE
  {
    DecodeHeader(s.mem[STAGING_OFFSET..PAYLOAD_START], order).0
  }

  /** The declared payload: `size` bytes right after the header. */
  function Payload(s: FlashState, size: nat): (p: seq<byte>)
    requires |s.mem| == FLASH_SIZE && size <= NEW_FW_MAX_SIZE
    ensures |p| == size
  {
    s.mem[PAYLOAD_START..PAYLOAD_START + size]
  }

  /** The bytes write_firmware hands to write_firmware_data: the payload, plus one for an odd size. */
  function StagedData(s: FlashState, size: nat): (d: seq<byte>)
    requires |s.mem| == FLASH_SIZE && size <= NEW_FW_MAX_SIZE
    ensures |d| == ReadLength(size) && d[..size] == Payload(s, size)
  {
    var d := s.mem[PAYLOAD_START..PAYLOAD_START + ReadLength(size)];
    assert d[..size] == s.mem[PAYLOAD_START..PAYLOAD_START + size];
    d
  }

  /** The staged image passes every check of write_firmware that precedes the erase. */
  predicate Validated(s: FlashState, crc16: seq<byte> -> u16, order: ByteOrder)
    requires |s.mem| == FLASH_SIZE
  {
    var h := StagedHeader(s, order);
    0 < h.size <= NEW_FW_MAX_SIZE && crc16(Payload(s, h.size)) == h.crc
  }

  /**
   * The steps of write_firmware once the image is validated (main.c:81-86): erase the
   * primary region and, if that completes, program `size` payload bytes read back
   * from the staging region.
   */
  function Install(s: FlashState, script: Script, size: nat): (r: Run)
    requires |s.mem| == FLASH_SIZE && size <= NEW_FW_MAX_SIZE
    ensures |r.flash.mem| == FLASH_SIZE && FLASH_BUSY <= r.code <= FLASH_TIMEOUT
  {
    var e := Erasure(s, script);
    if e.code != FLASH_COMPLETE then e
    else Programming(e.flash, script, 0, e.flash.mem[PAYLOAD_START..PAYLOAD_START + ReadLength(size)], size)
  }

  /**
   * One call of write_firmware: decode the header, reject an oversized (-1) or empty
   * (-2) image, reject a CRC mismatch (-3), then erase and program.
   */
  function Attempt(s: FlashState, script: Script, crc16: seq<byte> -> u16, order: ByteOrder): (r: Run)
    requires |s.mem| == FLASH_SIZE
    ensures |r.flash.mem| == FLASH_SIZE
  {
    var (h, ind) := DecodeHeader(s.mem[STAGING_OFFSET..STAGING_OFFSET + HEADER_SIZE], order);
    if h.size > NEW_FW_MAX_SIZE then Run(-1, s)
    else if h.size == 0 then Run(-2, s)
    else if crc16(s.mem[STAGING_OFFSET + ind..STAGING_OFFSET + ind + h.size]) != h.crc then Run(-3, s)
    else Install(s, script, h.size)
  }

  /**
   * The programming step reads the staging bytes as they were before the erase: the
   * erase cannot clobber the data it is about to copy.
   */
  lemma InstallSteps(s: FlashState, script: Script, size: nat)
    requires |s.mem| == FLASH_SIZE && size <= NEW_FW_MAX_SIZE
    ensures var e := Erasure(s, script);
            Install(s, script, size)
              == if e.code != FLASH_COMPLETE then e else Programming(e.flash, script, 0, StagedData(s, size), size)
  {
    var e := Erasure(s, script);
    ErasureMem(s, script);
    assert e.flash.mem[PAYLOAD_START..PAYLOAD_START + ReadLength(size)] == StagedData(s, size);
  }

  /**
   * The calls Install makes: FLASH_Unlock, FLASH_ClearFlag and the page erases in
   * ascending order, stopping at the first that fails; only when all 48 erases
   * complete, a second FLASH_ClearFlag and the half-word writes of the staged bytes
   * at ascending addresses from FIRMWARE_ADDR.
   */
  lemma InstallLog(s: FlashState, script: Script, size: nat)
    requires |s.mem| == FLASH_SIZE && size <= NEW_FW_MAX_SIZE
    ensures var r := Install(s, script, size);
            var erases := |s.log| + 2;
            var writes := erases + FW_NUM_PAGES + 1;
            && (!AllErasesComplete(script, erases) ==>
                  && erases < |r.flash.log| <= erases + FW_NUM_PAGES
                  && r.flash.log == s.log + [Unlock, ClearFlag] + EraseOps(script, erases, 0, |r.flash.log| - erases))
            && (AllErasesComplete(script, erases) ==>
                  && writes <= |r.flash.log| && 2 * (|r.flash.log| - writes) <= ReadLength(size)
                  && r.flash.log == s.log + [Unlock, ClearFlag] + EraseOps(script, erases, 0, FW_NUM_PAGES) + [ClearFlag]
                                    + ProgramOps(script, writes, FIRMWARE_ADDR, StagedData(s, size), 0, |r.flash.log| - writes))
  {
    var e := Erasure(s, script);
    ErasureLog(s, script);
    ErasureCode(s, script);
    if e.code == FLASH_COMPLETE {
      InstallSteps(s, script, size);
      ProgrammingLog(e.flash, script, 0, StagedData(s, size), size);
    }
  }

  /** In a log of erase_firmware's calls, none from FLASH_Unlock to the last erase is a half-word write. */
  lemma EraseCallsWriteNothing(log: seq<FlashOp>, prefix: seq<FlashOp>, script: Script, count: nat)
    requires |prefix| + 2 + count <= |log|
    requires log[..|prefix| + 2 + count] == prefix + [Unlock, ClearFlag] + EraseOps(script, |prefix| + 2, 0, count)
    ensures forall j :: |prefix| <= j < |prefix| + 2 + count ==> !log[j].ProgramHalfWord?
  {
    var ops := EraseOps(script, |prefix| + 2, 0, count);
    EraseOpsAt(script, |prefix| + 2, 0, count);
    forall j | |prefix| <= j < |prefix| + 2 + count
      ensures !log[j].ProgramHalfWord?
    {
      assert log[j] == log[..|prefix| + 2 + count][j];
      if j < |prefix| + 2 {
        assert log[j] == [Unlock, ClearFlag][j - |prefix|];
      } else {
        assert log[j] == ops[j - |prefix| - 2];
      }
    }
  }

  /** Install writes no half-word before all 48 erases completed and FLASH_ClearFlag followed them. */
  lemma InstallWritesAfterErase(s: FlashState, script: Script, size: nat)
    requires |s.mem| == FLASH_SIZE && size <= NEW_FW_MAX_SIZE
    ensures var r := Install(s, script, size);
            var n := |s.log|;
            forall j :: n <= j < |r.flash.log| && r.flash.log[j].ProgramHalfWord? ==>
              AllErasesComplete(script, n + 2) && n + 3 + FW_NUM_PAGES <= j
  {
    InstallLog(s, script, size);
    if AllErasesComplete(script, |s.log| + 2) {
      InstallWritesAfterCompleteErase(s, script, size);
    } else {
      InstallWritesNothingAfterFailedErase(s, script, size);
    }
  }

  lemma InstallWritesAfterCompleteErase(s: FlashState, script: Script, size: nat)
    requires |s.mem| == FLASH_SIZE && size <= NEW_FW_MAX_SIZE
    requires AllErasesComplete(script, |s.log| + 2)
    ensures var r := Install(s, script, size);
            var n := |s.log|;
            forall j :: n <= j < |r.flash.log| && r.flash.log[j].ProgramHalfWord? ==> n + 3 + FW_NUM_PAGES <= j
  {
    var n := |s.log|;
    var r := Install(s, script, size);
    InstallLog(s, script, size);
    var erases := s.log + [Unlock, ClearFlag] + EraseOps(script, n + 2, 0, FW_NUM_PAGES);
    assert r.flash.log[..|erases|] == erases;
    EraseCallsWriteNothing(r.flash.log, s.log, script, FW_NUM_PAGES);
    assert r.flash.log[|erases|] == ClearFlag;
  }

  lemma InstallWritesNothingAfterFailedErase(s: FlashState, script: Script, size: nat)
    requires |s.mem| == FLASH_SIZE && size <= NEW_FW_MAX_SIZE
    requires !AllErasesComplete(script, |s.log| + 2)
    ensures var r := Install(s, script, size);
            forall j :: |s.log| <= j < |r.flash.log| ==> !r.flash.log[j].ProgramHalfWord?
  {
    var r := Install(s, script, size);
    InstallLog(s, script, size);
    EraseCallsWriteNothing(r.flash.log, s.log, script, |r.flash.log| - |s.log| - 2);
  }

  /**
   * A completed Install leaves the primary region holding the payload at offset 0
   * (plus, for an odd size, the staging byte that follows it), erased bytes after it,
   * and the staging region as it was.
   */
  lemma InstallSuccess(s: FlashState, script: Script, size: nat)
    requires |s.mem| == FLASH_SIZE && size <= NEW_FW_MAX_SIZE
    requires Install(s, script, size).code == FLASH_COMPLETE
    ensures var r := Install(s, script, size);
            && r.flash.mem[..size] == Payload(s, size)
            && (size % 2 == 1 ==> r.flash.mem[size] == s.mem[PAYLOAD_START + size])
            && (forall x :: ReadLength(size) <= x < STAGING_OFFSET ==> r.flash.mem[x] == ERASED)
            && r.flash.mem[STAGING_OFFSET..] == s.mem[STAGING_OFFSET..]
  {
    var e := Erasure(s, script);
    InstallSteps(s, script, size);
    ErasureMem(s, script);
    ProgrammingComplete(e.flash, script, 0, StagedData(s, size), size);
    var r := Install(s, script, size);
    assert r.flash.mem[..size] == StagedData(s, size)[..size];
    assert r.flash.mem[STAGING_OFFSET..] == s.mem[STAGING_OFFSET..];
  }

  /** Whatever the controller reports, Install never changes the staging region. */
  lemma InstallPreservesStaging(s: FlashState, script: Script, size: nat)
    requires |s.mem| == FLASH_SIZE && size <= NEW_FW_MAX_SIZE
    ensures var r := Install(s, script, size);
            forall x :: STAGING_OFFSET <= x < FLASH_SIZE ==> r.flash.mem[x] == s.mem[x]
  {
    var e := Erasure(s, script);
    ErasureMem(s, script);
    if e.code == FLASH_COMPLETE {
      InstallSteps(s, script, size);
      ProgramFromMem(Logged(e.flash, [ClearFlag]), script, 0, StagedData(s, size), size, 0);
    }
  }

  /**
   * The rejections of write_firmware: -1 exactly for an oversized declared length,
   * -2 exactly for a zero one, -3 exactly for a CRC mismatch; each leaves the flash
   * untouched and makes no library call. Any other code is a controller status,
   * returned only for a validated image.
   */
  lemma AttemptRejections(s: FlashState, script: Script, crc16: seq<byte> -> u16, order: ByteOrder)
    requires |s.mem| == FLASH_SIZE
    ensures var r := Attempt(s, script, crc16, order);
            var h := StagedHeader(s, order);
            && (r.code == -1 <==> h.size > NEW_FW_MAX_SIZE)
            && (r.code == -2 <==> h.size == 0)
            && (r.code == -3 <==> 0 < h.size <= NEW_FW_MAX_SIZE && crc16(Payload(s, h.size)) != h.crc)
            && (r.code in {-1, -2, -3} ==> r.flash == s)
            && (r.code !in {-1, -2, -3} ==>
                  && FLASH_BUSY <= r.code <= FLASH_TIMEOUT && Validated(s, crc16, order)
                  && r == Install(s, script, h.size))
  {
  }

  /**
   * write_firmware writes no half-word unless the image was validated and all 48 page
   * erases reported FLASH_COMPLETE, and none before the second FLASH_ClearFlag that
   * follows them.
   */
  lemma AttemptWritesAfterErase(s: FlashState, script: Script, crc16: seq<byte> -> u16, order: ByteOrder)
    requires |s.mem| == FLASH_SIZE
    ensures var r := Attempt(s, script, crc16, order);
            var n := |s.log|;
            forall j :: n <= j < |r.flash.log| && r.flash.log[j].ProgramHalfWord? ==>
              Validated(s, crc16, order) && AllErasesComplete(script, n + 2) && n + 3 + FW_NUM_PAGES <= j
  {
    AttemptRejections(s, script, crc16, order);
    if Validated(s, crc16, order) {
      InstallWritesAfterErase(s, script, StagedHeader(s, order).size);
    }
  }

  /**
   * Whatever the controller reports, write_firmware never changes the staging region:
   * the erase stops at NEW_FW_ADDR and the writes stay below it.
   */
  lemma AttemptPreservesStaging(s: FlashState, script: Script, crc16: seq<byte> -> u16, order: ByteOrder)
    requires |s.mem| == FLASH_SIZE
    ensures Attempt(s, script, crc16, order).flash.mem[STAGING_OFFSET..] == s.mem[STAGING_OFFSET..]
  {
    AttemptRejections(s, script, crc16, order);
    if Validated(s, crc16, order) {
      var r := Attempt(s, script, crc16, order);
      InstallPreservesStaging(s, script, StagedHeader(s, order).size);
      assert r.flash.mem[STAGING_OFFSET..] == s.mem[STAGING_OFFSET..];
    }
  }

  /**
   * write_firmware returns FLASH_COMPLETE only for a validated image, which it has
   * then copied to the start of the primary region.
   */
  lemma AttemptSuccess(s: FlashState, script: Script, crc16: seq<byte> -> u16, order: ByteOrder)
    requires |s.mem| == FLASH_SIZE
    requires Attempt(s, script, crc16, order).code == FLASH_COMPLETE
    ensures Validated(s, crc16, order)
    ensures Attempt(s, script, crc16, order).flash.mem[..StagedHeader(s, order).size] == Payload(s, StagedHeader(s, order).size)
  {
    AttemptRejections(s, script, crc16, order);
    InstallSuccess(s, script, StagedHeader(s, order).size);
  }

  /**
   * Install returns FLASH_COMPLETE exactly when the controller completes all 48 page
   * erases and then every half-word write, and it has then made 2 + 48 + 1 +
   * ReadLength(size) / 2 library calls.
   */
  lemma InstallCode(s: FlashState, script: Script, size: nat)
    requires |s.mem| == FLASH_SIZE && size <= NEW_FW_MAX_SIZE
    ensures var r := Install(s, script, size);
            var writes := |s.log| + 3 + FW_NUM_PAGES;
            && (r.code == FLASH_COMPLETE <==>
                  && AllErasesComplete(script, |s.log| + 2)
                  && forall m :: writes <= m < writes + HalfWordsLeft(size, 0) ==> script(m) == FLASH_COMPLETE)
            && (r.code == FLASH_COMPLETE ==> |r.flash.log| == writes + HalfWordsLeft(size, 0))
  {
    var e := Erasure(s, script);
    ErasureCode(s, script);
    InstallSteps(s, script, size);
    if e.code == FLASH_COMPLETE {
      ProgrammingCode(e.flash, script, 0, StagedData(s, size), size);
    }
  }

  /**
   * write_firmware returns FLASH_COMPLETE exactly when the staged image is validated
   * and the controller completes every erase and every half-word write it is asked for.
   */
  lemma AttemptCompletes(s: FlashState, script: Script, crc16: seq<byte> -> u16, order: ByteOrder)
    requires |s.mem| == FLASH_SIZE
    ensures var r := Attempt(s, script, crc16, order);
            var writes := |s.log| + 3 + FW_NUM_PAGES;
            r.code == FLASH_COMPLETE <==>
              && Validated(s, crc16, order)
              && AllErasesComplete(script, |s.log| + 2)
              && forall m :: writes <= m < writes + HalfWordsLeft(StagedHeader(s, order).size, 0) ==> script(m) == FLASH_COMPLETE
  {
    AttemptRejections(s, script, crc16, order);
    if Validated(s, crc16, order) {
      InstallCode(s, script, StagedHeader(s, order).size);
    }
  }

  /**
   * With a controller that completes every call, write_firmware installs every validated
   * image: it returns FLASH_COMPLETE and the payload starts the primary region.
   */
  lemma ReliableControllerInstalls(s: FlashState, script: Script, crc16: seq<byte> -> u16, order: ByteOrder)
    requires |s.mem| == FLASH_SIZE && Validated(s, crc16, order)
    requires forall m :: |s.log| <= m ==> script(m) == FLASH_COMPLETE
    ensures var r := Attempt(s, script, crc16, order);
            && r.code == FLASH_COMPLETE
            && r.flash.mem[..StagedHeader(s, order).size] == Payload(s, StagedHeader(s, order).size)
  {
    AttemptCompletes(s, script, crc16, order);
    AttemptSuccess(s, script, crc16, order);
  }

  /** The header, the payload and the verdict of the checks depend on the staging region alone. */
  lemma StagingDetermines(a: FlashState, b: FlashState, crc16: seq<byte> -> u16, order: ByteOrder)
    requires |a.mem| == FLASH_SIZE && |b.mem| == FLASH_SIZE
    requires a.mem[STAGING_OFFSET..] == b.mem[STAGING_OFFSET..]
    ensures StagedHeader(a, order) == StagedHeader(b, order)
    ensures Validated(a, crc16, order) == Validated(b, crc16, order)
    ensures forall size :: 0 <= size <= NEW_FW_MAX_SIZE ==> Payload(a, size) == Payload(b, size)
  {
    assert a.mem[STAGING_OFFSET..PAYLOAD_START] == a.mem[STAGING_OFFSET..][..HEADER_SIZE];
    assert b.mem[STAGING_OFFSET..PAYLOAD_START] == b.mem[STAGING_OFFSET..][..HEADER_SIZE];
    forall size | 0 <= size <= NEW_FW_MAX_SIZE
      ensures Payload(a, size) == Payload(b, size)
    {
      assert Payload(a, size) == a.mem[STAGING_OFFSET..][HEADER_SIZE..HEADER_SIZE + size];
      assert Payload(b, size) == b.mem[STAGING_OFFSET..][HEADER_SIZE..HEADER_SIZE + size];
    }
  }
}
