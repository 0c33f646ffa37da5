/**
 * write_firmware as main.c:63-86 has it, with the size bound commented out
 * (main.c:68-70): its checks, and the erase and programming that follow them, set
 * against the corrected checks of FlashModel.Attempt.
 */
module Findings {
  import opened Layout
  import opened Header
  import opened FlashModel

  /** What the checks of write_firmware decide before the erase. */
  datatype Gate =
    | Rejected(code: int)
    /** The CRC read ran past the end of readable memory. */
    | Fault
    /** The image passed; `size` bytes are about to be erased over and programmed. */
    | Accepted(size: nat)

  /**
   * The checks as written. `mem` is the readable memory from FIRMWARE_ADDR on: the
   * primary and staging regions, then whatever lies above BOOTLOADER_ADDR. Without the
   * size bound, the CRC covers whatever `size` bytes follow the header.
   */
  function CheckAsWritten(mem: seq<byte>, crc16: seq<byte> -> u16, order: ByteOrder): (g: Gate)
    requires FLASH_SIZE <= |mem|
    ensures g.Rejected? ==> g.code in {-2, -3}
    ensures g.Accepted? ==>
              && g.size == DecodeHeader(mem[STAGING_OFFSET..PAYLOAD_START], order).0.size
              && 0 < g.size && PAYLOAD_START + g.size <= |mem|
              && crc16(mem[PAYLOAD_START..PAYLOAD_START + g.size]) == DecodeHeader(mem[STAGING_OFFSET..PAYLOAD_START], order).0.crc
  {
    var h := DecodeHeader(mem[STAGING_OFFSET..PAYLOAD_START], order).0;
    if h.size == 0 then Rejected(-2)
    else if PAYLOAD_START + h.size > |mem| then Fault
    else if crc16(mem[PAYLOAD_START..PAYLOAD_START + h.size]) != h.crc then Rejected(-3)
    else Accepted(h.size)
  }

  /** A declared length two bytes longer than the primary region. */
  const OVERSIZE: nat := STAGING_OFFSET + 2

  /** How far an OVERSIZE payload reaches past BOOTLOADER_ADDR, into the bootloader's own flash. */
  const OVERRUN: nat := PAYLOAD_START + OVERSIZE - FLASH_SIZE

  /**
   * Erased primary region, then a header declaring OVERSIZE bytes with their true CRC,
   * then those bytes: zeros up to BOOTLOADER_ADDR, then `above`, the first OVERRUN bytes
   * of the bootloader itself, whatever they are.
   */
  function OversizedImage(above: seq<byte>, crc16: seq<byte> -> u16, order: ByteOrder): (mem: seq<byte>)
    requires |above| == OVERRUN
    ensures |mem| == PAYLOAD_START + OVERSIZE && mem[FLASH_SIZE..] == above
  {
    var payload := seq(FLASH_SIZE - PAYLOAD_START, k => 0) + above;
    var mem := seq(STAGING_OFFSET, k => ERASED) + EncodeHeader(Header(OVERSIZE, crc16(payload)), order) + payload;
    assert mem[FLASH_SIZE..] == payload[FLASH_SIZE - PAYLOAD_START..];
    mem
  }

  /**
   * The checks as written accept the oversized image, whose CRC is read from the
   * bootloader's own flash above BOOTLOADER_ADDR.
   */
  lemma OversizeAcceptedAsWritten(above: seq<byte>, crc16: seq<byte> -> u16, order: ByteOrder)
    requires |above| == OVERRUN
    ensures var mem := OversizedImage(above, crc16, order);
            && FLASH_SIZE < |mem|
            && CheckAsWritten(mem, crc16, order) == Accepted(OVERSIZE)
            && OVERSIZE > NEW_FW_MAX_SIZE
            && PAYLOAD_START + OVERSIZE > FLASH_SIZE
  {
    var payload := seq(FLASH_SIZE - PAYLOAD_START, k => 0) + above;
    var h := Header(OVERSIZE, crc16(payload));
    var mem := OversizedImage(above, crc16, order);
    assert mem[STAGING_OFFSET..PAYLOAD_START] == EncodeHeader(h, order) + [];
    assert mem[PAYLOAD_START..PAYLOAD_START + OVERSIZE] == payload;
    HeaderRoundTrip(h, [], order);
  }

  /**
   * What write_firmware does once its checks pass (main.c:81-86), as written: erase the
   * primary region and, if that completes, program `size` bytes read from NEW_FW_ADDR + 6
   * in the flash followed by `above`, the bytes past BOOTLOADER_ADDR. Without the size
   * bound the bytes read may lie past the staging region and the writes may reach it.
   */
  function InstallAsWritten(s: FlashState, above: seq<byte>, script: Script, size: nat): (r: Run)
    requires |s.mem| == FLASH_SIZE && ReadLength(size) <= FLASH_SIZE
    requires PAYLOAD_START + ReadLength(size) <= FLASH_SIZE + |above|
    ensures |r.flash.mem| == FLASH_SIZE && FLASH_BUSY <= r.code <= FLASH_TIMEOUT
  {
    var e := Erasure(s, script);
    if e.code != FLASH_COMPLETE then e
    else Programming(e.flash, script, 0, (e.flash.mem + above)[PAYLOAD_START..PAYLOAD_START + ReadLength(size)], size)
  }

  /** For a size within the bound, the as-written install is the corrected model's Install. */
  lemma InstallAsWrittenWithinBound(s: FlashState, above: seq<byte>, script: Script, size: nat)
    requires |s.mem| == FLASH_SIZE && size <= NEW_FW_MAX_SIZE
    ensures ReadLength(size) <= FLASH_SIZE && PAYLOAD_START + ReadLength(size) <= FLASH_SIZE + |above|
    ensures InstallAsWritten(s, above, script, size) == Install(s, script, size)
  {
    var e := Erasure(s, script);
    ReadLengthFits(size);
    assert (e.flash.mem + above)[PAYLOAD_START..PAYLOAD_START + ReadLength(size)]
        == e.flash.mem[PAYLOAD_START..PAYLOAD_START + ReadLength(size)];
  }

  /**
   * As written, write_firmware accepts the oversized image and, with a controller that
   * completes every call, erases the 48 pages and writes OVERSIZE / 2 half-words from
   * FIRMWARE_ADDR. The last write lands at NEW_FW_ADDR: it replaces the first two bytes
   * of the staging header with bytes 6 and 7 of the bootloader's own flash.
   */
  lemma OversizeInstalledAsWritten(above: seq<byte>, script: Script, crc16: seq<byte> -> u16, order: ByteOrder, log: seq<FlashOp>)
    requires |above| == OVERRUN
    requires forall m :: |log| <= m ==> script(m) == FLASH_COMPLETE
    ensures var image := OversizedImage(above, crc16, order);
            var s := FlashState(image[..FLASH_SIZE], log);
            var r := InstallAsWritten(s, above, script, OVERSIZE);
            var last := |log| + 3 + FW_NUM_PAGES + OVERSIZE / 2 - 1;
            && CheckAsWritten(image, crc16, order) == Accepted(OVERSIZE)
            && r.code == FLASH_COMPLETE
            && |r.flash.log| == last + 1
            && r.flash.log[last] == ProgramHalfWord(NEW_FW_ADDR, HalfWord(above[6], above[7]), FLASH_COMPLETE)
            && r.flash.mem[STAGING_OFFSET] == above[6] && r.flash.mem[STAGING_OFFSET + 1] == above[7]
  {
    OversizeAcceptedAsWritten(above, crc16, order);
    var image := OversizedImage(above, crc16, order);
    var s := FlashState(image[..FLASH_SIZE], log);
    var n := |log|;
    var e := Erasure(s, script);
    ErasureCode(s, script);
    ErasureMem(s, script);
    assert e.code == FLASH_COMPLETE;
    var data := (e.flash.mem + above)[PAYLOAD_START..PAYLOAD_START + OVERSIZE];
    assert data[STAGING_OFFSET] == above[6] && data[STAGING_OFFSET + 1] == above[7];
    var writes := n + 3 + FW_NUM_PAGES;
    ProgrammingCode(e.flash, script, 0, data, OVERSIZE);
    ProgrammingLog(e.flash, script, 0, data, OVERSIZE);
    ProgrammingComplete(e.flash, script, 0, data, OVERSIZE);
    ProgramOpsAt(script, writes, FIRMWARE_ADDR, data, 0, OVERSIZE / 2);
  }

  /**
   * The corrected checks reject the same staged image, as the flash holds it, with -1
   * and leave the flash alone.
   */
  lemma OversizeRejected(above: seq<byte>, crc16: seq<byte> -> u16, order: ByteOrder, script: Script, log: seq<FlashOp>)
    requires |above| == OVERRUN
    ensures var s := FlashState(OversizedImage(above, crc16, order)[..FLASH_SIZE], log);
            Attempt(s, script, crc16, order) == Run(-1, s)
  {
    var payload := seq(FLASH_SIZE - PAYLOAD_START, k => 0) + above;
    var h := Header(OVERSIZE, crc16(payload));
    var pad := seq(STAGING_OFFSET, k => ERASED);
    var image := OversizedImage(above, crc16, order);
    assert image == pad + EncodeHeader(h, order) + payload;
    assert image[STAGING_OFFSET..PAYLOAD_START] == EncodeHeader(h, order);
    var s := FlashState(image[..FLASH_SIZE], log);
    assert s.mem[STAGING_OFFSET..PAYLOAD_START] == EncodeHeader(h, order) + [];
    HeaderRoundTrip(h, [], order);
    assert StagedHeader(s, order) == h;
  }
}
