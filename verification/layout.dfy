/** Memory map, page geometry and hardware status codes of the bootloader (main.c:8-11). */
module Layout {

  /** Start of the primary firmware region, the image the device runs after a reset. */
  const FIRMWARE_ADDR: nat := 0x0800_0000
  /** Start of the staging region, where a new image waits behind its 6-byte header. */
  const NEW_FW_ADDR: nat := 0x0801_8000
  /** Start of the bootloader itself; the model's flash ends here. */
  const BOOTLOADER_ADDR: nat := 0x0803_0000
  /** Number of pages erase_firmware erases. */
  const FW_NUM_PAGES: nat := 48
  /** Size of one erasable flash page. */
  const PAGE_SIZE: nat := 2048

  /** The modelled flash: primary and staging regions, as offsets from FIRMWARE_ADDR. */
  const FLASH_SIZE: nat := BOOTLOADER_ADDR - FIRMWARE_ADDR
  /** Offset of the staging region inside the modelled flash. */
  const STAGING_OFFSET: nat := NEW_FW_ADDR - FIRMWARE_ADDR
  /** A u32 length followed by a u16 CRC. */
  const HEADER_SIZE: nat := 6
  /**
   * Largest declared size accepted. The source leaves the bound commented out
   * (main.c:68-70); the model reinstates it with the staging capacity left after
   * the header, so the payload never runs past the staging region.
   */
  const NEW_FW_MAX_SIZE: nat := BOOTLOADER_ADDR - NEW_FW_ADDR - HEADER_SIZE

  /** Value of every byte of an erased page. */
  const ERASED: byte := 0xFF

  type byte = x: int | 0 <= x < 0x100
  type u16 = x: int | 0 <= x < 0x1_0000
  type u32 = x: int | 0 <= x < 0x1_0000_0000

  // FLASH_Status of the STM32F30x standard peripheral library.
  const FLASH_BUSY: int := 1
  const FLASH_ERROR_WRP: int := 2
  const FLASH_ERROR_PROGRAM: int := 3
  const FLASH_COMPLETE: int := 4
  const FLASH_TIMEOUT: int := 5

  /** A status FLASH_ErasePage or FLASH_ProgramHalfWord may report. */
  type FlashStatus = s: int | 1 <= s <= 5 witness 4

  /** The 48 erased pages end exactly where the staging region begins. */
  lemma EraseRangeEndsAtStaging()
    ensures FIRMWARE_ADDR + FW_NUM_PAGES * PAGE_SIZE == NEW_FW_ADDR
    ensures FW_NUM_PAGES * PAGE_SIZE == STAGING_OFFSET <= FLASH_SIZE
  {
  }
}
