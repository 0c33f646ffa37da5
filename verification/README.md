# STM32 secondary bootloader — verified model

This project models the update core of a secondary bootloader for an STM32F30x
microcontroller (`main.c`). On every boot, `main` calls `write_firmware` up to five
times. Each call does four things in order:

1. It decodes a 6-byte header from the staging region at `NEW_FW_ADDR`: a u32 payload
   length, then a u16 CRC.
2. It rejects an empty image (-2) and an image whose CRC does not match (-3).
3. It erases the 48 pages of the primary region at `FIRMWARE_ADDR`.
4. It programs the payload there, one little-endian half-word at a time.

`main` reports each outcome on the status LEDs. A rejection or a completed installation
blinks a pattern of its own and resets the device. A flash-controller failure blinks twice
and leads to another attempt. After five such failures, `main` blinks eight times and resets.

The model is layered:

- `layout.dfy` (module `Layout`) holds the memory map, the page geometry and the
  `FLASH_Status` codes.
- `header.dfy` (module `Header`) holds the header decoder and its inverse, the encoder used
  by the image producer. The byte order of the parse helpers is a parameter.
- `flash_model.dfy` (module `FlashModel`) is a pure specification of one update attempt:
  - The flash is one byte sequence covering the primary and staging regions. Indices are
    offsets from `FIRMWARE_ADDR`.
  - Every call into the flash library is appended to a log.
  - The flash controller is a `Script`: the status it reports for the n-th logged call.
    This lets it inject any failure at any call.
  - Lemmas state what the source promises: the order of the calls, early exit at the first
    failure, which bytes change, the rejections, and that the staging region is never
    touched.
- `programmer.dfy` (module `Programmer`) holds class `Flash`: the flash as an array changed in
  place. Its methods are `erase_firmware`, `write_firmware_data` and `write_firmware`, each
  with its loop. Each method is proved to produce the run the pure specification gives.
- `bootloader.dfy` (module `Bootloader`) holds `blink_led` and `main`'s attempt loop. The LEDs
  are a class whose state is the trace of pad writes; a reset is the last event. The loop is
  proved to leave the flash and the LED trace as the pure `BootAll` does. `BootAll`'s lemmas
  prove the following:
  - The loop stops at the first outcome that ends it, after at most five attempts.
  - A run never changes the staging region.
  - The green LED blinks exactly when an attempt completed the installation.
  - A completed installation has copied the validated staged payload to the start of the
    primary region.
- `findings.dfy` (module `Findings`) holds `write_firmware` as the source leaves it, without the
  size check: its checks, and the erase and programming that follow them. They are set against
  the corrected check the rest of the model uses (see Findings).

Two consequences of `reset` never returning (main.c:25-33) shape the LED model:

- The two negative blinks at main.c:143 follow only outcomes that do not reset.
- The give-up pattern at main.c:147 is shown once before the final reset, and the loop at
  main.c:149-151 is never reached.

## Model

| member | source | states |
|---|---|---|
| Layout.EraseRangeEndsAtStaging | main.c:8-11 | The 48 pages of 2048 bytes from FIRMWARE_ADDR end exactly at NEW_FW_ADDR, inside the modelled flash. |
| Header.MsbFirst | main.c:64-66 | Taking an n-byte field in the given byte order yields exactly n bytes. |
| Header.ParseUint32 | main.c:65 | utils_parse_uint32 reads a u32 and advances the index by 4. |
| Header.ParseUint16 | main.c:66 | utils_parse_uint16 reads a u16 and advances the index by 2. |
| Header.DecodeHeader | main.c:64-66 | The header decode leaves the index at 6, where the payload starts. |
| Header.InOrder | main.c:64-66 | Reordering bytes for a byte order keeps their number. |
| Header.Msb32 | main.c:65 | A u32 splits into four bytes. |
| Header.Msb16 | main.c:66 | A u16 splits into two bytes. |
| Header.EncodeUint32 | main.c:65 | The producer's u32 field is four bytes. |
| Header.EncodeUint16 | main.c:66 | The producer's u16 field is two bytes. |
| Header.EncodeHeader | main.c:64-66 | An encoded header is exactly 6 bytes. |
| Header.Be32OfMsb32 | main.c:65 | Reading back the four bytes of a u32 gives the u32. |
| Header.Msb32OfBe32 | main.c:65 | Splitting the u32 read from four bytes gives those bytes. |
| Header.Be16OfMsb16 | main.c:66 | Reading back the two bytes of a u16 gives the u16. |
| Header.Msb16OfBe16 | main.c:66 | Splitting the u16 read from two bytes gives those bytes. |
| Header.MsbFirstInOrder | main.c:64-66 | Reading a field in a byte order and laying it out again in that order restores the bytes. |
| Header.InOrderMsbFirst | main.c:64-66 | A field laid out in a byte order, wherever it sits in a buffer, is read back unchanged. |
| Header.HeaderRoundTrip | main.c:64-66 | Decoding an encoded header gives back its length and CRC and index 6, whatever payload follows. |
| Header.HeaderBytesDetermined | main.c:64-66 | The decoded fields determine the six header bytes, so decoding loses nothing. |
| FlashModel.PageAddress | main.c:40 | FIRMWARE_ADDR + i * 2048 starts a page inside the modelled flash for each i < 48. |
| FlashModel.HalfWord | main.c:54 | The half-word (hi << 8) \| lo stores lo at its lower address and hi at the upper one. |
| FlashModel.HalfWordOfBytes | main.c:54 | Every half-word is assembled from its own two bytes. |
| FlashModel.ErasedPage | main.c:40 | Erasing a page keeps the flash size. |
| FlashModel.ErasedPageAt | main.c:40 | Erasing a page sets exactly its 2048 bytes to 0xFF and leaves every other byte alone. |
| FlashModel.ErasePageStep | main.c:40 | FLASH_ErasePage reports a FLASH_Status and keeps the flash size. |
| FlashModel.ProgramStep | main.c:54 | FLASH_ProgramHalfWord reports a FLASH_Status and keeps the flash size. |
| FlashModel.ProgramStepBytes | main.c:54 | A completed half-word write stores data[i] then data[i+1] and changes no other byte. |
| FlashModel.ProgramStepKeepsAbove | main.c:54 | A half-word write leaves the bytes above it, where the payload is read, unchanged. |
| FlashModel.EraseFrom | main.c:39-44 | The erase loop returns a FLASH_Status and keeps the flash size. |
| FlashModel.Erasure | main.c:35-47 | erase_firmware returns a FLASH_Status and keeps the flash size. |
| FlashModel.EraseFromCode | main.c:39-46 | The erase loop returns FLASH_COMPLETE iff every remaining page erase completes; otherwise it returns the status of its last call, the first failing erase. |
| FlashModel.EraseOps | main.c:39-40 | The log of `count` page erases has `count` entries. |
| FlashModel.EraseOpsAt | main.c:39-40 | The k-th logged erase targets page i + k with the status of call n + k, so pages go in ascending order. |
| FlashModel.EraseFromLog | main.c:39-44 | The erase loop logs one FLASH_ErasePage per page tried, in ascending order. |
| FlashModel.EraseFromMem | main.c:39-44 | The erase loop erases exactly the pages the controller completed; pages from the failing one on stay untouched. |
| FlashModel.ErasureLog | main.c:35-47 | erase_firmware logs FLASH_Unlock, FLASH_ClearFlag, then at most 48 page erases in ascending order from FIRMWARE_ADDR. |
| FlashModel.ErasureCode | main.c:35-47 | erase_firmware returns FLASH_COMPLETE iff all 48 erases complete, after exactly 48 erases; otherwise it returns the first failing status. |
| FlashModel.ErasureMem | main.c:35-47 | erase_firmware erases a prefix of whole pages, all 48 iff it completed, and leaves the staging region untouched. |
| FlashModel.NextHalfWord | main.c:53 | Each iteration at an even i < len reads data[i] and data[i+1] within the bytes read for len. |
| FlashModel.ReadLengthFits | main.c:53-54 | For a size within the bound, the read range, including the extra byte for an odd size, stays in the staging region. |
| FlashModel.HalfWordsLeft | main.c:53 | The loop makes (ReadLength(len) - i) / 2 more iterations from index i. |
| FlashModel.ProgramFrom | main.c:53-58 | The program loop returns a FLASH_Status and keeps the flash size. |
| FlashModel.ProgramLoopStep | main.c:53-57 | One iteration either returns the failing write's status or leaves the remaining loop, with the source bytes intact. |
| FlashModel.Programming | main.c:49-61 | write_firmware_data returns a FLASH_Status and keeps the flash size. |
| FlashModel.ProgramFromCode | main.c:53-60 | The program loop returns FLASH_COMPLETE iff every remaining write completes; otherwise it returns the status of its last call, the first failing write. |
| FlashModel.ProgramOps | main.c:53-54 | The log of `count` half-word writes has `count` entries. |
| FlashModel.ProgramOpsAt | main.c:53-54 | The k-th logged write puts data[i+2k] \| data[i+2k+1] << 8 at base + i + 2k, in ascending order. |
| FlashModel.ProgramFromLog | main.c:53-58 | The program loop logs one FLASH_ProgramHalfWord per half-word tried, in ascending order. |
| FlashModel.ProgramFromMem | main.c:53-58 | The program loop stores exactly the bytes of the completed half-words and leaves every other byte unchanged. |
| FlashModel.ProgrammingComplete | main.c:49-61 | After a complete run, bytes [offset, offset+len) equal data[0..len); for an odd len the next byte holds data[len]; nothing else changes. |
| FlashModel.ProgrammingLog | main.c:49-61 | write_firmware_data logs FLASH_ClearFlag, then half-word writes at ascending addresses from FIRMWARE_ADDR + offset. |
| FlashModel.ProgrammingCode | main.c:49-61 | write_firmware_data returns FLASH_COMPLETE iff every write completes; otherwise it returns the first failing status. |
| FlashModel.Payload | main.c:76 | The payload has the declared number of bytes. |
| FlashModel.StagedData | main.c:86 | write_firmware_data reads ReadLength(size) staged bytes, and the first `size` of them are the payload. |
| FlashModel.Install | main.c:81-86 | Erase, then program, returns a FLASH_Status and keeps the flash size. |
| FlashModel.Attempt | main.c:63-87 | write_firmware keeps the flash size. |
| FlashModel.InstallSteps | main.c:81-86 | Programming runs only after a completed erase, and it copies the staged bytes as they were before the erase. |
| FlashModel.InstallLog | main.c:81-86 | Unlock, clear and the ascending erases come first; a second clear and the ascending half-word writes follow only if all 48 erases completed. |
| FlashModel.EraseCallsWriteNothing | main.c:35-47 | No logged call of erase_firmware is a half-word write. |
| FlashModel.InstallWritesAfterErase | main.c:81-86 | No half-word is written unless all 48 erases completed, and none before the clear that follows them. |
| FlashModel.InstallWritesAfterCompleteErase | main.c:81-86 | After a complete erase, every half-word write comes after the 48 erases and the clear. |
| FlashModel.InstallWritesNothingAfterFailedErase | main.c:81-84 | After a failed erase, no half-word is written. |
| FlashModel.InstallSuccess | main.c:81-86 | A completed install leaves the payload at primary offset 0, erased bytes after it and the staging region unchanged. |
| FlashModel.InstallPreservesStaging | main.c:81-86 | Whatever the controller reports, installing never changes the staging region. |
| FlashModel.AttemptRejections | main.c:63-87 | -1 iff size is over the bound, -2 iff size is 0, -3 iff the CRC mismatches. These leave the flash and log unchanged. Any other code is a controller status, returned only for a validated image. |
| FlashModel.AttemptWritesAfterErase | main.c:72-86 | No half-word is written unless the image passed the checks and all 48 erases completed, and none before the clear that follows them. |
| FlashModel.AttemptPreservesStaging | main.c:63-87 | write_firmware never changes the staging region, whatever the controller reports. |
| FlashModel.AttemptSuccess | main.c:63-87 | FLASH_COMPLETE comes only from a validated image, which then starts the primary region. |
| FlashModel.InstallCode | main.c:81-86 | Erase then program returns FLASH_COMPLETE iff all 48 erases and then every half-word write complete, after exactly 2 + 48 + 1 + ReadLength(size)/2 library calls. |
| FlashModel.AttemptCompletes | main.c:63-87 | write_firmware returns FLASH_COMPLETE iff the image is validated and the controller completes every erase and every write it is asked for. |
| FlashModel.ReliableControllerInstalls | main.c:63-87 | With a controller that never fails, every validated image is installed: FLASH_COMPLETE, and the payload starts the primary region. |
| FlashModel.StagingDetermines | main.c:64-79 | The header, the payload and the verdict of the checks depend on the staging region alone. |
| Programmer.Flash.constructor | main.c:8-11 | A controller that has made no calls, over the given contents of both regions. |
| Programmer.Flash.FlashUnlock | main.c:36 | FLASH_Unlock is logged and changes no byte. |
| Programmer.Flash.FlashClearFlag | main.c:37 | FLASH_ClearFlag is logged and changes no byte. |
| Programmer.Flash.FlashErasePage | main.c:40 | The array changes as ErasePageStep says: the page is erased only on FLASH_COMPLETE. |
| Programmer.Flash.FlashProgramHalfWord | main.c:54 | The array changes as ProgramStep says: the half-word is stored only on FLASH_COMPLETE. |
| Programmer.Flash.EraseFirmware | main.c:35-47 | The loop over the array returns the status and leaves the flash and log that Erasure specifies. |
| Programmer.Flash.WriteFirmwareData | main.c:49-61 | The loop over the array returns the status and leaves the flash and log that Programming specifies for the bytes read. |
| Programmer.Flash.WriteFirmware | main.c:63-87 | The method returns the code and leaves the flash and log that Attempt specifies. |
| Bootloader.Pulse | main.c:95-112 | No pulse contains a reset. |
| Bootloader.BlinksLength | main.c:95-112 | blink_led(n, p) emits n pulses, none when n < 1. |
| Bootloader.BlinksEvents | main.c:95-112 | blink_led touches only the green and blue pads when positive, and only the red pad otherwise. |
| Bootloader.PadLevelAppend | main.c:95-112 | A pad's level after two event runs is found by replaying them in sequence. |
| Bootloader.PulseLevel | main.c:97-111 | One pulse leaves the pads it uses set and the others as they were. |
| Bootloader.BlinksLeavePadsSet | main.c:95-112 | blink_led leaves every pad it blinks set, and every other pad as it was. |
| Bootloader.SignalsDistinct | main.c:130-147 | Each outcome that resets has a pattern different from every other outcome's and from the give-up pattern. |
| Bootloader.RetriesSnoc | main.c:143 | One more retry appends one retry pattern. |
| Bootloader.RetriesEvents | main.c:143 | Retry patterns blink the red LED only. |
| Bootloader.ResetIsTerminal | main.c:127-148 | Every trace ends with its only reset: nothing happens after a reset. |
| Bootloader.TraceShape | main.c:127-148 | A trace is one retry pattern per failed attempt, then the ending outcome's pattern or the give-up pattern, then the reset. |
| Bootloader.RetriedFirst | main.c:143 | A retried first attempt puts one retry pattern in front of the rest of the trace. |
| Bootloader.GreenInReport | main.c:130-142 | Of all outcome patterns, only FLASH_COMPLETE's blinks green. |
| Bootloader.GreenInEnding | main.c:130-147 | The ending of a trace blinks green iff the run ended on FLASH_COMPLETE. |
| Bootloader.GreenMeansComplete | main.c:127-148 | The green LED blinks during a run iff its last attempt returned FLASH_COMPLETE. |
| Bootloader.BootStep | main.c:127-145 | One loop pass: an outcome that resets ends the trace with its pattern and a reset; any other outcome adds a retry pattern and continues. |
| Bootloader.WriteStepIsAttempt | main.c:128 | Each loop pass is one call of write_firmware on the flash it finds. |
| Bootloader.StoppedAfterRetry | main.c:127-145 | A retried outcome in front of a stopped run gives a stopped run with one more attempt. |
| Bootloader.BootFromCodes | main.c:127-145 | At most five calls; every outcome but the last was retried; all five calls are made iff none ended the loop. |
| Bootloader.WriteStepInstalls | main.c:63-87 | write_firmware keeps the staging region and installs only a validated image. |
| Bootloader.CompleteMeansInstalled | main.c:127-145 | A run never changes the staging region; ending on FLASH_COMPLETE means the image staged at power-up passed the checks and starts the primary region. |
| Bootloader.BootInstalls | main.c:115-148 | The same for the five-attempt run of main. |
| Bootloader.Leds.constructor | main.c:13-21 | The LEDs start with no recorded pad writes. |
| Bootloader.Leds.PalClearPad | main.c:98 | palClearPad appends one clear event. |
| Bootloader.Leds.PalSetPad | main.c:101 | palSetPad appends one set event. |
| Bootloader.Leds.BlinkLed | main.c:95-113 | The loops of blink_led append exactly Blinks(blinks, positive). |
| Bootloader.Leds.ShowOutcome | main.c:130-143 | A resetting outcome appends its pattern and a reset; any other outcome appends the retry pattern. |
| Bootloader.Leds.InitPads | main.c:121-125 | main first sets the red, green and blue pads, turning the LEDs off. |
| Bootloader.Leds.ResetDevice | main.c:25-33 | reset appends the terminal reset event. |
| Bootloader.ContinueTrace | main.c:143-145 | A retry extends both the LED history and the trace still to come by one retry pattern. |
| Bootloader.EndTrace | main.c:130-148 | A resetting outcome, or giving up, completes the LED history as the whole trace. |
| Bootloader.TryOnce | main.c:128-143 | One pass calls write_firmware, then shows its outcome. |
| Bootloader.RunBootloader | main.c:115-148 | main's loop leaves the flash as BootAll specifies, and the LEDs show the initial pad sets and then Trace of the outcomes. |
| Findings.CheckAsWritten | main.c:63-79 | The checks as written reject only with -2 or -3. They accept a size only if it is non-zero and the CRC over the bytes that follow matches, however far those bytes reach. |
| Findings.OversizedImage | main.c:63-79 | The counterexample image: a header declaring 0x18002 bytes with their CRC, and a payload whose last 8 bytes are the bootloader's own first bytes, taken as a parameter. |
| Findings.OversizeAcceptedAsWritten | main.c:63-79 | The as-written checks accept that image although its size exceeds the staging capacity; its CRC read crosses BOOTLOADER_ADDR. |
| Findings.InstallAsWritten | main.c:81-86 | The as-written erase and programming keep the flash size and return a controller status. |
| Findings.InstallAsWrittenWithinBound | main.c:81-86 | For a size within the bound, the as-written erase and programming are exactly the corrected model's Install. |
| Findings.OversizeInstalledAsWritten | main.c:63-86 | As written, with a controller that completes every call, the oversized image is accepted and programmed with 0xC001 half-word writes; the last one is logged at NEW_FW_ADDR and replaces the first two staging-header bytes with bytes 6 and 7 of the bootloader. |
| Findings.OversizeRejected | main.c:68-70 | The corrected checks reject that image with -1 and leave the flash alone. |

## Left out

- `reset`'s watchdog set-up, `__disable_irq` and spin (main.c:25-33) are left out. A reset is the terminal event `Reset`, and the modelled `main` returns at it.
- `sleep` (main.c:89-93) is left out: it is a busy wait with no observable effect beyond timing.
- `SCB->VTOR` and `palSetPadMode` (main.c:117-124) are left out: they are register writes with no logic. The pad sets that follow them are modelled.
- The bodies of `FLASH_Unlock`, `FLASH_ClearFlag`, `FLASH_ErasePage` and `FLASH_ProgramHalfWord` are not part of this model. Each call is logged. Each status comes from the controller script, and the erase or write takes effect exactly when the status is `FLASH_COMPLETE`.
- `crc16` (crc.h) and `utils_parse_uint32/16` (utils.h) are not part of this model. `crc16` is a function parameter, and the byte order of the parse helpers is a parameter.
- Programmer.Flash.WriteFirmwareData: requires the written range to lie below the bytes it reads, as in write_firmware's one call (main.c:86). Overlapping ranges are not modelled.
- Programmer.Flash.FlashErasePage: requires a page address inside the modelled flash. erase_firmware only passes such addresses.
- Bootloader.WriteStep: the branch for a flash of another size is never taken, because every modelled flash has FLASH_SIZE bytes.
- Flash outside `[FIRMWARE_ADDR, BOOTLOADER_ADDR)` is outside the model. The exception is `Findings`, whose as-written check may read beyond it.
- FlashModel.Attempt: uses the corrected size check (see Findings), so every header declaring more than 0x17FFA bytes gets -1. That includes an erased header, which declares 0xFFFFFFFF. As written, the source passes such a size to `crc16` instead. The CRC read then faults or returns -3, or the image is accepted and programmed past the erased pages.
- FlashModel.AttemptRejections: its -1 case is the corrected size check. As written, no header yields -1.
- Programmer.Flash.WriteFirmware: returns -1 for sizes above 0x17FFA, as FlashModel.Attempt does, where the source as written goes on to the CRC read.
- The as-written reads and writes past the staging region are exhibited in `Findings`, not executed by the rest of the model. Findings.InstallAsWritten does not model writes past BOOTLOADER_ADDR: it requires the programmed range to end inside the modelled flash.

## Findings

| source | as written | input that shows it | evidently intended | confidence | as-written member | corrected member |
|---|---|---|---|---|---|---|
| main.c:68-70 | The `size > NEW_FW_MAX_SIZE` check is commented out, so any non-zero size with a matching CRC is accepted. `crc16` then reads `size` bytes from NEW_FW_ADDR + 6, and `write_firmware_data` programs `size` bytes from FIRMWARE_ADDR. | A header declaring 0x18002 bytes, followed by 0x18002 bytes whose CRC it declares. The CRC read ends 8 bytes past BOOTLOADER_ADDR. With every flash call completing, the last of the 0xC001 half-word writes lands at NEW_FW_ADDR, past the 48 erased pages, and overwrites the staging header with two bootloader bytes. | Reject with -1 any size above the staging capacity, 0x18000 - 6 bytes. Then reads stay in the staging region and writes stay below NEW_FW_ADDR. | not executed | Findings.OversizeInstalledAsWritten | FlashModel.AttemptPreservesStaging |
