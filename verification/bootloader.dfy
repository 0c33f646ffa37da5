/**
 * The bootloader's main loop (main.c:115-148) and blink_led (main.c:95-113): up to five
 * update attempts, each outcome reported on the status LEDs, ending in a reset.
 * The LEDs are an event trace of pad writes; a reset is the trace's terminal event.
 */
module Bootloader {
  import opened Layout
  import opened Header
  import opened FlashModel
  import opened Programmer

  /** Number of calls to write_firmware before the bootloader gives up. */
  const MAX_ATTEMPTS: nat := 5
  /** Negative blinks after an attempt that may be retried. */
  const RETRY_BLINKS: nat := 2
  /** Negative blinks before the final reset once every attempt failed. */
  const GIVE_UP_BLINKS: nat := 8

  /** The red, green and blue LED pads (main.c:13-21). */
  datatype Pad = Red | Green | Blue

  /** palClearPad, palSetPad, and the reset that ends the bootloader. */
  datatype Event = PadClear(pad: Pad) | PadSet(pad: Pad) | Reset

  // ---------------------------------------------------------------------------
  // blink_led (main.c:95-113)

  /** One iteration of blink_led: green and blue together when positive, red otherwise. */
  function Pulse(positive: bool): (p: seq<Event>)
    ensures Reset !in p
  {
    if positive then [PadClear(Green), PadClear(Blue), PadSet(Green), PadSet(Blue)]
    else [PadClear(Red), PadSet(Red)]
  }

  /** The events of blink_led(blinks, positive); a count below one gives no pulse. */
  function Blinks(blinks: int, positive: bool): (e: seq<Event>)
    decreases blinks
  {
    if blinks <= 0 then [] else Blinks(blinks - 1, positive) + Pulse(positive)
  }

  /** blink_led emits `blinks` pulses and nothing else. */
  lemma {:induction false} BlinksLength(blinks: int, positive: bool)
    ensures |Blinks(blinks, positive)| == if blinks <= 0 then 0 else blinks * |Pulse(positive)|
    decreases blinks
  {
    if blinks > 0 {
      BlinksLength(blinks - 1, positive);
    }
  }

  /** Every event of blink_led belongs to the pulse of its polarity: red only, or green and blue only. */
  lemma {:induction false} BlinksEvents(blinks: int, positive: bool)
    ensures forall e :: e in Blinks(blinks, positive) ==> e in Pulse(positive)
    decreases blinks
  {
    if blinks > 0 {
      BlinksEvents(blinks - 1, positive);
    }
  }

  /** The level a pad is left at by the events, from `level` before them (true: set). */
  function PadLevel(events: seq<Event>, pad: Pad, level: bool): bool
  {
    if events == [] then level
    else PadLevel(events[1..], pad, After(events[0], pad, level))
  }

  /** The level a single pad write leaves, from `level` before it. */
  function After(e: Event, pad: Pad, level: bool): bool
  {
    if e == PadSet(pad) then true else if e == PadClear(pad) then false else level
  }

  lemma {:induction false} PadLevelAppend(a: seq<Event>, b: seq<Event>, pad: Pad, level: bool)
    ensures PadLevel(a + b, pad, level) == PadLevel(b, pad, PadLevel(a, pad, level))
  {
    if a != [] {
      var next := After(a[0], pad, level);
      assert (a + b)[0] == a[0] && (a + b)[1..] == a[1..] + b;
      assert PadLevel(a + b, pad, level) == PadLevel(a[1..] + b, pad, next);
      PadLevelAppend(a[1..], b, pad, next);
    } else {
      assert a + b == b;
    }
  }

  /** One pulse ends with every pad it uses set, and leaves the others alone. */
  lemma PulseLevel(positive: bool, pad: Pad, level: bool)
    ensures PadLevel(Pulse(positive), pad, level) == if PadSet(pad) in Pulse(positive) then true else level
  {
    var p := Pulse(positive);
    var l1 := After(p[0], pad, level);
    var l2 := After(p[1], pad, l1);
    assert PadLevel(p, pad, level) == PadLevel(p[1..], pad, l1);
    assert PadLevel(p[1..], pad, l1) == PadLevel(p[2..], pad, l2);
    if positive {
      var l3 := After(p[2], pad, l2);
      assert PadLevel(p[2..], pad, l2) == PadLevel(p[3..], pad, l3);
      assert PadLevel(p[3..], pad, l3) == After(p[3], pad, l3);
    } else {
      assert PadLevel(p[2..], pad, l2) == l2;
    }
  }

  /** blink_led leaves every pad it blinks set, and every other pad as it was. */
  lemma {:induction false} BlinksLeavePadsSet(blinks: int, positive: bool, pad: Pad, level: bool)
    ensures PadLevel(Blinks(blinks, positive), pad, level) ==
            if blinks > 0 && PadSet(pad) in Pulse(positive) then true else level
    decreases blinks
  {
    if blinks > 0 {
      BlinksLeavePadsSet(blinks - 1, positive, pad, level);
      PadLevelAppend(Blinks(blinks - 1, positive), Pulse(positive), pad, level);
      PulseLevel(positive, pad, PadLevel(Blinks(blinks - 1, positive), pad, level));
    }
  }

  // ---------------------------------------------------------------------------
  // The attempt loop of main (main.c:127-148)

  /** write_firmware outcomes after which main resets at once (main.c:130-142). */
  predicate IsTerminal(code: int)
  {
    code == -1 || code == -2 || code == -3 || code == FLASH_COMPLETE
  }

  /** The blink_led arguments main uses to report an outcome: (blinks, positive). */
  function Signal(code: int): (r: (nat, bool))
  {
    if code == -1 then (3, false)
    else if code == -2 then (4, false)
    else if code == -3 then (5, false)
    else if code == FLASH_COMPLETE then (3, true)
    else (RETRY_BLINKS, false)
  }

  /** The blink pattern shown for an outcome. */
  function Report(code: int): (e: seq<Event>)
  {
    Blinks(Signal(code).0, Signal(code).1)
  }

  /** The blink pattern shown before the final reset once every attempt failed. */
  function GiveUp(): (e: seq<Event>)
  {
    Blinks(GIVE_UP_BLINKS, false)
  }

  /**
   * Each outcome that ends the bootloader has a pattern of its own, unlike the
   * retry pattern shared by every controller failure and unlike the give-up pattern.
   */
  lemma SignalsDistinct(c1: int, c2: int)
    requires IsTerminal(c1) && c1 != c2
    ensures Report(c1) != Report(c2) && Report(c1) != GiveUp()
  {
    BlinksLength(Signal(c1).0, Signal(c1).1);
    BlinksLength(Signal(c2).0, Signal(c2).1);
    BlinksLength(GIVE_UP_BLINKS, false);
  }

  /** The blink pattern shown after an attempt that may be retried. */
  function Retry(): (e: seq<Event>)
  {
    Blinks(RETRY_BLINKS, false)
  }

  /** The retry pattern `n` times over. */
  function Retries(n: nat): (e: seq<Event>)
  {
    if n == 0 then [] else Retry() + Retries(n - 1)
  }

  lemma {:induction false} RetriesSnoc(n: nat)
    ensures Retries(n) + Retry() == Retries(n + 1)
  {
    if n > 0 {
      RetriesSnoc(n - 1);
      Regroup(Retry(), Retries(n - 1), Retry());
    }
  }

  lemma {:induction false} RetriesEvents(n: nat)
    ensures forall e :: e in Retries(n) ==> e in Pulse(false)
  {
    BlinksEvents(RETRY_BLINKS, false);
    if n > 0 {
      RetriesEvents(n - 1);
    }
  }

  /**
   * The LED trace of a run whose attempts returned `codes`, from the first on: each
   * outcome's pattern, a reset after the first outcome that ends the run, or the
   * give-up pattern and a reset once the codes run out.
   */
  function Trace(codes: seq<int>): (e: seq<Event>)
  {
    if codes == [] then GiveUp() + [Reset]
    else if IsTerminal(codes[0]) then Report(codes[0]) + [Reset]
    else Report(codes[0]) + Trace(codes[1..])
  }

  /** Whatever the outcomes, the trace ends with its one reset: nothing happens after a reset. */
  lemma {:induction false} ResetIsTerminal(codes: seq<int>)
    ensures var e := Trace(codes);
            |e| > 0 && e[|e| - 1] == Reset && Reset !in e[..|e| - 1]
  {
    var e := Trace(codes);
    if codes == [] || IsTerminal(codes[0]) {
      var pattern := if codes == [] then GiveUp() else Report(codes[0]);
      assert e[..|e| - 1] == pattern;
      BlinksEvents(GIVE_UP_BLINKS, false);
      if codes != [] {
        BlinksEvents(Signal(codes[0]).0, Signal(codes[0]).1);
      }
    } else {
      var rest := Trace(codes[1..]);
      ResetIsTerminal(codes[1..]);
      BlinksEvents(RETRY_BLINKS, false);
      assert e[..|e| - 1] == Report(codes[0]) + rest[..|rest| - 1];
    }
  }

  /** The attempts of the run that failed and were retried. */
  function Failures(codes: seq<int>): (n: nat)
  {
    if Decided(codes) then |codes| - 1 else |codes|
  }

  /** How the trace ends: the pattern of the outcome that ended the run, or the give-up pattern, then the reset. */
  function Ending(codes: seq<int>): (e: seq<Event>)
  {
    if Decided(codes) then Report(codes[|codes| - 1]) + [Reset] else GiveUp() + [Reset]
  }

  /**
   * When only the last outcome may end the run, as BootFromCodes shows of every run,
   * the trace is one retry pattern per failed attempt and then its ending.
   */
  lemma {:induction false} TraceShape(codes: seq<int>)
    requires forall k :: 0 <= k < |codes| - 1 ==> !IsTerminal(codes[k])
    ensures Trace(codes) == Retries(Failures(codes)) + Ending(codes)
  {
    if codes != [] && !IsTerminal(codes[0]) {
      var rest := codes[1..];
      TraceShape(rest);
      RetriedFirst(codes);
      Regroup(Retry(), Retries(Failures(rest)), Ending(rest));
    }
  }

  /** A retried first attempt adds one retry pattern in front of the rest of the trace. */
  lemma RetriedFirst(codes: seq<int>)
    requires codes != [] && !IsTerminal(codes[0])
    ensures Trace(codes) == Retry() + Trace(codes[1..])
    ensures Ending(codes) == Ending(codes[1..])
    ensures Retries(Failures(codes)) == Retry() + Retries(Failures(codes[1..]))
  {
    var rest := codes[1..];
    assert Decided(codes) == Decided(rest);
    if Decided(rest) {
      assert codes[|codes| - 1] == rest[|rest| - 1];
    }
  }

  /** Of all the patterns, only the one for FLASH_COMPLETE blinks green. */
  lemma GreenInReport(code: int)
    ensures PadClear(Green) in Report(code) <==> code == FLASH_COMPLETE
  {
    BlinksEvents(Signal(code).0, Signal(code).1);
    if code == FLASH_COMPLETE {
      assert Report(code) == Blinks(2, true) + Pulse(true);
    }
  }

  lemma GreenInEnding(codes: seq<int>)
    ensures PadClear(Green) in Ending(codes) <==> Decided(codes) && codes[|codes| - 1] == FLASH_COMPLETE
  {
    if Decided(codes) {
      GreenInReport(codes[|codes| - 1]);
    } else {
      BlinksEvents(GIVE_UP_BLINKS, false);
    }
  }

  /** The green LED blinks exactly when the run ended on a completed installation. */
  lemma GreenMeansComplete(codes: seq<int>)
    requires forall k :: 0 <= k < |codes| - 1 ==> !IsTerminal(codes[k])
    ensures PadClear(Green) in Trace(codes) <==> Decided(codes) && codes[|codes| - 1] == FLASH_COMPLETE
  {
    TraceShape(codes);
    RetriesEvents(Failures(codes));
    GreenInEnding(codes);
  }

  /** What a run of the bootloader does to the flash, and the outcome of each attempt it made. */
  datatype Boot = Boot(flash: FlashState, codes: seq<int>)

  /** The run ended on an outcome of write_firmware rather than on giving up. */
  predicate Decided(codes: seq<int>)
  {
    |codes| > 0 && IsTerminal(codes[|codes| - 1])
  }

  /**
   * One call of write_firmware as a step on the flash it finds. Every flash of the
   * model has FLASH_SIZE bytes, so the second branch is never taken.
   */
  function WriteStep(script: Script, crc16: seq<byte> -> u16, order: ByteOrder): FlashState -> Run
  {
    (s: FlashState) => if |s.mem| == FLASH_SIZE then Attempt(s, script, crc16, order) else Run(FLASH_ERROR_PROGRAM, s)
  }

  /** The attempt loop with `left` attempts still to make, each one a call of `step`. */
  function BootFrom(s: FlashState, step: FlashState -> Run, left: nat): (b: Boot)
    // `left` alone ends the recursion; |s.log| is there only so that Dafny does not unroll
    // the five literal attempts when it meets a call with a constant `left`.
    decreases left, |s.log|
  {
    if left == 0 then Boot(s, [])
    else
      var a := step(s);
      if IsTerminal(a.code) then Boot(a.flash, [a.code])
      else
        var b := BootFrom(a.flash, step, left - 1);
        Boot(b.flash, [a.code] + b.codes)
  }

  /** One attempt of BootFrom: a terminal outcome ends the trace, any other outcome is a retry. */
  lemma BootStep(s: FlashState, step: FlashState -> Run, left: nat, code: int, t: FlashState, b: Boot)
    requires left > 0 && step(s) == Run(code, t) && b == BootFrom(s, step, left)
    ensures IsTerminal(code) ==> b.flash == t && Trace(b.codes) == Report(code) + [Reset]
    ensures !IsTerminal(code) ==>
              b.flash == BootFrom(t, step, left - 1).flash &&
              Trace(b.codes) == Retry() + Trace(BootFrom(t, step, left - 1).codes)
  {
    if !IsTerminal(code) {
      assert b.codes[1..] == BootFrom(t, step, left - 1).codes;
      RetriedFirst(b.codes);
    }
  }

  /** On a flash of the modelled size one step of the boot is one update attempt. */
  lemma WriteStepIsAttempt(s: FlashState, script: Script, crc16: seq<byte> -> u16, order: ByteOrder)
    requires |s.mem| == FLASH_SIZE
    ensures WriteStep(script, crc16, order)(s) == Attempt(s, script, crc16, order)
  {
  }

  /** A whole run of the bootloader over the flash as found at power-up. */
  function BootAll(s: FlashState, script: Script, crc16: seq<byte> -> u16, order: ByteOrder): (b: Boot)
  {
    BootFrom(s, WriteStep(script, crc16, order), MAX_ATTEMPTS)
  }

  /**
   * Outcomes of a loop with `left` attempts to make: at most `left` of them, every one
   * but the last retried, and all `left` made when none ended the run.
   */
  predicate Stopped(codes: seq<int>, left: nat)
  {
    && |codes| <= left
    && (forall k :: 0 <= k < |codes| - 1 ==> !IsTerminal(codes[k]))
    && (!Decided(codes) ==> |codes| == left)
  }

  /** A retried outcome in front of a run stopped with `left` attempts gives a run stopped with one more. */
  lemma StoppedAfterRetry(code: int, codes: seq<int>, left: nat)
    requires !IsTerminal(code) && Stopped(codes, left)
    ensures Stopped([code] + codes, left + 1)
  {
    var all := [code] + codes;
    assert Decided(all) == Decided(codes);
    forall k | 0 <= k < |all| - 1
      ensures !IsTerminal(all[k])
    {
      if k > 0 {
        assert all[k] == codes[k - 1];
      }
    }
  }

  /**
   * The loop calls write_firmware at most once per remaining attempt and stops at the
   * first outcome that ends it; it runs out of attempts only when none did.
   */
  lemma {:induction false} BootFromCodes(s: FlashState, step: FlashState -> Run, left: nat)
    ensures Stopped(BootFrom(s, step, left).codes, left)
    decreases left
  {
    if left > 0 {
      var a := step(s);
      if !IsTerminal(a.code) {
        BootFromCodes(a.flash, step, left - 1);
        StoppedAfterRetry(a.code, BootFrom(a.flash, step, left - 1).codes, left - 1);
      }
    }
  }

  /** The flash has the modelled size. */
  predicate Sized(t: FlashState)
  {
    |t.mem| == FLASH_SIZE
  }

  /** A step that never changes the staging region, nor the size of the flash. */
  ghost predicate KeepsStaging(step: FlashState -> Run)
  {
    forall t: FlashState {:trigger Sized(t)} :: Sized(t) ==>
      |step(t).flash.mem| == FLASH_SIZE && step(t).flash.mem[STAGING_OFFSET..] == t.mem[STAGING_OFFSET..]
  }

  /** A step that reports FLASH_COMPLETE only after installing a validated staged image. */
  ghost predicate InstallsOnComplete(step: FlashState -> Run, crc16: seq<byte> -> u16, order: ByteOrder)
  {
    forall t: FlashState {:trigger Sized(t)} :: Sized(t) && step(t).code == FLASH_COMPLETE ==>
      && |step(t).flash.mem| == FLASH_SIZE
      && Validated(t, crc16, order)
      && step(t).flash.mem[..StagedHeader(t, order).size] == Payload(t, StagedHeader(t, order).size)
  }

  /** write_firmware is such a step. */
  lemma WriteStepInstalls(script: Script, crc16: seq<byte> -> u16, order: ByteOrder)
    ensures KeepsStaging(WriteStep(script, crc16, order))
    ensures InstallsOnComplete(WriteStep(script, crc16, order), crc16, order)
  {
    var step := WriteStep(script, crc16, order);
    forall t: FlashState | Sized(t)
      ensures |step(t).flash.mem| == FLASH_SIZE && step(t).flash.mem[STAGING_OFFSET..] == t.mem[STAGING_OFFSET..]
    {
      AttemptPreservesStaging(t, script, crc16, order);
    }
    forall t: FlashState | Sized(t) && step(t).code == FLASH_COMPLETE
      ensures && Validated(t, crc16, order)
              && step(t).flash.mem[..StagedHeader(t, order).size] == Payload(t, StagedHeader(t, order).size)
    {
      AttemptSuccess(t, script, crc16, order);
    }
  }

  /**
   * A run of such steps never changes the staging region, and a run that ends on
   * FLASH_COMPLETE has installed the image staged at power-up: its header passed the
   * checks and the primary region starts with its payload.
   */
  lemma {:induction false} CompleteMeansInstalled(s: FlashState, step: FlashState -> Run, crc16: seq<byte> -> u16, order: ByteOrder, left: nat)
    requires |s.mem| == FLASH_SIZE
    requires KeepsStaging(step) && InstallsOnComplete(step, crc16, order)
    ensures var b := BootFrom(s, step, left);
            && |b.flash.mem| == FLASH_SIZE
            && b.flash.mem[STAGING_OFFSET..] == s.mem[STAGING_OFFSET..]
            && (Decided(b.codes) && b.codes[|b.codes| - 1] == FLASH_COMPLETE ==>
                  && Validated(s, crc16, order)
                  && b.flash.mem[..StagedHeader(s, order).size] == Payload(s, StagedHeader(s, order).size))
    decreases left
  {
    if left > 0 {
      var a := step(s);
      assert Sized(s);
      if !IsTerminal(a.code) {
        CompleteMeansInstalled(a.flash, step, crc16, order, left - 1);
        StagingDetermines(a.flash, s, crc16, order);
      }
    }
  }

  /** The whole run of the bootloader, with write_firmware as its step. */
  lemma BootInstalls(s: FlashState, script: Script, crc16: seq<byte> -> u16, order: ByteOrder)
    requires |s.mem| == FLASH_SIZE
    ensures var b := BootAll(s, script, crc16, order);
            && |b.flash.mem| == FLASH_SIZE
            && b.flash.mem[STAGING_OFFSET..] == s.mem[STAGING_OFFSET..]
            && (Decided(b.codes) && b.codes[|b.codes| - 1] == FLASH_COMPLETE ==>
                  && Validated(s, crc16, order)
                  && b.flash.mem[..StagedHeader(s, order).size] == Payload(s, StagedHeader(s, order).size))
  {
    WriteStepInstalls(script, crc16, order);
    CompleteMeansInstalled(s, WriteStep(script, crc16, order), crc16, order, MAX_ATTEMPTS);
  }

  // ---------------------------------------------------------------------------
  // The LEDs and main

  /** The status LEDs, seen as the trace of pad writes made to them. */
  class Leds {
    var events: seq<Event>

    constructor ()
      ensures events == []
    {
      events := [];
    }

    /** palClearPad. */
    method PalClearPad(pad: Pad)
      modifies this
      ensures events == old(events) + [PadClear(pad)]
    {
      events := events + [PadClear(pad)];
    }

    /** palSetPad. */
    method PalSetPad(pad: Pad)
      modifies this
      ensures events == old(events) + [PadSet(pad)]
    {
      events := events + [PadSet(pad)];
    }

    /** blink_led: `blinks` pulses of the green and blue LEDs together, or of the red one. */
    method BlinkLed(blinks: int, positive: bool)
      modifies this
      ensures events == old(events) + Blinks(blinks, positive)
    {
      var i := 0;
      while i < blinks
        invariant i <= blinks || i == 0
        invariant events == old(events) + Blinks(i, positive)
      {
        if positive {
          PalClearPad(Green);
          PalClearPad(Blue);
          PalSetPad(Green);
          PalSetPad(Blue);
        } else {
          PalClearPad(Red);
          PalSetPad(Red);
        }
        i := i + 1;
      }
    }

    /**
     * main's answer to one outcome of write_firmware: a terminal outcome blinks its
     * own pattern and resets the device, any other outcome blinks the retry pattern.
     */
    method ShowOutcome(res: int)
      modifies this
      ensures IsTerminal(res) ==> events == old(events) + Report(res) + [Reset]
      ensures !IsTerminal(res) ==> events == old(events) + Retry()
    {
      if res == -1 {
        BlinkLed(3, false);
        ResetDevice();
      } else if res == -2 {
        BlinkLed(4, false);
        ResetDevice();
      } else if res == -3 {
        BlinkLed(5, false);
        ResetDevice();
      } else if res == FLASH_COMPLETE {
        BlinkLed(3, true);
        ResetDevice();
      } else {
        BlinkLed(RETRY_BLINKS, false);
      }
    }

    /** main's set-up: each LED pin driven high, which turns its LED off. */
    method InitPads()
      modifies this
      ensures events == old(events) + PowerOn()
    {
      PalSetPad(Red);
      PalSetPad(Green);
      PalSetPad(Blue);
      assert events == old(events) + PowerOn();
    }

    /** reset: the watchdog restarts the device; nothing of this run happens afterwards. */
    method ResetDevice()
      modifies this
      ensures events == old(events) + [Reset]
    {
      events := events + [Reset];
    }
  }

  /** main drives all three LEDs high (off) before the first attempt. */
  function PowerOn(): (e: seq<Event>)
  {
    [PadSet(Red), PadSet(Green), PadSet(Blue)]
  }

  /** A retry extends the LEDs' history and the trace still to come by one retry pattern. */
  lemma ContinueTrace(events: seq<Event>, shown: seq<Event>, i: nat, all: seq<int>, before: seq<int>, after: seq<int>)
    requires events == shown + Retries(i) + Retry()
    requires Trace(all) == Retries(i) + Trace(before)
    requires Trace(before) == Retry() + Trace(after)
    ensures events == shown + Retries(i + 1)
    ensures Trace(all) == Retries(i + 1) + Trace(after)
  {
    RetriesSnoc(i);
    Regroup(shown, Retries(i), Retry());
    Regroup(Retries(i), Retry(), Trace(after));
  }

  /** A terminal outcome, or giving up, completes the trace with its pattern and the reset. */
  lemma EndTrace(events: seq<Event>, shown: seq<Event>, i: nat, all: seq<int>, before: seq<int>, last: seq<Event>)
    requires Trace(all) == Retries(i) + Trace(before)
    requires Trace(before) == last + [Reset]
    requires events == shown + Retries(i) + last + [Reset]
    ensures events == shown + Trace(all)
  {
    Regroup(shown + Retries(i), last, [Reset]);
    Regroup(shown, Retries(i), last + [Reset]);
  }

  /** One pass of main's loop: an update attempt, then the LEDs report its outcome. */
  method TryOnce(flash: Flash, leds: Leds, crc16: seq<byte> -> u16, order: ByteOrder) returns (res: int)
    requires flash.Valid()
    modifies flash, flash.mem, leds
    ensures flash.Valid()
    ensures Run(res, flash.State()) == WriteStep(flash.script, crc16, order)(old(flash.State()))
    ensures IsTerminal(res) ==> leds.events == old(leds.events) + Report(res) + [Reset]
    ensures !IsTerminal(res) ==> leds.events == old(leds.events) + Retry()
  {
    ghost var before := flash.State();
    res := flash.WriteFirmware(crc16, order);
    WriteStepIsAttempt(before, flash.script, crc16, order);
    leds.ShowOutcome(res);
  }

  /**
   * main's attempt loop: call write_firmware up to five times, report each outcome on
   * the LEDs, reset on the first outcome that ends the loop or after the last attempt.
   */
  method RunBootloader(flash: Flash, leds: Leds, crc16: seq<byte> -> u16, order: ByteOrder)
    requires flash.Valid()
    modifies flash, flash.mem, leds
    ensures flash.Valid()
    ensures flash.State() == BootAll(old(flash.State()), flash.script, crc16, order).flash
    ensures leds.events == old(leds.events) + PowerOn() + Trace(BootAll(old(flash.State()), flash.script, crc16, order).codes)
  {
    ghost var step := WriteStep(flash.script, crc16, order);
    ghost var goal := BootAll(flash.State(), flash.script, crc16, order);
    leds.InitPads();
    ghost var shown := leds.events;
    ghost var rest := goal;
    ghost var left := MAX_ATTEMPTS;
    var i: nat := 0;
    while i < MAX_ATTEMPTS
      invariant flash.Valid() && i <= MAX_ATTEMPTS && left == MAX_ATTEMPTS - i
      invariant rest == BootFrom(flash.State(), step, left)
      invariant leds.events == shown + Retries(i)
      invariant Trace(goal.codes) == Retries(i) + Trace(rest.codes)
      invariant goal.flash == rest.flash
    {
      ghost var before := flash.State();
      var res := TryOnce(flash, leds, crc16, order);
      BootStep(before, step, left, res, flash.State(), rest);
      if IsTerminal(res) {
        EndTrace(leds.events, shown, i, goal.codes, rest.codes, Report(res));
        return;
      }
      ghost var next := BootFrom(flash.State(), step, left - 1);
      ContinueTrace(leds.events, shown, i, goal.codes, rest.codes, next.codes);
      left, rest := left - 1, next;
      i := i + 1;
    }
    leds.BlinkLed(GIVE_UP_BLINKS, false);
    leds.ResetDevice();
    EndTrace(leds.events, shown, i, goal.codes, rest.codes, GiveUp());
  }
}
