/**
  The definitions of lib/inc/lcd_i2c.hpp.
  Constants of the controller and the expander wiring, the raw shadow record
  the driver keeps (`LcdStatus`), and an abstract reading of that record
  (`Shadow`) in terms of the features it controls.
 */
module LcdDefs {

  /* Instruction codes: the highest set bit selects the instruction. */
  const NoCommand: bv8 := 0x00
  const InstrClearDisplay: bv8 := 0x01
  const InstrReturnHome: bv8 := 0x02
  const InstrEntryModeSet: bv8 := 0x04
  const InstrDisplayControl: bv8 := 0x08
  const InstrDisplayShift: bv8 := 0x10
  const InstrFunctionSet: bv8 := 0x20
  const InstrSetCgramAddress: bv8 := 0x40
  const InstrSetDdramAddress: bv8 := 0x80

  /* Entry-mode options. */
  const FlagEntryDecrement: bv8 := 0x00
  const FlagEntryNoShift: bv8 := 0x00
  const FlagEntryShift: bv8 := 0x01
  const FlagEntryIncrement: bv8 := 0x02

  /* Display on/off control options. */
  const FlagDisplayOff: bv8 := 0x00
  const FlagCursorOff: bv8 := 0x00
  const FlagBlinkOff: bv8 := 0x00
  const FlagBlinkOn: bv8 := 0x01
  const FlagCursorOn: bv8 := 0x02
  const FlagDisplayOn: bv8 := 0x04

  /* Cursor/display shift options. */
  const FlagShiftCursor: bv8 := 0x00
  const FlagShiftLeft: bv8 := 0x00
  const FlagShiftRight: bv8 := 0x04
  const FlagShiftDisplay: bv8 := 0x08

  /* Function-set options. */
  const FlagFont5x8: bv8 := 0x00
  const FlagOneLine: bv8 := 0x00
  const FlagFourBitBus: bv8 := 0x00
  const FlagFont5x11: bv8 := 0x04
  const FlagTwoLine: bv8 := 0x08
  const FlagEightBitBus: bv8 := 0x10

  /* Expander output lines wired to the controller and the backlight. */
  const RsBit: bv8 := 0x01
  const RwBit: bv8 := 0x02
  const EnableBit: bv8 := 0x04
  const FlagBacklightOn: bv8 := 0x08
  const FlagBacklightOff: bv8 := 0x00

  /** Exactly one bit of `b` is set. */
  predicate SingleBit(b: bv8) {
    b != 0 && b & (b - 1) == 0
  }

  /** The high nibble of a byte, where a transfer carries its data bits. */
  function HighNibble(b: bv8): bv8 {
    b & 0xF0
  }

  /** Configuration handed to the driver; only the transport reads the first two fields. */
  datatype LcdConfig = LcdConfig(devicePath: string, slaveAddr: bv8, lines: bv8, columns: bv8)

  /** The driver's shadow of the controller registers (`lcd_status_t`), one byte per field. */
  datatype LcdStatus = LcdStatus(
    screen: bv8,
    cursor: bv8,
    blink: bv8,
    entryCounter: bv8,
    entryShift: bv8,
    shiftMode: bv8,
    shiftDirection: bv8,
    backlight: bv8)

  /** A backlight byte is one of the two values the driver ever stores. */
  predicate BacklightValue(b: bv8) {
    b == FlagBacklightOn || b == FlagBacklightOff
  }

  /** A field holds its "off" constant or its "on" flag and nothing else. */
  predicate TwoValued(x: bv8, off: bv8, on: bv8) {
    x == off || x == on
  }

  /** Every shadow field holds either its "off" constant or its single flag. */
  predicate Valid(s: LcdStatus) {
    && TwoValued(s.screen, FlagDisplayOff, FlagDisplayOn)
    && TwoValued(s.cursor, FlagCursorOff, FlagCursorOn)
    && TwoValued(s.blink, FlagBlinkOff, FlagBlinkOn)
    && TwoValued(s.entryCounter, FlagEntryDecrement, FlagEntryIncrement)
    && TwoValued(s.entryShift, FlagEntryNoShift, FlagEntryShift)
    && TwoValued(s.shiftMode, FlagShiftCursor, FlagShiftDisplay)
    && TwoValued(s.shiftDirection, FlagShiftLeft, FlagShiftRight)
    && BacklightValue(s.backlight)
  }

  /** What the shadow says about each feature the controller and the backlight line offer. */
  datatype Shadow = Shadow(
    displayOn: bool,
    cursorOn: bool,
    blinkOn: bool,
    increment: bool,
    autoShift: bool,
    shiftDisplay: bool,
    shiftRight: bool,
    backlightOn: bool)

  /** Reads each feature off the bit the controller (or the backlight line) sees. */
  function View(s: LcdStatus): Shadow {
    Shadow(
      displayOn := s.screen & FlagDisplayOn != 0,
      cursorOn := s.cursor & FlagCursorOn != 0,
      blinkOn := s.blink & FlagBlinkOn != 0,
      increment := s.entryCounter & FlagEntryIncrement != 0,
      autoShift := s.entryShift & FlagEntryShift != 0,
      shiftDisplay := s.shiftMode & FlagShiftDisplay != 0,
      shiftRight := s.shiftDirection & FlagShiftRight != 0,
      backlightOn := s.backlight & FlagBacklightOn != 0)
  }

  /** The shadow record the driver would hold for the features `v`. */
  function Concrete(v: Shadow): (s: LcdStatus)
    ensures Valid(s)
    ensures View(s) == v
  {
    LcdStatus(
      screen := if v.displayOn then FlagDisplayOn else FlagDisplayOff,
      cursor := if v.cursorOn then FlagCursorOn else FlagCursorOff,
      blink := if v.blinkOn then FlagBlinkOn else FlagBlinkOff,
      entryCounter := if v.increment then FlagEntryIncrement else FlagEntryDecrement,
      entryShift := if v.autoShift then FlagEntryShift else FlagEntryNoShift,
      shiftMode := if v.shiftDisplay then FlagShiftDisplay else FlagShiftCursor,
      shiftDirection := if v.shiftRight then FlagShiftRight else FlagShiftLeft,
      backlight := if v.backlightOn then FlagBacklightOn else FlagBacklightOff)
  }

  /** On valid records the abstract reading loses nothing. */
  lemma ConcreteOfView(s: LcdStatus)
    requires Valid(s)
    ensures Concrete(View(s)) == s
  {
  }

  /** The DISPLAY_CONTROL instruction byte that selects the features of `v`. */
  function DisplayControlByte(v: Shadow): (b: bv8)
    ensures HighNibble(b) == 0 && b & 0x08 == InstrDisplayControl
    ensures (b & FlagDisplayOn != 0) == v.displayOn
    ensures (b & FlagCursorOn != 0) == v.cursorOn
    ensures (b & FlagBlinkOn != 0) == v.blinkOn
  {
    InstrDisplayControl
    | (if v.displayOn then FlagDisplayOn else FlagDisplayOff)
    | (if v.cursorOn then FlagCursorOn else FlagCursorOff)
    | (if v.blinkOn then FlagBlinkOn else FlagBlinkOff)
  }

  /** The cursor/display SHIFT instruction byte that selects the shift of `v`. */
  function ShiftByte(v: Shadow): (b: bv8)
    ensures b in {0x10, 0x14, 0x18, 0x1C}
    ensures (b & FlagShiftDisplay != 0) == v.shiftDisplay
    ensures (b & FlagShiftRight != 0) == v.shiftRight
  {
    InstrDisplayShift
    | (if v.shiftDisplay then FlagShiftDisplay else FlagShiftCursor)
    | (if v.shiftRight then FlagShiftRight else FlagShiftLeft)
  }

  /** The expander lines are distinct single bits in the low nibble, so a nibble in bits 4-7 never touches them. */
  lemma BusBitsSeparate(n: bv8)
    ensures SingleBit(RsBit) && SingleBit(RwBit) && SingleBit(EnableBit) && SingleBit(FlagBacklightOn)
    ensures RsBit & RwBit == 0 && RsBit & EnableBit == 0 && RsBit & FlagBacklightOn == 0
    ensures RwBit & EnableBit == 0 && RwBit & FlagBacklightOn == 0 && EnableBit & FlagBacklightOn == 0
    ensures HighNibble(RsBit | RwBit | EnableBit | FlagBacklightOn) == 0
    ensures HighNibble(n) & (RsBit | RwBit | EnableBit | FlagBacklightOn) == 0
  {
  }

  /** Every instruction code is one bit, and no two share it. */
  lemma InstructionCodesDistinctBits()
    ensures SingleBit(InstrClearDisplay) && SingleBit(InstrReturnHome) && SingleBit(InstrEntryModeSet)
    ensures SingleBit(InstrDisplayControl) && SingleBit(InstrDisplayShift) && SingleBit(InstrFunctionSet)
    ensures SingleBit(InstrSetCgramAddress) && SingleBit(InstrSetDdramAddress)
    ensures |{InstrClearDisplay, InstrReturnHome, InstrEntryModeSet, InstrDisplayControl,
              InstrDisplayShift, InstrFunctionSet, InstrSetCgramAddress, InstrSetDdramAddress}| == 8
  {
  }

  /** Two feature sets that agree on display, cursor and blink select the same DISPLAY_CONTROL byte, and only those. */
  lemma DisplayControlDecodesUniquely(v: Shadow, w: Shadow)
    ensures DisplayControlByte(v) == DisplayControlByte(w)
        <==> (v.displayOn == w.displayOn && v.cursorOn == w.cursorOn && v.blinkOn == w.blinkOn)
  {
    var bv, bw := DisplayControlByte(v), DisplayControlByte(w);
    if bv == bw {
      assert bv & FlagDisplayOn == bw & FlagDisplayOn;
      assert bv & FlagCursorOn == bw & FlagCursorOn;
      assert bv & FlagBlinkOn == bw & FlagBlinkOn;
    }
  }

  /** Two feature sets select the same SHIFT byte exactly when they agree on scope and direction. */
  lemma ShiftDecodesUniquely(v: Shadow, w: Shadow)
    ensures ShiftByte(v) == ShiftByte(w) <==> (v.shiftDisplay == w.shiftDisplay && v.shiftRight == w.shiftRight)
  {
    var bv, bw := ShiftByte(v), ShiftByte(w);
    if bv == bw {
      assert bv & FlagShiftDisplay == bw & FlagShiftDisplay;
      assert bv & FlagShiftRight == bw & FlagShiftRight;
    }
  }

  /** The option flags of each instruction stay below its code, so the values issued at start-up keep their instruction bit. */
  lemma OptionFlagsBelowInstruction()
    ensures (FlagEntryShift | FlagEntryIncrement) < InstrEntryModeSet
    ensures (FlagBlinkOn | FlagCursorOn | FlagDisplayOn) < InstrDisplayControl
    ensures (FlagShiftRight | FlagShiftDisplay) < InstrDisplayShift
    ensures (FlagFont5x11 | FlagTwoLine | FlagEightBitBus) < InstrFunctionSet
    ensures InstrEntryModeSet | FlagEntryIncrement | FlagEntryNoShift == 0x06
    ensures InstrFunctionSet | FlagFont5x8 | FlagTwoLine | FlagFourBitBus == 0x28
  {
  }

  /** Clearing a single-bit flag with `&= ~flag` from either of its two values yields the "off" constant, which is zero. */
  lemma OffVariantsAreZero(x: bv8, flag: bv8)
    requires flag in {FlagEntryIncrement, FlagEntryShift, FlagDisplayOn, FlagCursorOn, FlagBlinkOn,
                      FlagShiftDisplay, FlagShiftRight, FlagFont5x11, FlagTwoLine, FlagEightBitBus, FlagBacklightOn}
    requires x in {0, flag}
    ensures x & !flag == 0
    ensures FlagEntryDecrement == 0 && FlagEntryNoShift == 0 && FlagDisplayOff == 0 && FlagCursorOff == 0
    ensures FlagBlinkOff == 0 && FlagShiftCursor == 0 && FlagShiftLeft == 0 && FlagFont5x8 == 0
    ensures FlagOneLine == 0 && FlagFourBitBus == 0 && FlagBacklightOff == 0
  {
  }
}
