/**
  The operations of lib/src/lcd_i2c.cpp.
  Each operation is a pure function from the shadow record to the shadow
  after the call and the transport writes it made, one trace element per
  write to the I2C device. Delays between writes are not modelled.
 */
module Driver {
  import opened LcdDefs
  import opened Frames

  /** The shadow after an operation and the transport writes the operation made. */
  datatype Step = Step(status: LcdStatus, trace: Trace)

  /** The shadow the constructor installs before programming the controller. */
  const DefaultStatus: LcdStatus := LcdStatus(
    screen := FlagDisplayOn,
    cursor := FlagCursorOff,
    blink := FlagBlinkOff,
    entryCounter := FlagEntryIncrement,
    entryShift := FlagEntryNoShift,
    shiftMode := FlagShiftCursor,
    shiftDirection := FlagShiftLeft,
    backlight := FlagBacklightOn)

  /** Power-on defaults: display on, cursor and blink off, increment without auto-shift, cursor shifts left, backlight on. */
  const DefaultShadow: Shadow := Shadow(
    displayOn := true,
    cursorOn := false,
    blinkOn := false,
    increment := true,
    autoShift := false,
    shiftDisplay := false,
    shiftRight := false,
    backlightOn := true)

  /** A three-byte 8-bit-mode start-up pulse: the nibble in bits 4-7, no register select and no backlight. */
  function StartupPulse(nibble: bv8): Burst {
    Pulse(nibble << 4, 0)
  }

  /** The forced reset: function set 8-bit three times, then the switch to the 4-bit bus, as bare pulses. */
  function ResetPulses(): (p: Trace)
    ensures p == [[0x34, 0x34, 0x30], [0x34, 0x34, 0x30], [0x34, 0x34, 0x30], [0x24, 0x24, 0x20]]
    ensures WireSafe(p)
  {
    var reset := StartupPulse(0x03);
    [reset, reset, reset, StartupPulse(0x02)]
  }

  /** The six setup instructions, in the order the constructor sends them, one write each. */
  function SetupBursts(backlight: bv8): (p: Trace)
    requires BacklightValue(backlight)
    ensures |p| == 6 && WireSafe(p)
    ensures forall i :: 0 <= i < 6 ==>
              Decode(p[i]) == Some(Transfer(false, [0x28, 0x0C, 0x06, 0x10, 0x01, 0x02][i], backlight == FlagBacklightOn))
  {
    OptionFlagsBelowInstruction();
    [
      CommandBurst(backlight, InstrFunctionSet, FlagFont5x8 | FlagTwoLine | FlagFourBitBus),
      CommandBurst(backlight, InstrDisplayControl, FlagDisplayOn | FlagCursorOff | FlagBlinkOff),
      CommandBurst(backlight, InstrEntryModeSet, FlagEntryIncrement | FlagEntryNoShift),
      CommandBurst(backlight, InstrDisplayShift, FlagShiftCursor | FlagShiftLeft),
      CommandBurst(backlight, InstrClearDisplay, NoCommand),
      CommandBurst(backlight, InstrReturnHome, NoCommand)]
  }

  /** The constructor: shadow defaults, then the forced-reset pulses and the six setup instructions. */
  function Init(config: LcdConfig): (r: Step)
    ensures Valid(r.status) && View(r.status) == DefaultShadow
    ensures |r.trace| == 10
    ensures r.trace[..4] == [[0x34, 0x34, 0x30], [0x34, 0x34, 0x30], [0x34, 0x34, 0x30], [0x24, 0x24, 0x20]]
    ensures forall i :: 4 <= i < 10 ==>
              Decode(r.trace[i]) == Some(Transfer(false, [0x28, 0x0C, 0x06, 0x10, 0x01, 0x02][i - 4], true))
    ensures WireSafe(r.trace)
  {
    var s := DefaultStatus;
    var pulses, setup := ResetPulses(), SetupBursts(s.backlight);
    assert (pulses + setup)[..4] == pulses;
    assert forall i :: 4 <= i < 10 ==> (pulses + setup)[i] == setup[i - 4];
    WireSafeAppend(pulses, setup);
    Step(s, pulses + setup)
  }

  /** The DISPLAY_CONTROL and SHIFT values the constructor sends are the encodings of the shadow it installs. */
  lemma InitAgreesWithShadow(config: LcdConfig)
    ensures var r := Init(config);
      && Decode(r.trace[5]) == Some(Transfer(false, DisplayControlByte(View(r.status)), View(r.status).backlightOn))
      && Decode(r.trace[7]) == Some(Transfer(false, ShiftByte(View(r.status)), View(r.status).backlightOn))
  {
    assert DisplayControlByte(DefaultShadow) == 0x0C && ShiftByte(DefaultShadow) == 0x10;
  }

  /** The configuration plays no part in what the constructor sends or the shadow it installs. */
  lemma InitIgnoresConfig(c: LcdConfig, d: LcdConfig)
    ensures Init(c) == Init(d)
  {
  }

  /** `write_char`: one data-register write of the byte; the shadow is untouched. */
  function WriteChar(s: LcdStatus, ch: bv8): (r: Step)
    ensures r.status == s && |r.trace| == 1
    ensures BacklightValue(s.backlight) ==>
              Decode(r.trace[0]) == Some(Transfer(true, ch, s.backlight == FlagBacklightOn))
  {
    Step(s, [DataBurst(s.backlight, ch)])
  }

  /** One data-register write per byte of `text`, in order. */
  function TextTrace(backlight: bv8, text: seq<bv8>): Trace {
    seq(|text|, i requires 0 <= i < |text| => DataBurst(backlight, text[i]))
  }

  /** `print_string`: the first `length` bytes of `data` as data-register writes, one transport write each. */
  method PrintString(s: LcdStatus, data: seq<bv8>, length: bv8) returns (r: Step)
    requires length as int <= |data|
    ensures r.status == s
    ensures |r.trace| == length as int
    ensures r.trace == TextTrace(s.backlight, data[..length])
    ensures BacklightValue(s.backlight) ==> forall i :: 0 <= i < |r.trace| ==>
              Decode(r.trace[i]) == Some(Transfer(true, data[i], s.backlight == FlagBacklightOn))
  {
    var trace: Trace := [];
    var i := 0;
    while i < length as int
      invariant i <= length as int
      invariant |trace| == i
      invariant forall k :: 0 <= k < i ==> trace[k] == DataBurst(s.backlight, data[k])
    {
      trace := trace + [DataBurst(s.backlight, data[i])];
      i := i + 1;
    }
    r := Step(s, trace);
  }

  /** DDRAM start address of each display row. */
  const RowOffsets: seq<bv8> := [0x00, 0x40, 0x14, 0x54]

  /** Byte addition of each row start wraps modulo 256; one lemma per start keeps each proof small. */
  lemma AddRow0Wraps(column: bv8)
    ensures (column + 0x00) as int == (column as int + 0x00) % 256
  {
  }

  lemma AddRow1Wraps(column: bv8)
    ensures (column + 0x40) as int == (column as int + 0x40) % 256
  {
  }

  lemma AddRow2Wraps(column: bv8)
    ensures (column + 0x14) as int == (column as int + 0x14) % 256
  {
  }

  lemma AddRow3Wraps(column: bv8)
    ensures (column + 0x54) as int == (column as int + 0x54) % 256
  {
  }

  /** Adding one of the row starts to a byte wraps modulo 256. */
  lemma RowStartAddWraps(column: bv8, offset: bv8)
    requires offset in RowOffsets
    ensures (column + offset) as int == (column as int + offset as int) % 256
  {
    if offset == 0x00 {
      AddRow0Wraps(column);
    } else if offset == 0x40 {
      AddRow1Wraps(column);
    } else if offset == 0x14 {
      AddRow2Wraps(column);
    } else {
      AddRow3Wraps(column);
    }
  }

  /** The DDRAM address of a cell: column plus row start, truncated to a byte as the source's `uint8_t` sum is. */
  function DdramAddress(column: bv8, line: bv8): (a: bv8)
    requires line < 4
    ensures a as int == (column as int + RowOffsets[line as int] as int) % 256
  {
    RowStartAddWraps(column, RowOffsets[line as int]);
    column + RowOffsets[line as int]
  }

  /** `set_cursor_position`: one SET_DDRAM_ADDRESS instruction carrying the cell's address; the shadow is untouched. */
  function SetCursorPosition(s: LcdStatus, column: bv8, line: bv8): (r: Step)
    requires line < 4
    ensures r.status == s && |r.trace| == 1
    ensures BacklightValue(s.backlight) ==>
              Decode(r.trace[0]) == Some(Transfer(false, InstrSetDdramAddress | DdramAddress(column, line),
                                                  s.backlight == FlagBacklightOn))
  {
    Step(s, [CommandBurst(s.backlight, InstrSetDdramAddress, DdramAddress(column, line))])
  }

  /** On a 20-column, 4-row display every cell gets its own DDRAM address without wrapping; rows 2 and 3 continue rows 0 and 1. */
  lemma CursorAddressesOfFourRowDisplay(s: LcdStatus, column: bv8, line: bv8)
    requires BacklightValue(s.backlight)
    requires column < 20 && line < 4
    ensures Decode(SetCursorPosition(s, column, line).trace[0]).Some?
    ensures var v := Decode(SetCursorPosition(s, column, line).trace[0]).value.value;
      && v & 0x80 != 0
      && (v & 0x7F) as int == RowOffsets[line as int] as int + column as int
    ensures RowOffsets[2] as int == RowOffsets[0] as int + 20 && RowOffsets[3] as int == RowOffsets[1] as int + 20
  {
    var a := DdramAddress(column, line);
    assert RowOffsets[line as int] as int <= 0x54;
    assert a as int < 128;
    assert a < 128;
    assert (InstrSetDdramAddress | a) & 0x7F == a;
  }

  /** The CGRAM address of the first row of a glyph cell, eight rows per cell. */
  function CgramAddress(cell: bv8): (a: bv8)
    requires cell <= 7
    ensures a as int == 0x40 + 8 * cell as int
  {
    InstrSetCgramAddress | (cell << 3)
  }

  /** The writes of `load_custom_char`: nothing for a cell above 7, else SET_CGRAM_ADDRESS and eight row writes. */
  function GlyphTrace(backlight: bv8, cell: bv8, charMap: seq<bv8>): Trace
    requires cell <= 7 ==> |charMap| >= 8
  {
    if cell > 7 then []
    else
      [CommandBurst(backlight, NoCommand, CgramAddress(cell))]
      + seq(8, i requires 0 <= i < 8 => CommandBurst(backlight, RsBit, charMap[i]))
  }

  /**
    `load_custom_char`: a cell above 7 is ignored; otherwise the CGRAM address
    of the cell, then each of the eight rows, all on the instruction register
    with RS folded into the value.
   */
  method LoadCustomChar(s: LcdStatus, cell: bv8, charMap: seq<bv8>) returns (r: Step)
    requires cell <= 7 ==> |charMap| >= 8
    ensures r.status == s
    ensures r.trace == GlyphTrace(s.backlight, cell, charMap)
    ensures cell > 7 ==> r.trace == []
    ensures cell <= 7 ==> |r.trace| == 9
    ensures cell <= 7 && BacklightValue(s.backlight) ==>
              Decode(r.trace[0]) == Some(Transfer(false, CgramAddress(cell), s.backlight == FlagBacklightOn))
    ensures cell <= 7 && BacklightValue(s.backlight) ==> forall i :: 0 <= i < 8 ==>
              Decode(r.trace[i + 1]) == Some(Transfer(false, charMap[i] | 0x01, s.backlight == FlagBacklightOn))
  {
    if cell > 7 {
      return Step(s, []);
    }
    var address := CgramAddress(cell);
    var trace: Trace := [CommandBurst(s.backlight, NoCommand, address)];
    var i := 0;
    while i < 8
      invariant i <= 8
      invariant |trace| == i + 1
      invariant trace[0] == CommandBurst(s.backlight, NoCommand, address)
      invariant forall k :: 0 <= k < i ==> trace[k + 1] == CommandBurst(s.backlight, RsBit, charMap[k])
    {
      trace := trace + [CommandBurst(s.backlight, RsBit, charMap[i])];
      i := i + 1;
    }
    r := Step(s, trace);
  }

  /** `show_cg_ram`: the byte goes to the instruction register with bit 0 forced on. */
  function ShowCgRam(s: LcdStatus, addr: bv8): (r: Step)
    ensures r.status == s && |r.trace| == 1
    ensures BacklightValue(s.backlight) ==>
              Decode(r.trace[0]) == Some(Transfer(false, addr | 0x01, s.backlight == FlagBacklightOn))
  {
    Step(s, [CommandBurst(s.backlight, RsBit, addr)])
  }

  /** The features the DISPLAY_CONTROL toggles switch; the backlight rides along with that group. */
  datatype Feature = Screen | Cursor | Blink | Backlight

  /**
    The twelve toggles. `Switch(Screen, true)` is `display_on`, `Switch(Cursor, false)`
    is `cursor_off`, and so on through `Switch(Backlight, _)`; `Shift(display, right)`
    is `cursor_shift_left` for (false, false), `cursor_shift_right` for (false, true),
    `display_shift_left` for (true, false) and `display_shift_right` for (true, true).
   */
  datatype ControlOp = Switch(feature: Feature, on: bool) | Shift(display: bool, right: bool)

  /** The driver's two record idioms: `x |= flag` to switch on, `x &= ~flag` to switch off. */
  function SetOrClear(x: bv8, flag: bv8, on: bool): bv8 {
    if on then x | flag else x & !flag
  }

  /** After `|= flag` the flag reads set, after `&= ~flag` clear; repeating either changes nothing; on a two-valued field the result is the flag or zero. */
  lemma SetOrClearMeaning(x: bv8, flag: bv8, on: bool)
    requires SingleBit(flag)
    ensures (SetOrClear(x, flag, on) & flag != 0) == on
    ensures SetOrClear(SetOrClear(x, flag, on), flag, on) == SetOrClear(x, flag, on)
    ensures x == 0 || x == flag ==> SetOrClear(x, flag, on) == if on then flag else 0
  {
  }

  /** What each toggle means for the features, independent of how the record stores them. */
  function AbstractUpdate(v: Shadow, op: ControlOp): Shadow {
    match op
    case Switch(Screen, on) => v.(displayOn := on)
    case Switch(Cursor, on) => v.(cursorOn := on)
    case Switch(Blink, on) => v.(blinkOn := on)
    case Switch(Backlight, on) => v.(backlightOn := on)
    case Shift(display, right) => v.(shiftDisplay := display, shiftRight := right)
  }

  /** The record update each toggle performs: `|=` or `&= ~` on its fields, plain assignment for the backlight. */
  function UpdateShadow(s: LcdStatus, op: ControlOp): LcdStatus {
    match op
    case Switch(Screen, on) => s.(screen := SetOrClear(s.screen, FlagDisplayOn, on))
    case Switch(Cursor, on) => s.(cursor := SetOrClear(s.cursor, FlagCursorOn, on))
    case Switch(Blink, on) => s.(blink := SetOrClear(s.blink, FlagBlinkOn, on))
    case Switch(Backlight, on) => s.(backlight := if on then FlagBacklightOn else FlagBacklightOff)
    case Shift(display, right) =>
      s.(shiftDirection := SetOrClear(s.shiftDirection, FlagShiftRight, right),
         shiftMode := SetOrClear(s.shiftMode, FlagShiftDisplay, display))
  }

  /** The record update does to the features what the toggle means, leaves entry mode alone, and keeps a valid record valid. */
  lemma UpdateShadowMeaning(s: LcdStatus, op: ControlOp)
    ensures View(UpdateShadow(s, op)) == AbstractUpdate(View(s), op)
    ensures UpdateShadow(s, op).entryCounter == s.entryCounter && UpdateShadow(s, op).entryShift == s.entryShift
    ensures Valid(s) ==> Valid(UpdateShadow(s, op))
  {
    match op {
      case Switch(Screen, on) => SetOrClearMeaning(s.screen, FlagDisplayOn, on);
      case Switch(Cursor, on) => SetOrClearMeaning(s.cursor, FlagCursorOn, on);
      case Switch(Blink, on) => SetOrClearMeaning(s.blink, FlagBlinkOn, on);
      case Switch(Backlight, on) =>
      case Shift(display, right) =>
        SetOrClearMeaning(s.shiftDirection, FlagShiftRight, right);
        SetOrClearMeaning(s.shiftMode, FlagShiftDisplay, display);
    }
  }

  /** A display-control or backlight toggle writes only its own field, whatever the record holds. */
  lemma SwitchFrame(s: LcdStatus, f: Feature, on: bool)
    ensures var t := UpdateShadow(s, Switch(f, on));
      && (f != Screen ==> t.screen == s.screen)
      && (f != Cursor ==> t.cursor == s.cursor)
      && (f != Blink ==> t.blink == s.blink)
      && (f != Backlight ==> t.backlight == s.backlight)
      && t.shiftMode == s.shiftMode && t.shiftDirection == s.shiftDirection
      && t.entryCounter == s.entryCounter && t.entryShift == s.entryShift
  {
  }

  /** A shift writes only the direction and scope fields, whatever the record holds. */
  lemma ShiftFrame(s: LcdStatus, display: bool, right: bool)
    ensures var t := UpdateShadow(s, Shift(display, right));
      && t.screen == s.screen && t.cursor == s.cursor && t.blink == s.blink && t.backlight == s.backlight
      && t.entryCounter == s.entryCounter && t.entryShift == s.entryShift
  {
  }

  /** Repeating a record update changes nothing. */
  lemma UpdateShadowIdempotent(s: LcdStatus, op: ControlOp)
    ensures UpdateShadow(UpdateShadow(s, op), op) == UpdateShadow(s, op)
  {
    match op {
      case Switch(Screen, on) => SetOrClearMeaning(s.screen, FlagDisplayOn, on);
      case Switch(Cursor, on) => SetOrClearMeaning(s.cursor, FlagCursorOn, on);
      case Switch(Blink, on) => SetOrClearMeaning(s.blink, FlagBlinkOn, on);
      case Switch(Backlight, on) =>
      case Shift(display, right) =>
        SetOrClearMeaning(s.shiftDirection, FlagShiftRight, right);
        SetOrClearMeaning(s.shiftMode, FlagShiftDisplay, display);
    }
  }

  /** The instruction byte a toggle's group resend carries, for the features `v`. */
  function GroupByte(op: ControlOp, v: Shadow): bv8 {
    if op.Shift? then ShiftByte(v) else DisplayControlByte(v)
  }

  /** The instruction code of the group a toggle resends. */
  function GroupCode(op: ControlOp): bv8 {
    if op.Shift? then InstrDisplayShift else InstrDisplayControl
  }

  /** The option bits of the group a toggle resends, recombined from the fields of the record `t`. */
  function GroupFields(op: ControlOp, t: LcdStatus): bv8 {
    if op.Shift? then t.shiftDirection | t.shiftMode else t.screen | t.cursor | t.blink
  }

  /** On a valid record, recombining the group's fields gives exactly the instruction that encodes the record's features. */
  lemma GroupCommandEncodes(op: ControlOp, t: LcdStatus)
    requires Valid(t)
    ensures GroupFields(op, t) | GroupCode(op) == GroupByte(op, View(t))
  {
  }

  /** The single write a toggle makes. */
  function GroupResend(op: ControlOp, t: LcdStatus): Burst {
    CommandBurst(t.backlight, GroupCode(op), GroupFields(op, t))
  }

  /**
    From a valid record, a toggle lands on the record of the new features,
    and its resend is the instruction that encodes them.
   */
  lemma UpdateShadowEncodes(s: LcdStatus, op: ControlOp)
    ensures var t := UpdateShadow(s, op);
      Valid(s) ==>
        && t == Concrete(AbstractUpdate(View(s), op))
        && Decode(GroupResend(op, t)) == Some(Transfer(false, GroupByte(op, View(t)), View(t).backlightOn))
  {
    var t := UpdateShadow(s, op);
    if Valid(s) {
      UpdateShadowMeaning(s, op);
      ConcreteOfView(t);
      GroupCommandEncodes(op, t);
    }
  }

  /**
    A toggle: update the shadow, then resend the whole register group
    recombined from the updated shadow (the backlight toggles resend
    DISPLAY_CONTROL so that the new backlight bit reaches the expander).
   */
  function Control(s: LcdStatus, op: ControlOp): (r: Step)
    ensures View(r.status) == AbstractUpdate(View(s), op)
    ensures Valid(s) ==> r.status == Concrete(AbstractUpdate(View(s), op))
    ensures r.status.entryCounter == s.entryCounter && r.status.entryShift == s.entryShift
    ensures |r.trace| == 1
    ensures Valid(s) ==>
              Decode(r.trace[0]) == Some(Transfer(false, GroupByte(op, View(r.status)), View(r.status).backlightOn))
  {
    var t := UpdateShadow(s, op);
    UpdateShadowMeaning(s, op);
    UpdateShadowEncodes(s, op);
    Step(t, [GroupResend(op, t)])
  }

  /** Applying the same toggle twice leaves the same shadow and sends the same bytes as applying it once. */
  lemma ControlIdempotent(s: LcdStatus, op: ControlOp)
    ensures Control(Control(s, op).status, op) == Control(s, op)
  {
    UpdateShadowIdempotent(s, op);
  }

  /** `clear_display`: RETURN_HOME, then CLEAR_DISPLAY, each in its own write. */
  function ClearDisplay(s: LcdStatus): (r: Step)
    ensures r.status == s && |r.trace| == 2
    ensures BacklightValue(s.backlight) ==>
              && Decode(r.trace[0]) == Some(Transfer(false, InstrReturnHome, s.backlight == FlagBacklightOn))
              && Decode(r.trace[1]) == Some(Transfer(false, InstrClearDisplay, s.backlight == FlagBacklightOn))
  {
    Step(s, [CommandBurst(s.backlight, InstrReturnHome, NoCommand), CommandBurst(s.backlight, InstrClearDisplay, NoCommand)])
  }

  /** `return_home`: a single CLEAR_DISPLAY instruction. */
  function ReturnHome(s: LcdStatus): (r: Step)
    ensures r.status == s && |r.trace| == 1
    ensures BacklightValue(s.backlight) ==>
              Decode(r.trace[0]) == Some(Transfer(false, InstrClearDisplay, s.backlight == FlagBacklightOn))
  {
    Step(s, [CommandBurst(s.backlight, InstrClearDisplay, NoCommand)])
  }

  /** Text output never drives RW. */
  lemma TextTraceSafe(backlight: bv8, text: seq<bv8>)
    ensures BacklightValue(backlight) ==> WireSafe(TextTrace(backlight, text))
  {
  }

  /** Glyph loading never drives RW. */
  lemma GlyphTraceSafe(backlight: bv8, cell: bv8, charMap: seq<bv8>)
    requires cell <= 7 ==> |charMap| >= 8
    ensures BacklightValue(backlight) ==> WireSafe(GlyphTrace(backlight, cell, charMap))
  {
  }

  /** A call on the driver's public surface. */
  datatype Request =
    | Setting(op: ControlOp)
    | Char(ch: bv8)
    | Text(data: seq<bv8>, length: bv8)
    | Goto(column: bv8, line: bv8)
    | Glyph(cell: bv8, charMap: seq<bv8>)
    | CgRam(addr: bv8)
    | Clear
    | Home

  /** The caller obligations: the text holds `length` bytes, the row is in the table, a valid cell comes with eight rows. */
  predicate Admissible(q: Request) {
    match q
    case Text(data, length) => length as int <= |data|
    case Goto(_, line) => line < 4
    case Glyph(cell, charMap) => cell <= 7 ==> |charMap| >= 8
    case _ => true
  }

  /** One public call; a valid shadow stays valid, the entry fields never change, and no byte drives RW. */
  function Apply(s: LcdStatus, q: Request): (r: Step)
    requires Admissible(q)
    ensures Valid(s) ==> Valid(r.status) && WireSafe(r.trace)
    ensures r.status.entryCounter == s.entryCounter && r.status.entryShift == s.entryShift
  {
    match q
    case Setting(op) => Control(s, op)
    case Char(ch) => WriteChar(s, ch)
    case Text(data, length) =>
      TextTraceSafe(s.backlight, data[..length]);
      Step(s, TextTrace(s.backlight, data[..length]))
    case Goto(column, line) => SetCursorPosition(s, column, line)
    case Glyph(cell, charMap) =>
      GlyphTraceSafe(s.backlight, cell, charMap);
      Step(s, GlyphTrace(s.backlight, cell, charMap))
    case CgRam(addr) => ShowCgRam(s, addr)
    case Clear => ClearDisplay(s)
    case Home => ReturnHome(s)
  }

  /** Every request of the sequence meets its caller obligations. */
  predicate AllAdmissible(qs: seq<Request>) {
    forall i :: 0 <= i < |qs| ==> Admissible(qs[i])
  }

  /** A sequence of public calls, the shadow threaded through and the writes concatenated. */
  function Session(s: LcdStatus, qs: seq<Request>): Step
    requires AllAdmissible(qs)
    decreases |qs|
  {
    if qs == [] then Step(s, [])
    else
      var first := Apply(s, qs[0]);
      var rest := Session(first.status, qs[1..]);
      Step(rest.status, first.trace + rest.trace)
  }

  /** Over any sequence of calls the shadow stays valid, the entry fields keep their value, and no byte drives RW. */
  lemma {:induction false} SessionSafe(s: LcdStatus, qs: seq<Request>)
    requires Valid(s) && AllAdmissible(qs)
    ensures Valid(Session(s, qs).status)
    ensures WireSafe(Session(s, qs).trace)
    ensures Session(s, qs).status.entryCounter == s.entryCounter
    ensures Session(s, qs).status.entryShift == s.entryShift
    decreases |qs|
  {
    if qs != [] {
      var first := Apply(s, qs[0]);
      assert AllAdmissible(qs[1..]) by {
        forall i | 0 <= i < |qs[1..]|
          ensures Admissible(qs[1..][i])
        {
          assert qs[1..][i] == qs[i + 1];
        }
      }
      SessionSafe(first.status, qs[1..]);
      WireSafeAppend(first.trace, Session(first.status, qs[1..]).trace);
    }
  }

  /** From construction on, whatever sequence of methods the caller calls: entry mode stays increment without shift and RW is never driven. */
  lemma DriverLifetimeSafe(config: LcdConfig, qs: seq<Request>)
    requires AllAdmissible(qs)
    ensures var boot := Init(config);
      var run := Session(boot.status, qs);
      && Valid(run.status)
      && WireSafe(boot.trace + run.trace)
      && run.status.entryCounter == FlagEntryIncrement
      && run.status.entryShift == FlagEntryNoShift
  {
    var boot := Init(config);
    SessionSafe(boot.status, qs);
    WireSafeAppend(boot.trace, Session(boot.status, qs).trace);
  }

  /** With the backlight on, the data write of 'C' (0x43) is the six bytes 0x4D 0x4D 0x49 0x3D 0x3D 0x39. */
  lemma LetterCBytes()
    ensures DataBurst(FlagBacklightOn, 0x43) == [0x4D, 0x4D, 0x49, 0x3D, 0x3D, 0x39]
  {
    var b := DataBurst(FlagBacklightOn, 0x43);
    assert b[0] == 0x4D && b[1] == 0x4D && b[2] == 0x49 && b[3] == 0x3D && b[4] == 0x3D && b[5] == 0x39;
  }

  /** A two-call session is the first call's writes followed by the second's. */
  lemma SessionOfTwo(s: LcdStatus, a: Request, b: Request)
    requires Admissible(a) && Admissible(b)
    ensures var first := Apply(s, a);
      Session(s, [a, b]) == Step(Apply(first.status, b).status, first.trace + Apply(first.status, b).trace)
  {
    var first := Apply(s, a);
    var second := Apply(first.status, b);
    assert [a, b][1..] == [b];
    assert [b][1..] == [];
    assert Session(second.status, []) == Step(second.status, []);
    assert Session(first.status, [b]) == Step(second.status, second.trace + []);
    assert second.trace + [] == second.trace;
  }

  /** Clearing and then printing a whole text sends the two writes of `clear_display`, then one data write per byte. */
  lemma ClearThenText(s: LcdStatus, text: seq<bv8>)
    requires |text| < 256
    ensures Session(s, [Clear, Text(text, |text| as bv8)]).trace == ClearDisplay(s).trace + TextTrace(s.backlight, text)
  {
    var length := |text| as bv8;
    assert text[..length] == text;
    SessionOfTwo(s, Clear, Text(text, length));
  }

  /** What the controller receives when a text is printed on a cleared screen: home, clear, then each byte as data, in order. */
  lemma ClearThenTextDecodes(s: LcdStatus, text: seq<bv8>)
    requires BacklightValue(s.backlight) && |text| < 256
    ensures var run := Session(s, [Clear, Text(text, |text| as bv8)]);
      && |run.trace| == |text| + 2
      && Decode(run.trace[0]) == Some(Transfer(false, InstrReturnHome, s.backlight == FlagBacklightOn))
      && Decode(run.trace[1]) == Some(Transfer(false, InstrClearDisplay, s.backlight == FlagBacklightOn))
      && forall i :: 0 <= i < |text| ==>
           Decode(run.trace[i + 2]) == Some(Transfer(true, text[i], s.backlight == FlagBacklightOn))
  {
    ClearThenText(s, text);
    var clear, shown := ClearDisplay(s).trace, TextTrace(s.backlight, text);
    assert forall i :: 0 <= i < |text| ==> (clear + shown)[i + 2] == shown[i];
  }

  /** The characters the demo loop prints first: "C : 0". */
  const CounterText: seq<bv8> := [0x43, 0x20, 0x3A, 0x20, 0x30]

  /** The demo loop's body on the start-up features: home, clear, then "C : 0" as five data writes; 'C' is the six bytes 0x4D 0x4D 0x49 0x3D 0x3D 0x39. */
  lemma CounterScreenScenario(s: LcdStatus)
    requires Valid(s) && View(s) == DefaultShadow
    ensures var run := Session(s, [Clear, Text(CounterText, 5)]);
      && |run.trace| == 7
      && Decode(run.trace[0]) == Some(Transfer(false, InstrReturnHome, true))
      && Decode(run.trace[1]) == Some(Transfer(false, InstrClearDisplay, true))
      && (forall i :: 0 <= i < 5 ==> Decode(run.trace[i + 2]) == Some(Transfer(true, CounterText[i], true)))
      && run.trace[2] == [0x4D, 0x4D, 0x49, 0x3D, 0x3D, 0x39]
  {
    assert s.backlight == FlagBacklightOn;
    ClearThenTextDecodes(s, CounterText);
    ClearThenText(s, CounterText);
    assert (ClearDisplay(s).trace + TextTrace(s.backlight, CounterText))[2] == DataBurst(FlagBacklightOn, 0x43);
    LetterCBytes();
  }
}
