/**
  Three places where lib/src/lcd_i2c.cpp sends something other than what the
  operation's name and the HD44780 instruction set call for. Each is shown on
  a concrete input against the as-written model in `Driver`, with the
  evidently intended operation beside it.
 */
module Findings {
  import opened LcdDefs
  import opened Frames
  import opened Driver

  /** A glyph with every row blank. */
  const BlankGlyph: seq<bv8> := [0, 0, 0, 0, 0, 0, 0, 0]

  /**
    As written, `load_custom_char` sends each row with `write_command(LCD_RS_BIT, row)`,
    which ORs RS into the instruction byte instead of raising the RS line: a blank
    row reaches the controller as CLEAR_DISPLAY, not as CGRAM data.
   */
  lemma BlankGlyphRowClearsScreen()
    ensures var t := GlyphTrace(DefaultStatus.backlight, 0, BlankGlyph);
      && |t| == 9
      && forall i :: 1 <= i < 9 ==> Decode(t[i]) == Some(Transfer(false, InstrClearDisplay, true))
  {
    var t := GlyphTrace(DefaultStatus.backlight, 0, BlankGlyph);
    forall i | 1 <= i < 9
      ensures Decode(t[i]) == Some(Transfer(false, InstrClearDisplay, true))
    {
      assert t[i] == CommandBurst(FlagBacklightOn, RsBit, BlankGlyph[i - 1]);
      assert BlankGlyph[i - 1] | RsBit == InstrClearDisplay;
    }
  }

  /** The intended glyph load: SET_CGRAM_ADDRESS, then the eight rows as data-register writes. */
  function GlyphTraceIntended(backlight: bv8, cell: bv8, charMap: seq<bv8>): (t: Trace)
    requires cell <= 7 ==> |charMap| >= 8
    ensures cell > 7 ==> t == []
    ensures cell <= 7 ==> |t| == 9
    ensures cell <= 7 && BacklightValue(backlight) ==>
              Decode(t[0]) == Some(Transfer(false, CgramAddress(cell), backlight == FlagBacklightOn))
    ensures cell <= 7 && BacklightValue(backlight) ==> forall i :: 0 <= i < 8 ==>
              Decode(t[i + 1]) == Some(Transfer(true, charMap[i], backlight == FlagBacklightOn))
  {
    if cell > 7 then []
    else [CommandBurst(backlight, NoCommand, CgramAddress(cell))] + TextTrace(backlight, charMap[..8])
  }

  /**
    The intended load and the written one agree on the address write. On
    each row the written one sends `row | 0x01` as an instruction where the
    intended one sends `row` as data, so the two never agree on a row.
   */
  lemma GlyphRowsDiffer(backlight: bv8, cell: bv8, charMap: seq<bv8>)
    requires BacklightValue(backlight) && cell <= 7 && |charMap| >= 8
    ensures GlyphTraceIntended(backlight, cell, charMap)[0] == GlyphTrace(backlight, cell, charMap)[0]
    ensures forall i :: 1 <= i < 9 ==>
              && Decode(GlyphTrace(backlight, cell, charMap)[i])
                   == Some(Transfer(false, charMap[i - 1] | RsBit, backlight == FlagBacklightOn))
              && Decode(GlyphTraceIntended(backlight, cell, charMap)[i])
                   == Some(Transfer(true, charMap[i - 1], backlight == FlagBacklightOn))
    ensures forall i :: 1 <= i < 9 ==>
              GlyphTraceIntended(backlight, cell, charMap)[i] != GlyphTrace(backlight, cell, charMap)[i]
  {
    var good, bad := GlyphTraceIntended(backlight, cell, charMap), GlyphTrace(backlight, cell, charMap);
    forall i | 1 <= i < 9
      ensures Decode(bad[i]) == Some(Transfer(false, charMap[i - 1] | RsBit, backlight == FlagBacklightOn))
      ensures good[i] != bad[i]
    {
      assert bad[i] == CommandBurst(backlight, RsBit, charMap[i - 1]);
      assert Decode(good[i]).value.data;
      assert !Decode(bad[i]).value.data;
    }
  }

  /**
    As written, `show_cg_ram(addr)` also goes through `write_command(LCD_RS_BIT, addr)`:
    showing the glyph in cell 0 clears the screen instead.
   */
  lemma ShowGlyphZeroClearsScreen()
    ensures Decode(ShowCgRam(DefaultStatus, 0).trace[0]) == Some(Transfer(false, InstrClearDisplay, true))
  {
    assert (0x00 as bv8) | RsBit == InstrClearDisplay;
  }

  /** The intended `show_cg_ram`: the character code goes to the data register, as `write_char` sends it. */
  function ShowCgRamIntended(s: LcdStatus, addr: bv8): (r: Step)
    ensures r.status == s && |r.trace| == 1
    ensures BacklightValue(s.backlight) ==>
              Decode(r.trace[0]) == Some(Transfer(true, addr, s.backlight == FlagBacklightOn))
  {
    WriteChar(s, addr)
  }

  /** For every code, the written version never reaches the data register, while the intended one always does. */
  lemma ShowCgRamRegisters(s: LcdStatus, addr: bv8)
    requires BacklightValue(s.backlight)
    ensures !Decode(ShowCgRam(s, addr).trace[0]).value.data
    ensures Decode(ShowCgRamIntended(s, addr).trace[0]).value.data
    ensures ShowCgRamIntended(s, addr) == WriteChar(s, addr)
  {
  }

  /** As written, `return_home` sends CLEAR_DISPLAY, erasing the screen instead of only homing the cursor. */
  lemma ReturnHomeClearsScreen()
    ensures Decode(ReturnHome(DefaultStatus).trace[0]).value.value == InstrClearDisplay
    ensures Decode(ReturnHome(DefaultStatus).trace[0]).value.value != InstrReturnHome
  {
  }

  /** The intended `return_home`: a single RETURN_HOME instruction. */
  function ReturnHomeIntended(s: LcdStatus): (r: Step)
    ensures r.status == s && |r.trace| == 1
    ensures BacklightValue(s.backlight) ==>
              Decode(r.trace[0]) == Some(Transfer(false, InstrReturnHome, s.backlight == FlagBacklightOn))
  {
    Step(s, [CommandBurst(s.backlight, InstrReturnHome, NoCommand)])
  }

  /** The intended `return_home` is exactly the first write of `clear_display`, which does send RETURN_HOME. */
  lemma ReturnHomeIntendedIsClearPrefix(s: LcdStatus)
    ensures ReturnHomeIntended(s).trace == ClearDisplay(s).trace[..1]
    ensures ReturnHome(s).trace == ClearDisplay(s).trace[1..]
  {
  }

  /** The corrected glyph load never drives RW either. */
  lemma GlyphTraceIntendedSafe(backlight: bv8, cell: bv8, charMap: seq<bv8>)
    requires cell <= 7 ==> |charMap| >= 8
    ensures BacklightValue(backlight) ==> WireSafe(GlyphTraceIntended(backlight, cell, charMap))
  {
    if cell <= 7 && BacklightValue(backlight) {
      TextTraceSafe(backlight, charMap[..8]);
      WireSafeAppend([CommandBurst(backlight, NoCommand, CgramAddress(cell))], TextTrace(backlight, charMap[..8]));
    }
  }

  /**
    One public call with the three corrections in place: glyph rows and
    `show_cg_ram` go to the data register, `return_home` sends RETURN_HOME.
    Every other call is unchanged.
   */
  function ApplyIntended(s: LcdStatus, q: Request): (r: Step)
    requires Admissible(q)
    ensures r.status == Apply(s, q).status
    ensures Valid(s) ==> Valid(r.status) && WireSafe(r.trace)
    ensures !(q.Glyph? || q.CgRam? || q.Home?) ==> r == Apply(s, q)
    ensures q.Glyph? ==> r.trace == GlyphTraceIntended(s.backlight, q.cell, q.charMap)
    ensures q.Home? ==> |r.trace| == 1 && (BacklightValue(s.backlight) ==>
              Decode(r.trace[0]) == Some(Transfer(false, InstrReturnHome, s.backlight == FlagBacklightOn)))
    ensures q.CgRam? ==> |r.trace| == 1 && (BacklightValue(s.backlight) ==>
              Decode(r.trace[0]) == Some(Transfer(true, q.addr, s.backlight == FlagBacklightOn)))
  {
    match q
    case Glyph(cell, charMap) =>
      GlyphTraceIntendedSafe(s.backlight, cell, charMap);
      Step(s, GlyphTraceIntended(s.backlight, cell, charMap))
    case CgRam(addr) => ShowCgRamIntended(s, addr)
    case Home => ReturnHomeIntended(s)
    case _ => Apply(s, q)
  }
}
