/**
  The framing of `write_command` and `write_data` in lib/src/lcd_i2c.cpp.
  A transfer (register select, byte, backlight) is sent as two nibbles, high
  first, each latched by an enable pulse written as three expander bytes:
  E high, E high, E low. `Decode` reads a burst back; it accepts exactly the
  bursts `Encode` produces.
 */
module Frames {
  import opened LcdDefs

  datatype Option<+T> = None | Some(value: T)

  /** The bytes of one transport write. */
  type Burst = seq<bv8>

  /** Every transport write of an operation, in order. */
  type Trace = seq<Burst>

  /** One controller byte as seen on the 4-bit bus. */
  datatype Transfer = Transfer(data: bool, value: bv8, backlight: bool)

  /** One enable pulse latching the high nibble of `nibble`, with the other lines held at `lines`. */
  function Pulse(nibble: bv8, lines: bv8): seq<bv8> {
    [nibble | EnableBit | lines, nibble | EnableBit | lines, nibble | lines]
  }

  /** Both nibbles of `value`, high first, in a single burst. */
  function NibbleBurst(value: bv8, lines: bv8): Burst {
    Pulse(HighNibble(value), lines) + Pulse(HighNibble(value << 4), lines)
  }

  /** The low-nibble lines for a register select and backlight choice. */
  function Lines(data: bool, backlight: bool): bv8 {
    (if data then RsBit else 0) | (if backlight then FlagBacklightOn else FlagBacklightOff)
  }

  /** The burst that carries `t`. */
  function Encode(t: Transfer): Burst {
    NibbleBurst(t.value, Lines(t.data, t.backlight))
  }

  /** Two enable pulses of three bytes each: E asserted twice, then the same byte with E cleared. */
  predicate PulseShaped(f: Burst) {
    && |f| == 6
    && f[0] == f[1] && f[0] & EnableBit != 0 && f[2] == f[0] & !EnableBit
    && f[3] == f[4] && f[3] & EnableBit != 0 && f[5] == f[3] & !EnableBit
  }

  /** Reads a burst back as a transfer; `None` for anything the framer would not emit. */
  function Decode(f: Burst): Option<Transfer> {
    if PulseShaped(f) && f[0] & RwBit == 0 && f[0] & 0x0F == f[3] & 0x0F then
      Some(Transfer(f[0] & RsBit != 0, HighNibble(f[0]) | (f[3] >> 4), f[0] & FlagBacklightOn != 0))
    else
      None
  }

  /** Lines a burst may hold besides the nibble and E: register select and backlight only. */
  predicate PlainLines(lines: bv8) {
    lines & !(RsBit | FlagBacklightOn) == 0
  }

  /** What the two distinct bytes of each pulse carry, for lines that touch only RS and backlight. */
  lemma PulseBytes(value: bv8, lines: bv8)
    requires PlainLines(lines)
    ensures var h, l := HighNibble(value), HighNibble(value << 4);
      && (h | EnableBit | lines) & EnableBit != 0 && (l | EnableBit | lines) & EnableBit != 0
      && (h | EnableBit | lines) & !EnableBit == h | lines
      && (l | EnableBit | lines) & !EnableBit == l | lines
      && HighNibble(h | EnableBit | lines) | ((l | EnableBit | lines) >> 4) == value
      && (h | EnableBit | lines) & 0x0F == (l | EnableBit | lines) & 0x0F
      && (h | EnableBit | lines) & 0x09 == lines
      && (h | EnableBit | lines) & RwBit == 0 && (h | lines) & RwBit == 0
      && (l | EnableBit | lines) & RwBit == 0 && (l | lines) & RwBit == 0
      && (h | EnableBit | lines) & (RsBit | FlagBacklightOn) == lines
      && (h | lines) & (RsBit | FlagBacklightOn) == lines
      && (l | EnableBit | lines) & (RsBit | FlagBacklightOn) == lines
      && (l | lines) & (RsBit | FlagBacklightOn) == lines
  {
  }

  /** The six bytes of a burst, and what each of them carries, for lines that touch only RS and backlight. */
  lemma NibbleBurstBytes(value: bv8, lines: bv8)
    requires PlainLines(lines)
    ensures var f := NibbleBurst(value, lines);
      && PulseShaped(f)
      && f[0] & RwBit == 0 && f[0] & 0x0F == f[3] & 0x0F
      && f[0] & 0x09 == lines
      && HighNibble(f[0]) | (f[3] >> 4) == value
      && RwClear(f)
      && (forall j :: 0 <= j < 6 ==> f[j] & (RsBit | FlagBacklightOn) == lines)
  {
    var h, l := HighNibble(value), HighNibble(value << 4);
    var f := NibbleBurst(value, lines);
    assert |f| == 6;
    assert f[0] == h | EnableBit | lines && f[1] == f[0] && f[2] == h | lines;
    assert f[3] == l | EnableBit | lines && f[4] == f[3] && f[5] == l | lines;
    PulseBytes(value, lines);
  }

  /** Encoding then decoding gives the transfer back. */
  lemma DecodeEncode(t: Transfer)
    ensures Decode(Encode(t)) == Some(t)
  {
    var lines := Lines(t.data, t.backlight);
    NibbleBurstBytes(t.value, lines);
    var f := Encode(t);
    assert (f[0] & RsBit != 0) == t.data by {
      assert f[0] & RsBit == lines & RsBit;
    }
    assert (f[0] & FlagBacklightOn != 0) == t.backlight by {
      assert f[0] & FlagBacklightOn == lines & FlagBacklightOn;
    }
  }

  /** The two latched bytes of a well-formed burst are rebuilt from the value and lines they decode to. */
  lemma DecodedBytes(b0: bv8, b3: bv8)
    requires b0 & EnableBit != 0 && b3 & EnableBit != 0 && b0 & RwBit == 0 && b0 & 0x0F == b3 & 0x0F
    ensures var value, lines := HighNibble(b0) | (b3 >> 4), Lines(b0 & RsBit != 0, b0 & FlagBacklightOn != 0);
      && HighNibble(value) | EnableBit | lines == b0
      && HighNibble(value << 4) | EnableBit | lines == b3
      && HighNibble(value) | lines == b0 & !EnableBit
      && HighNibble(value << 4) | lines == b3 & !EnableBit
  {
  }

  /** The encoding of what a well-formed burst's bytes decode to is those bytes. */
  lemma EncodeOfDecodedBytes(b0: bv8, b2: bv8, b3: bv8, b5: bv8)
    requires b0 & EnableBit != 0 && b3 & EnableBit != 0 && b0 & RwBit == 0 && b0 & 0x0F == b3 & 0x0F
    requires b2 == b0 & !EnableBit && b5 == b3 & !EnableBit
    ensures Encode(Transfer(b0 & RsBit != 0, HighNibble(b0) | (b3 >> 4), b0 & FlagBacklightOn != 0))
         == [b0, b0, b2, b3, b3, b5]
  {
    DecodedPulses(b0, b2, b3, b5);
    assert [b0, b0, b2] + [b3, b3, b5] == [b0, b0, b2, b3, b3, b5];
  }

  /** The two pulses of a well-formed burst are the pulses of the value and lines it decodes to. */
  lemma DecodedPulses(b0: bv8, b2: bv8, b3: bv8, b5: bv8)
    requires b0 & EnableBit != 0 && b3 & EnableBit != 0 && b0 & RwBit == 0 && b0 & 0x0F == b3 & 0x0F
    requires b2 == b0 & !EnableBit && b5 == b3 & !EnableBit
    ensures var value, lines := HighNibble(b0) | (b3 >> 4), Lines(b0 & RsBit != 0, b0 & FlagBacklightOn != 0);
      && Pulse(HighNibble(value), lines) == [b0, b0, b2]
      && Pulse(HighNibble(value << 4), lines) == [b3, b3, b5]
  {
    DecodedBytes(b0, b3);
  }

  /** A burst of six bytes is determined by its pulse-shaped byte pattern. */
  lemma SixBytes(f: Burst, a: bv8, b: bv8, c: bv8, d: bv8)
    requires |f| == 6 && f[0] == a && f[1] == a && f[2] == b && f[3] == c && f[4] == c && f[5] == d
    ensures f == [a, a, b, c, c, d]
  {
  }

  /** What a burst that decodes looks like, and what it decodes to. */
  lemma DecodeAccepts(f: Burst)
    requires Decode(f).Some?
    ensures |f| == 6 && f == [f[0], f[0], f[2], f[3], f[3], f[5]]
    ensures f[0] & EnableBit != 0 && f[3] & EnableBit != 0 && f[0] & RwBit == 0 && f[0] & 0x0F == f[3] & 0x0F
    ensures f[2] == f[0] & !EnableBit && f[5] == f[3] & !EnableBit
    ensures Decode(f).value == Transfer(f[0] & RsBit != 0, HighNibble(f[0]) | (f[3] >> 4), f[0] & FlagBacklightOn != 0)
  {
    SixBytes(f, f[0], f[2], f[3], f[5]);
  }

  /** A burst that decodes is exactly the encoding of what it decodes to. */
  lemma EncodeDecode(f: Burst)
    requires Decode(f).Some?
    ensures Encode(Decode(f).value) == f
  {
    DecodeAccepts(f);
    EncodeOfDecodedBytes(f[0], f[2], f[3], f[5]);
  }

  /** `Decode` and `Encode` are inverse: a burst decodes to `t` if and only if it is the encoding of `t`. */
  lemma DecodeIffEncode(f: Burst, t: Transfer)
    ensures Decode(f) == Some(t) <==> f == Encode(t)
  {
    if Decode(f) == Some(t) {
      EncodeDecode(f);
    }
    if f == Encode(t) {
      DecodeEncode(t);
    }
  }

  /** No byte of the burst drives the read/write line. */
  predicate RwClear(f: Burst) {
    forall j :: 0 <= j < |f| ==> f[j] & RwBit == 0
  }

  /** Every byte of the burst carries the backlight bit of `backlight`. */
  predicate CarriesBacklight(f: Burst, backlight: bv8) {
    forall j :: 0 <= j < |f| ==> f[j] & FlagBacklightOn == backlight & FlagBacklightOn
  }

  /** Every byte of the burst has register select at `rs`. */
  predicate SelectsRegister(f: Burst, rs: bool) {
    forall j :: 0 <= j < |f| ==> (f[j] & RsBit != 0) == rs
  }

  /** Instruction-register write of `command | reg` (write_command); the backlight byte rides on every byte. */
  function CommandBurst(backlight: bv8, reg: bv8, command: bv8): (f: Burst)
    ensures |f| == 6
    ensures BacklightValue(backlight) ==> PulseShaped(f)
    ensures BacklightValue(backlight) ==> HighNibble(f[0]) | (f[3] >> 4) == command | reg
    ensures BacklightValue(backlight) ==> RwClear(f) && SelectsRegister(f, false) && CarriesBacklight(f, backlight)
    ensures BacklightValue(backlight) ==> Decode(f) == Some(Transfer(false, command | reg, backlight == FlagBacklightOn))
  {
    var f := NibbleBurst(command | reg, backlight);
    assert BacklightValue(backlight) ==> (Decode(f) == Some(Transfer(false, command | reg, backlight == FlagBacklightOn))
                                     && SelectsRegister(f, false) && CarriesBacklight(f, backlight)) by {
      if BacklightValue(backlight) {
        NibbleBurstBytes(command | reg, backlight);
        DecodeEncode(Transfer(false, command | reg, backlight == FlagBacklightOn));
        assert Encode(Transfer(false, command | reg, backlight == FlagBacklightOn)) == f;
        forall j | 0 <= j < |f|
          ensures (f[j] & RsBit != 0) == false && f[j] & FlagBacklightOn == backlight & FlagBacklightOn
        {
          assert f[j] & (RsBit | FlagBacklightOn) == backlight;
        }
      }
    }
    f
  }

  /** Data-register write of `data` (write_data): RS set on all six bytes. */
  function DataBurst(backlight: bv8, data: bv8): (f: Burst)
    ensures |f| == 6
    ensures BacklightValue(backlight) ==> PulseShaped(f)
    ensures BacklightValue(backlight) ==> HighNibble(f[0]) | (f[3] >> 4) == data
    ensures BacklightValue(backlight) ==> RwClear(f) && SelectsRegister(f, true) && CarriesBacklight(f, backlight)
    ensures BacklightValue(backlight) ==> Decode(f) == Some(Transfer(true, data, backlight == FlagBacklightOn))
  {
    var f := NibbleBurst(data, RsBit | backlight);
    assert BacklightValue(backlight) ==> (Decode(f) == Some(Transfer(true, data, backlight == FlagBacklightOn))
                                     && SelectsRegister(f, true) && CarriesBacklight(f, backlight)) by {
      if BacklightValue(backlight) {
        NibbleBurstBytes(data, RsBit | backlight);
        DecodeEncode(Transfer(true, data, backlight == FlagBacklightOn));
        assert Encode(Transfer(true, data, backlight == FlagBacklightOn)) == f;
        forall j | 0 <= j < |f|
          ensures (f[j] & RsBit != 0) == true && f[j] & FlagBacklightOn == backlight & FlagBacklightOn
        {
          assert f[j] & (RsBit | FlagBacklightOn) == RsBit | backlight;
        }
      }
    }
    f
  }

  /** No burst of the trace drives the read/write line. */
  predicate WireSafe(t: Trace) {
    forall i :: 0 <= i < |t| ==> RwClear(t[i])
  }

  /** Wire safety of a concatenated trace follows from that of its parts. */
  lemma WireSafeAppend(a: Trace, b: Trace)
    requires WireSafe(a) && WireSafe(b)
    ensures WireSafe(a + b)
  {
    forall i | 0 <= i < |a + b|
      ensures RwClear((a + b)[i])
    {
      if i < |a| {
        assert (a + b)[i] == a[i];
      } else {
        assert (a + b)[i] == b[i - |a|];
      }
    }
  }
}
