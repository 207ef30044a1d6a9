# HD44780 over PCF8574: a Dafny model of the LCD driver core

This project models the C++ driver for HD44780 character LCDs behind a
PCF8574 I2C port expander (`lib/src/lcd_i2c.cpp`, `lib/inc/lcd_i2c.hpp`).
The model covers four things:

- how `write_command` and `write_data` turn one controller byte into a six-byte I2C burst;
- the `lcd_status_t` shadow record that the toggles update and resend;
- the constructor's power-on sequence;
- the public operations: characters, strings, cursor addressing, CGRAM glyphs, toggles, shifts, clear and home.

Every operation is a side-effect-free function or method from the shadow record to the record after
the call and a trace. The trace has one element per `write_bytes_i2c` call,
and each element is the list of bytes that call would write. Bytes and record
fields are `bv8`, so `uint8_t` truncation comes for free. Where it matters,
such as the DDRAM address sum, the contracts state the wrap as integer
arithmetic mod 256.

Modules:

- `LcdDefs` (`lcd_defs.dfy`) holds the header's constants, the `lcd_status_t` record (`LcdStatus`), and its validity invariant. It also holds an abstract reading of the record (`Shadow`, `View`, `Concrete`) and the instruction bytes that encode a set of features.
- `Frames` (`frames.dfy`) holds the 4-bit framing (`Encode`) and an independent decoder (`Decode`) with the round trip in both directions. It also states what `write_command` and `write_data` put on the wire (`CommandBurst`, `DataBurst`).
- `Driver` (`driver.dfy`) holds the constructor and every public operation. It also defines a session of arbitrary public calls, with the invariants that hold over the whole life of the driver.
- `Findings` (`findings.dfy`) holds the three places where the code sends something the operation's name and the HD44780 instruction set do not call for. Each is shown on a concrete input, with the evidently intended operation beside it.

The model follows the code where it departs from what the operation's name and the HD44780 instruction set call for:

- `load_custom_char` sends each glyph row with `write_command(LCD_RS_BIT, row)` (lib/src/lcd_i2c.cpp:157). That passes the expander line constant `LCD_RS_BIT` as the instruction argument, so RS ends up in bit 0 of an instruction byte while the RS line stays low. Rows written after SET_CGRAM_ADDRESS belong in the data register.
- `show_cg_ram` does the same with its code (lib/src/lcd_i2c.cpp:162). That it was meant to write the code to the data register, as `write_char` does, is inferred from its name only.
- `return_home` sends CLEAR_DISPLAY (lib/src/lcd_i2c.cpp:262).

`Driver` keeps all of these as written. `Findings` gives the corrected versions and a corrected public call, `Findings.ApplyIntended`, that uses them.

## Model

| member | source | states |
|---|---|---|
| LcdDefs.Concrete | lib/inc/lcd_i2c.hpp:72-81 | the record the driver would hold for a set of features is valid and reads back as exactly those features |
| LcdDefs.ConcreteOfView | lib/inc/lcd_i2c.hpp:72-81 | on a valid record (every field at its "off" constant or its flag) the feature reading loses nothing: rebuilding from it gives the same record |
| LcdDefs.DisplayControlByte | lib/inc/lcd_i2c.hpp:19 | the DISPLAY_CONTROL byte for a feature set keeps bit 3 set and the high nibble clear, and its on/cursor/blink bits read back as the features |
| LcdDefs.ShiftByte | lib/inc/lcd_i2c.hpp:20 | the SHIFT byte is one of 0x10, 0x14, 0x18, 0x1C, and its display and right bits read back as the shift scope and direction |
| LcdDefs.BusBitsSeparate | lib/inc/lcd_i2c.hpp:57-62 | RS, RW, E and backlight are distinct single bits in the low nibble, so a nibble in bits 4-7 never touches them |
| LcdDefs.InstructionCodesDistinctBits | lib/inc/lcd_i2c.hpp:15-23 | the eight instruction codes are single bits, all different |
| LcdDefs.DisplayControlDecodesUniquely | lib/inc/lcd_i2c.hpp:34-39 | two feature sets give the same DISPLAY_CONTROL byte if and only if they agree on display, cursor and blink |
| LcdDefs.ShiftDecodesUniquely | lib/inc/lcd_i2c.hpp:43-46 | two feature sets give the same SHIFT byte if and only if they agree on scope and direction |
| LcdDefs.OptionFlagsBelowInstruction | lib/inc/lcd_i2c.hpp:18-55 | each group's option flags lie below its instruction code, and the start-up values 0x06 and 0x28 keep their instruction bit |
| LcdDefs.OffVariantsAreZero | lib/inc/lcd_i2c.hpp:27-62 | every "off" or default option is 0x00, so `&= ~flag` on either value of a field reaches the off constant |
| Frames.NibbleBurstBytes | lib/src/lcd_i2c.cpp:71-81 | the burst is two enable pulses (E high, E high, E low), never drives RW, carries the lines on every byte, and its two latched nibbles recombine to the value |
| Frames.DecodeEncode | lib/src/lcd_i2c.cpp:67-103 | decoding the burst of any transfer gives that transfer back |
| Frames.EncodeDecode | lib/src/lcd_i2c.cpp:67-103 | any burst the decoder accepts is exactly the encoding of what it decodes to |
| Frames.DecodeIffEncode | lib/src/lcd_i2c.cpp:67-103 | a burst decodes to a transfer if and only if it is that transfer's encoding |
| Frames.CommandBurst | lib/src/lcd_i2c.cpp:67-84 | `write_command(reg, cmd)`: six bytes shaped as two E pulses, RS and RW clear on every byte, the backlight bit on every byte, the nibbles recombining to `cmd` OR `reg`; decodes to an instruction write of that byte |
| Frames.DataBurst | lib/src/lcd_i2c.cpp:86-103 | `write_data(b)`: the same shape with RS set on all six bytes; decodes to a data write of `b` |
| Frames.WireSafeAppend | lib/src/lcd_i2c.cpp:105-126 | concatenating two traces that never drive RW gives one that never does |
| Driver.ResetPulses | lib/src/lcd_i2c.cpp:28-51 | the forced reset is three `[0x34, 0x34, 0x30]` writes and one `[0x24, 0x24, 0x20]` write, with no backlight bit |
| Driver.SetupBursts | lib/src/lcd_i2c.cpp:53-64 | the six setup writes decode to the instructions 0x28, 0x0C, 0x06, 0x10, 0x01, 0x02, in order |
| Driver.Init | lib/src/lcd_i2c.cpp:8-65 | the constructor leaves a valid record with display on, cursor and blink off, increment without shift, cursor shifting left and backlight on; it makes ten writes: four reset pulses, then the six setup instructions; nothing it sends drives RW |
| Driver.InitAgreesWithShadow | lib/src/lcd_i2c.cpp:17-24 | the DISPLAY_CONTROL and SHIFT values the constructor sends are the encodings of the record it installs |
| Driver.InitIgnoresConfig | lib/src/lcd_i2c.cpp:12-15 | the configuration changes neither the bytes sent nor the record installed |
| Driver.WriteChar | lib/src/lcd_i2c.cpp:127-130 | one data write of the byte; the record is unchanged |
| Driver.PrintString | lib/src/lcd_i2c.cpp:131-137 | exactly `length` writes, the i-th a data write of `data[i]`, in order; the record is unchanged |
| Driver.RowStartAddWraps | lib/src/lcd_i2c.cpp:140-142 | adding a row start to a column byte is addition mod 256 |
| Driver.DdramAddress | lib/src/lcd_i2c.cpp:138-145 | the cell address is `(column + row start) mod 256`, with row starts 0x00, 0x40, 0x14, 0x54 |
| Driver.SetCursorPosition | lib/src/lcd_i2c.cpp:138-145 | one SET_DDRAM_ADDRESS instruction carrying that address; the record is unchanged |
| Driver.CursorAddressesOfFourRowDisplay | lib/src/lcd_i2c.cpp:138-145 | on a 20x4 display the address never wraps: it is 0x80 plus row start plus column, and rows 2 and 3 continue rows 0 and 1 |
| Driver.CgramAddress | lib/src/lcd_i2c.cpp:152 | SET_CGRAM_ADDRESS OR `cell << 3` is `0x40 + 8 * cell` for cells 0-7 |
| Driver.LoadCustomChar | lib/src/lcd_i2c.cpp:146-159 | cell above 7: no writes; otherwise nine instruction writes, SET_CGRAM_ADDRESS for the cell, then each `char_map[i]` with bit 0 forced on, for rows 0-7 in order; the record is unchanged |
| Driver.ShowCgRam | lib/src/lcd_i2c.cpp:160-163 | one instruction write of `addr` with bit 0 forced on; the record is unchanged |
| Driver.SetOrClearMeaning | lib/src/lcd_i2c.cpp:166-173 | after OR-ing the flag in it reads set and after `&= ~flag` clear; repeating either changes nothing; on a field holding 0 or the flag the result is the flag or 0 |
| Driver.UpdateShadowMeaning | lib/src/lcd_i2c.cpp:164-251 | each toggle's record update does to the features exactly what the toggle means, leaves the entry fields alone, and keeps a valid record valid |
| Driver.SwitchFrame | lib/src/lcd_i2c.cpp:164-219 | a display, cursor, blink or backlight toggle writes only its own field, for any record |
| Driver.ShiftFrame | lib/src/lcd_i2c.cpp:220-251 | a shift writes only the direction and scope fields, for any record |
| Driver.UpdateShadowIdempotent | lib/src/lcd_i2c.cpp:164-251 | repeating a record update changes nothing |
| Driver.GroupCommandEncodes | lib/src/lcd_i2c.cpp:164-251 | on a valid record, DISPLAY_CONTROL OR screen, cursor and blink, and SHIFT OR direction and mode, are exactly the encodings of the record's features |
| Driver.UpdateShadowEncodes | lib/src/lcd_i2c.cpp:164-251 | from a valid record a toggle lands on the record of the new features, and its resend is the instruction encoding them |
| Driver.Control | lib/src/lcd_i2c.cpp:164-251 | each of the twelve toggles: the features change as the toggle means, a valid record stays the canonical one, the entry fields never change, and exactly one write resends the whole group, DISPLAY_CONTROL for display/cursor/blink/backlight and SHIFT for the shifts, with the new backlight bit |
| Driver.ControlIdempotent | lib/src/lcd_i2c.cpp:164-251 | applying a toggle twice gives the same record and the same bytes as applying it once |
| Driver.ClearDisplay | lib/src/lcd_i2c.cpp:253-259 | two writes: RETURN_HOME, then CLEAR_DISPLAY; the record is unchanged |
| Driver.ReturnHome | lib/src/lcd_i2c.cpp:260-264 | one write, CLEAR_DISPLAY; the record is unchanged |
| Driver.TextTraceSafe | lib/src/lcd_i2c.cpp:86-103 | text output never drives RW |
| Driver.GlyphTraceSafe | lib/src/lcd_i2c.cpp:146-159 | glyph loading never drives RW |
| Driver.Apply | lib/src/lcd_i2c.cpp:127-264 | any single public call keeps a valid record valid, never changes the entry fields, and never drives RW |
| Driver.SessionSafe | lib/src/lcd_i2c.cpp:127-264 | over any sequence of public calls the record stays valid, the entry fields keep their value, and RW is never driven |
| Driver.DriverLifetimeSafe | lib/src/lcd_i2c.cpp:8-264 | from construction on, whatever sequence of methods the caller calls, the entry mode stays increment without shift and no byte ever drives RW |
| Driver.LetterCBytes | lib/src/lcd_i2c.cpp:91-100 | with the backlight on, writing 'C' sends 0x4D 0x4D 0x49 0x3D 0x3D 0x39 |
| Driver.SessionOfTwo | lib/src/lcd_i2c.cpp:127-264 | two calls in a row send the first call's writes, then the second's, on the record the first leaves |
| Driver.ClearThenText | lib/src/lcd_i2c.cpp:131-137 | clearing and then printing a whole text sends the clear writes followed by one data write per byte |
| Driver.ClearThenTextDecodes | lib/src/lcd_i2c.cpp:253-259 | after a clear, a printed text reaches the controller as RETURN_HOME, CLEAR_DISPLAY, then each byte as data, in order |
| Driver.CounterScreenScenario | main.cpp:13-16 | the demo loop's body on the start-up features: seven writes, home, clear, then "C : 0" as data; 'C' on the wire is 0x4D 0x4D 0x49 0x3D 0x3D 0x39 |
| Findings.BlankGlyphRowClearsScreen | lib/src/lcd_i2c.cpp:155-158 | as written, every row of a blank glyph reaches the controller as CLEAR_DISPLAY |
| Findings.GlyphTraceIntended | lib/src/lcd_i2c.cpp:146-159 | corrected glyph load: SET_CGRAM_ADDRESS, then the eight rows as data writes of `char_map[i]`, in order |
| Findings.GlyphRowsDiffer | lib/src/lcd_i2c.cpp:146-159 | the corrected and the written glyph load agree on the address write; on every row the written load sends `row` with bit 0 set to the instruction register where the corrected one sends `row` as data, so no row write agrees |
| Findings.ShowGlyphZeroClearsScreen | lib/src/lcd_i2c.cpp:160-163 | as written, showing the glyph in cell 0 sends CLEAR_DISPLAY |
| Findings.ShowCgRamIntended | lib/src/lcd_i2c.cpp:160-163 | corrected `show_cg_ram`: a data write of the character code |
| Findings.ShowCgRamRegisters | lib/src/lcd_i2c.cpp:160-163 | the written version never reaches the data register, the corrected one always does, and the corrected one is `write_char` |
| Findings.ReturnHomeClearsScreen | lib/src/lcd_i2c.cpp:260-264 | as written, `return_home` sends CLEAR_DISPLAY and not RETURN_HOME |
| Findings.ReturnHomeIntended | lib/src/lcd_i2c.cpp:260-264 | corrected `return_home`: one RETURN_HOME instruction |
| Findings.ReturnHomeIntendedIsClearPrefix | lib/src/lcd_i2c.cpp:253-264 | the corrected `return_home` is the first write of `clear_display`, and the written one is its second |
| Findings.GlyphTraceIntendedSafe | lib/src/lcd_i2c.cpp:146-159 | the corrected glyph load never drives RW |
| Findings.ApplyIntended | lib/src/lcd_i2c.cpp:127-264 | a public call with the three corrections in place: the record is what the written call leaves, a valid record stays valid, RW is never driven, calls other than glyph load, `show_cg_ram` and `return_home` are unchanged, `return_home` sends RETURN_HOME, `show_cg_ram` writes its code as data, and the glyph load sends the corrected rows |

The twelve toggles are one function, `Driver.Control`, over
`ControlOp = Switch(feature, on) | Shift(display, right)`:

- `display_on`/`display_off` are `Switch(Screen, true/false)`.
- `cursor_on`/`cursor_off` are `Switch(Cursor, true/false)`.
- `blink_on`/`blink_off` are `Switch(Blink, true/false)`.
- `backlight_on`/`backlight_off` are `Switch(Backlight, true/false)`.
- `cursor_shift_left`/`cursor_shift_right` are `Shift(false, false/true)`.
- `display_shift_left`/`display_shift_right` are `Shift(true, false/true)`.

## Left out

- Direct writes to the public members `lcd_status` and `config` (lib/inc/lcd_i2c.hpp:89-92) are not requests. `Driver.SessionSafe` and `Driver.DriverLifetimeSafe` assume the record changes only through the methods. A caller that stores, say, 0x02 in `backlight_status` makes every later write drive RW until the next `backlight_on` or `backlight_off`, which assign the field before resending (lib/src/lcd_i2c.cpp:208, 215). Every operation is still modelled for an arbitrary record, so such a record can be fed to any of them.
- `usleep` delays: they are wall-clock timing, not logic, and the model has no clock.
- `write_bytes_i2c` (`open`, `ioctl(I2C_SLAVE)`, `write`, `close`, with every failure ignored) is modelled only as appending its bytes to the trace. A failed write is invisible to the driver, so the record is the same either way.
- The configuration's device path and slave address are used only by the transport. Its lines and columns are stored but never read.
- `main.cpp`'s endless loop, `sprintf` and `strlen`. One pass of the loop body, for the counter value 0, is `Driver.CounterScreenScenario`.
- The mismatches between header and implementation signatures (`write_char` and `set_cursor_position` take `char`, `load_custom_char` and `show_cg_ram` are not declared) and the signedness of `char`: every byte is modelled as an unsigned `bv8`.
- Driver.SetCursorPosition: requires `line < 4`, because the code indexes its four-entry row table with `line` unchecked, and a larger row reads past the array.
- Driver.PrintString: requires `length` to be at most the number of bytes supplied, because the code reads `data[i]` for every `i < length` without a bound.
- Driver.LoadCustomChar: requires eight rows for a cell of 0-7, because the code reads `char_map[0..7]` unchecked.
- Driver.Control: states the exact group byte only for a valid record (every field 0 or its flag). From any other record the recombined byte can carry stray bits, and the contract then states only the feature reading, the unchanged entry fields and the single write. The per-field frame for any record is stated by `Driver.SwitchFrame` and `Driver.ShiftFrame`.

## Findings

| source | as written | input that shows it | evidently intended | confidence | as-written member | corrected member |
|---|---|---|---|---|---|---|
| lib/src/lcd_i2c.cpp:155-158 | glyph rows are sent with `write_command(LCD_RS_BIT, row)`, which ORs RS into an instruction byte | cell 0 with all eight rows 0x00: each row is the instruction 0x01, CLEAR_DISPLAY | rows written to the data register (RS line high) so that they land in CGRAM | high; not executed | Findings.BlankGlyphRowClearsScreen | Findings.GlyphTraceIntended |
| lib/src/lcd_i2c.cpp:160-163 | `show_cg_ram(addr)` is `write_command(LCD_RS_BIT, addr)` | `addr` 0 (the glyph in cell 0) is sent as the instruction 0x01, CLEAR_DISPLAY | the character code written to the data register, as `write_char` does (inferred from the name only) | medium; not executed | Findings.ShowGlyphZeroClearsScreen | Findings.ShowCgRamIntended |
| lib/src/lcd_i2c.cpp:260-264 | `return_home` sends LCD_CLEAR_DISPLAY | any call: the screen is erased | a single RETURN_HOME (0x02), which homes the cursor and keeps the text | medium; not executed | Findings.ReturnHomeClearsScreen | Findings.ReturnHomeIntended |
