# OpenLASIR protocol codec in Dafny

OpenLASIR is an infrared packet protocol for laser-tag and similar
interactive devices. It is a modified NEC pulse-timing scheme. A packet is an
8-bit address and a 16-bit command, and the 16 address bits on the wire are
the address byte followed by its complement. This project models the codec
core of the repository and proves properties of the model:

- `packet.dfy` (module `Packet`) models the Python packet schema,
  `openlasir_utils.py`:
  - the colour and mode tables;
  - `encode_general_packet` and `encode_laser_tag_fire_packet`, with every
    `ValueError` as an `Err` result;
  - `decode_packet_general`, which is total;
  - `decode_packet_laser_tag_fire`, which refuses any mode but 0.
- `receiver.dfy` (module `Receiver`) models the MicroPython pulse-timing
  decoder, `micropython/ir_rx/openlasir.py`:
  - `Classify` is the classification of one captured burst, as a function;
  - `ReadValue` is the shift-and-OR bit loop;
  - class `Decoder` holds the `_addr` field, and its `Decode` method does
    what the callback receives.
- `transmitter.dfy` (module `Transmitter`) models the MicroPython pulse-timing
  encoder, `micropython/ir_tx/openlasir.py`:
  - class `Encoder` holds the pulse buffer;
  - `AppendBit` is `_bit`;
  - `Tx` is `tx`, whose two 16-turn loops share `SendWord`;
  - `Repeat` is `repeat`;
  - each is proved against the specification functions `DataFrame` and
    `RepeatFrame`.
- `link.dfy` (module `Link`) puts the encoder and decoder together. Pulse
  durations are turned into wrapping `ticks_us` timestamps. It proves that a
  data train sent by `tx` is classified back as a frame with the address's
  low byte and the data's low 16 bits. It also proves that a repeat code is
  answered with the remembered address.
- `arduino_utils.dfy` (module `ArduinoUtils`) models the C++ mirror,
  `arduino/OpenLASIR_Utils.h`:
  - it works on `bv8`/`bv16` fields;
  - the out-parameters are returned as tuples, and the RGB lookup returns an
    `Option`;
  - lemmas compare its tables with the Python ones.
- `bits.dfy` (module `Bits`) holds Python's unbounded-integer bit operations:
  - `&` with a mask is modelled as `%`;
  - `>>` is modelled as `/`;
  - `|` and `^` are the recursive functions `Or` and `Xor`;
  - the module also holds the lemmas about these operations.
- `wrappers.dfy` holds `Option` and `Result`.

The two ports disagree on the mode table, and each is modelled as written:

- The C++ table names 12 modes, the last being `general_interact`, and it
  answers "unknown" for the others.
- The Python table names modes 0 to 10, and it labels the others
  `unknown_mode_N`.

`ModeElevenDisagrees` and `UnknownModesDisagree` state this difference.

Three behaviours of the code worth noting:

- The Python encoder raises a separate `ValueError` at each of its raise
  sites. Its final `mode`/`data` range checks cannot fail once the arguments
  have resolved, and the model keeps them anyway.
- The encoder's `tx` masks the address to 8 bits and sends only the low 16
  bits of the data. It does not check the `valid` limits.
- `tx` appends to whatever the buffer already holds. Only `repeat` resets the
  buffer.

## Model

| member | source | states |
|---|---|---|
| Packet.DecimalString | openlasir_utils.py:109 | the decimal rendering `str(n)` of a natural number is non-empty and made of digits only |
| Packet.DecimalRoundTrip | openlasir_utils.py:109 | the decimal digits in an `unknown_mode_N` label read back as `N` |
| Packet.ModeField | openlasir_utils.py:106 | the mode field of any command lies in [0, 31] |
| Packet.DataField | openlasir_utils.py:107 | the data field of any command lies in [0, 7] |
| Packet.ModeName | openlasir_utils.py:109 | named modes get their table name; the others get `unknown_mode_` and their decimal number; the label is a mode name exactly when the mode is named |
| Packet.ColorTablesInverse | openlasir_utils.py:7-28 | name-to-number and number-to-name colour tables are mutual inverses; exactly the numbers 0 to 7 have a name and an RGB triple |
| Packet.ModeTablesInverse | openlasir_utils.py:30-44 | the two mode tables are mutual inverses; exactly modes 0 to 10 are named |
| Packet.ModeNameInjective | openlasir_utils.py:109 | two modes with the same label are the same mode, reserved ones included |
| Packet.ResolveMode | openlasir_utils.py:51-59 | a mode argument is accepted iff it is a known name or a number in [0, 31]; it then yields that number, or the number the name stands for; otherwise it yields the name or number error |
| Packet.ResolveData | openlasir_utils.py:61-69 | a data argument is accepted iff it is a colour name or a number in [0, 7]; it then yields that number, or the colour number; otherwise it yields the name or number error |
| Packet.PackCommand | openlasir_utils.py:81 | the OR of `data << 13`, `mode << 8` and `device_id` equals `data*0x2000 + mode*0x100 + device_id` and stays below 2^16 |
| Packet.EncodeGeneral | openlasir_utils.py:46-83 | succeeds iff mode and data resolve and both ids are in [0, 255]; reports the first failing check in source order; on success, address = block id and command = data·2^13 + mode·2^8 + device id < 2^16 |
| Packet.LaserTagFireMode | openlasir_utils.py:97 | the name the fire encoder passes resolves to mode 0 |
| Packet.ResolveColor | openlasir_utils.py:86-95 | a colour argument is accepted exactly when the same data argument would be, giving the same number, which always has a name and an RGB triple; otherwise it yields the colour errors |
| Packet.EncodeLaserTagFire | openlasir_utils.py:85-97 | a colour error is returned as such; otherwise the result is the general encoding with mode 0 and the colour number |
| Packet.DecodeGeneral | openlasir_utils.py:99-111 | total: the block id is `address & 0xFF` and the device id `command & 0xFF`, so both are bytes, and data is in [0, 7]; an 8-bit address is the block id; the fields reassemble the command's low 16 bits; the mode gets its label |
| Packet.FieldsReassemble | openlasir_utils.py:105-107 | the data, mode and device-id fields of any command add back up to its low 16 bits |
| Packet.DecodeLaserTagFire | openlasir_utils.py:114-131 | fails iff the mode field is non-zero, reporting that mode; otherwise the block id is `address & 0xFF` and the device id `command & 0xFF`, as in the general decode, and the colour name and RGB come from the tables, which always contain the data field |
| Packet.CommandFields | openlasir_utils.py:105-107 | a command packed from in-range data, mode and device id gives back each of the three in its field |
| Packet.GeneralRoundTrip | openlasir_utils.py:80-111 | decoding a successful encoding gives back block id, device id, the mode's label and the data; a mode given by name decodes to that name |
| Packet.GeneralEncodeOfDecode | openlasir_utils.py:80-107 | every 8-bit address and 16-bit command is the encoding of its own decoded fields |
| Packet.LaserTagFireIsGeneral | openlasir_utils.py:85-97 | the fire encoder succeeds exactly when the general encoder, called with mode "laser_tag_fire" and the same colour, succeeds, and then the two agree |
| Packet.LaserTagFireRoundTrip | openlasir_utils.py:85-131 | a fire packet decodes to its block id, its device id, and its colour's name and RGB triple |
| Receiver.TicksDiff | micropython/ir_rx/openlasir.py:24 | the tick difference is in [-2^29, 2^29), and it is the plain difference `end - start` whenever that lies in [-2^29, 2^29) |
| Receiver.Gap | micropython/ir_rx/openlasir.py:24-37 | the measured time between two adjacent edges is in [-2^29, 2^29), and it is their plain difference whenever that lies in the same range |
| Receiver.SpaceBits | micropython/ir_rx/openlasir.py:35-38 | bit `i` is set exactly when the space after edge `3 + 2i` exceeds 1120 us |
| Receiver.AddressValid | micropython/ir_rx/openlasir.py:45 | the address check passes iff the second byte of the value is the complement of the first |
| Receiver.Classify | micropython/ir_rx/openlasir.py:20-48 | Overrun iff more than 68 edges; BadStart, BadBlock and BadRep iff their timing conditions hold; Repeat iff 4 edges with a long mark and a 1700-3000 us space; BadAddr or Frame, over all 68 edges, iff the address check fails or passes; a frame's address is a byte and its command 16 bits |
| Receiver.Value | micropython/ir_rx/openlasir.py:34-38 | the value a full burst carries is below 2^32 |
| Receiver.ValueSplit | micropython/ir_rx/openlasir.py:43-48 | the address, its check byte and the command are the words of space bits 0-7, 8-15 and 16-31 |
| Receiver.FrameFields | micropython/ir_rx/openlasir.py:43-49 | an accepted frame passed the check and carries `val & 0xff` and `(val >> 16) & 0xffff` |
| Receiver.AddressBits | micropython/ir_rx/openlasir.py:35-46 | when the check passes, address bit `i` is set iff the space after edge `3 + 2i` is long, and iff the space after edge `19 + 2i` is short |
| Receiver.CommandBits | micropython/ir_rx/openlasir.py:35-48 | bit `i` of the command field is set iff the space after edge `35 + 2i` is long |
| Receiver.FrameAddressBits | micropython/ir_rx/openlasir.py:35-49 | in an accepted frame, address bit `i` is set iff space `i` is long, and iff its check space is short |
| Receiver.FrameCommandBits | micropython/ir_rx/openlasir.py:35-49 | in an accepted frame, command bit `i` is set iff the space after edge `35 + 2i` is long |
| Receiver.OrTopBit | micropython/ir_rx/openlasir.py:38 | setting bit 31 with an OR adds the top bit to an accumulator below it |
| Receiver.ReadStep | micropython/ir_rx/openlasir.py:36-38 | one turn of the loop shifts the first `j` bits down and puts bit `j` on top |
| Receiver.AccumulatedAll | micropython/ir_rx/openlasir.py:34-38 | after 32 turns the accumulator is the value of the space bits, the first bit read being the lowest |
| Receiver.ReadValue | micropython/ir_rx/openlasir.py:34-38 | the loop over edges 3, 5, ..., 65 computes the value of the 32 space bits |
| Receiver.Decoder.constructor | micropython/ir_rx/openlasir.py:15-18 | a new decoder remembers address 0 |
| Receiver.Decoder.Decode | micropython/ir_rx/openlasir.py:20-54 | a frame reports its command and address and becomes the remembered address; a repeat reports the remembered address; any other error reports address 0; errors leave the remembered address alone |
| Transmitter.Cell | micropython/ir_tx/openlasir.py:21 | `_bit(b)` emits two durations: a 563 us mark, then a 1687 us space iff `b` is non-zero and a 563 us space iff it is zero |
| Transmitter.Cells | micropython/ir_tx/openlasir.py:28-34 | `n` turns of the bit loop emit `2n` durations |
| Transmitter.CellsAt | micropython/ir_tx/openlasir.py:20-30 | cell `k` is a 563 us mark followed by 1687 us if bit `k` is set, 563 us otherwise |
| Transmitter.CellsLowBits | micropython/ir_tx/openlasir.py:32-34 | only the low `n` bits of a value reach `n` cells |
| Transmitter.AddressWord | micropython/ir_tx/openlasir.py:26-27 | the widened address is a 16-bit word |
| Transmitter.WidenValue | micropython/ir_tx/openlasir.py:26-27 | ORing a byte with its complement shifted up by 8 is the byte followed by its complement |
| Transmitter.Train | micropython/ir_tx/openlasir.py:23-35 | a train is 67 durations: the 9000/4500 header, 64 bit-cell durations, and the 563 us stop mark |
| Transmitter.DataFrame | micropython/ir_tx/openlasir.py:23-35 | a data train is 67 durations, fits the 68-entry buffer, starts 9000/4500 and ends with a 563 us stop mark |
| Transmitter.DataFrameAddressCell | micropython/ir_tx/openlasir.py:26-30 | address cell `k` carries bit `k` of the widened address |
| Transmitter.DataFrameDataCell | micropython/ir_tx/openlasir.py:32-34 | data cell `k` carries bit `k` of the data |
| Transmitter.DataFrameLowBits | micropython/ir_tx/openlasir.py:23-35 | address bits above 8 and data bits above 16 do not change the train |
| Transmitter.RepeatFrame | micropython/ir_tx/openlasir.py:39 | the repeat code is 9000, 2250, 563 |
| Transmitter.Encoder.constructor | micropython/ir_tx/openlasir.py:17-18 | a new encoder has an empty buffer |
| Transmitter.Encoder.AppendBit | micropython/ir_tx/openlasir.py:20-21 | `_bit(b)` appends one cell for `b` |
| Transmitter.Encoder.SendWord | micropython/ir_tx/openlasir.py:28-30 | the 16-turn loop appends the 16 cells of its word |
| Transmitter.Encoder.Tx | micropython/ir_tx/openlasir.py:23-35 | `tx` appends exactly the data train for its address and data |
| Transmitter.Encoder.Repeat | micropython/ir_tx/openlasir.py:37-39 | after `repeat` the buffer holds exactly the repeat code |
| Link.Stamps | micropython/ir_rx/openlasir.py:24 | a train of `n` durations yields `n + 1` edge timestamps |
| Link.WrapGap | micropython/ir_rx/openlasir.py:24 | `ticks_diff` recovers any duration under half the tick period, across a wrap of the counter |
| Link.StampsGap | micropython/ir_rx/openlasir.py:37 | the decoder measures between edges `k` and `k + 1` exactly the `k`-th duration sent |
| Link.GapPrefix | micropython/ir_rx/openlasir.py:24-27 | stale buffer entries after the captured edges do not change the gaps among them |
| Link.FrameSpaceBits | micropython/ir_tx/openlasir.py:23-35 | the space bits of a received data train are the widened address's bits, then the data's |
| Link.FrameValue | micropython/ir_rx/openlasir.py:34-38 | the value read from a data train is the widened address plus 2^16 times the data's low 16 bits |
| Link.FrameWordFields | micropython/ir_rx/openlasir.py:43-48 | a word made of an address byte, its complement and 16 data bits yields those three as `val & 0xff`, `(val >> 8) & 0xff` and `(val >> 16) & 0xffff` |
| Link.FrameRoundTrip | micropython/ir_rx/openlasir.py:20-48 | a data train sent by `tx(addr, data)` has 68 edges and is classified as the frame (addr & 0xff, data & 0xffff) |
| Link.RepeatRoundTrip | micropython/ir_rx/openlasir.py:39-40 | a repeat code sent by `repeat()` is classified as Repeat, whatever stale entries follow its four edges |
| Link.SendFrame | micropython/ir_rx/openlasir.py:43-49 | a frame sent from an empty buffer reaches the callback as its data and address byte, the decoder remembers the address, and the encoder's buffer holds exactly the data train |
| Link.SendRepeat | micropython/ir_rx/openlasir.py:50-52 | a repeat code reaches the callback as REPEAT with the remembered address, the remembered address is unchanged, and the encoder's buffer holds exactly the repeat code |
| Link.ExchangeThenRepeat | micropython/ir_rx/openlasir.py:20-54 | a fresh encoder/decoder pair delivers a data frame and then a repeat carrying the same address |
| ArduinoUtils.EncodeGeneralPacket | arduino/OpenLASIR_Utils.h:147-154 | address is the block id; command bits 0-7 are the device id, bits 8-12 the mode masked to 5 bits, bits 13-15 the data masked to 3 bits |
| ArduinoUtils.CommandIsSum | arduino/OpenLASIR_Utils.h:151-153 | the OR of the three shifted fields equals their weighted sum |
| ArduinoUtils.EncodeLaserTagFire | arduino/OpenLASIR_Utils.h:165-171 | address is the block id; command bits 0-7 are the device id, the mode field bits 8-12 are 0, and bits 13-15 are the colour's low 3 bits |
| ArduinoUtils.EncodeIsSum | arduino/OpenLASIR_Utils.h:147-154 | for mode < 32 and data < 8 the command is the 16-bit sum data·2^13 + mode·2^8 + device id |
| ArduinoUtils.SumAsInt | arduino/OpenLASIR_Utils.h:151-153 | that 16-bit sum of in-range fields does not wrap, so as an integer it is the integer sum of the fields |
| ArduinoUtils.EncodeAgrees | arduino/OpenLASIR_Utils.h:147-154 | for mode < 32 and data < 8 the C++ command, read as an integer, equals the Python port's packed command |
| ArduinoUtils.DecodeGeneralPacket | arduino/OpenLASIR_Utils.h:184-191 | block id is the address; mode < 32 and data < 8; the fields reassemble the command |
| ArduinoUtils.DecodeLaserTagFire | arduino/OpenLASIR_Utils.h:203-207 | the packet is always the general decode; the flag is true iff the command's mode field is 0 |
| ArduinoUtils.DecodeEncode | arduino/OpenLASIR_Utils.h:147-191 | decoding an encoding gives back block id, device id, mode & 0x1F and data & 7 |
| ArduinoUtils.LaserTagFireRoundTrip | arduino/OpenLASIR_Utils.h:165-207 | a fire packet decodes, with the fire flag set, to its block id, device id, mode 0 and the colour's low 3 bits |
| ArduinoUtils.EncodeDecode | arduino/OpenLASIR_Utils.h:147-191 | every 8-bit address and 16-bit command is the encoding of its decoded fields |
| ArduinoUtils.GetModeName | arduino/OpenLASIR_Utils.h:217-222 | the table entry for modes below 12; "unknown" iff the mode is 12 or more |
| ArduinoUtils.GetColorName | arduino/OpenLASIR_Utils.h:228-233 | the table entry for colours below 8; "unknown" iff the colour is 8 or more |
| ArduinoUtils.GetColorRgb | arduino/OpenLASIR_Utils.h:243-259 | a triple iff the colour is below 8, and then the table's triple |
| ArduinoUtils.ColorTablesAgree | arduino/OpenLASIR_Utils.h:69-87 | each of the eight colours has the same name and RGB triple in both ports |
| ArduinoUtils.ModeNamesAgree | arduino/OpenLASIR_Utils.h:108-119 | modes 0 to 10 have the same name in both ports |
| ArduinoUtils.ModeElevenDisagrees | arduino/OpenLASIR_Utils.h:103-120 | mode 11 is `general_interact` here and `unknown_mode_11` in the Python port |
| ArduinoUtils.UnknownModesDisagree | arduino/OpenLASIR_Utils.h:217-222 | modes 12 to 31 are "unknown" here, but the Python port labels them differently |

## Left out

- The `IR_RX` capture base class (edge interrupts, filling `_times` and
  `edge`, the 80 ms block timer) is not part of this model. `Decode` takes
  the timestamps and the edge count as parameters, and it returns the
  callback's first two arguments instead of calling `do_callback`.
- `Decode` requires at least 67 timestamps. The base class always allocates
  69 entries for 68 edges, so every call in the source meets this.
- The `IR` transmit base class (buffer allocation, `append` as a bound-checked
  array write, `aptr`, `trigger`, `busy`, carrier frequency, duty cycle) is
  not part of this model. The buffer is a sequence, `append` is
  concatenation, and `repeat` resetting `aptr` empties it. The `trigger()`
  call is not modelled.
- Transmitter.Encoder.Tx: `append` past the 68-entry buffer is not modelled.
  A single data train uses 67 entries, and `DataFrame` states that it fits.
- The `valid` limits tuple is recorded as constants only. It is read by the
  transmit base class, which is not part of this model.
- `ticks_us` wraps at a fixed period of 2^30. Wider ports are not covered.
- Receiver.Decoder.Decode: the base class's numeric values of the error
  constants are not modelled; they are an enumeration.
- Python's `isinstance` dispatch is a two-case `Arg` (name or number). The
  branch for arguments of other types, and `bool` passed as an integer, are
  not modelled.
- The text of the `ValueError` messages is not modelled, only which error is
  raised. This includes the message for an unknown mode name, which reports
  `None` because `mode` has just been overwritten.
- The "unknown_color_N" fallback and the `None` RGB of
  `decode_packet_laser_tag_fire` are modelled. `DecodeLaserTagFire` proves
  they cannot be reached.
- AVR `PROGMEM`/`memcpy_P` storage is a plain table lookup.
- `OpenLASIR_getColorRGB` leaving its outputs unassigned is modelled as
  `None`.
- The game loop in `examples/lasertag/main.py` (buttons, timers, fire-rate
  limiting) is not part of this model.
