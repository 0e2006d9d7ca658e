/**
 * The C++ mirror of the packet codec (arduino/OpenLASIR_Utils.h): the same
 * bit layout over fixed-width `uint8_t`/`uint16_t` fields, with masking in
 * place of the Python port's range errors, and index-based name and RGB
 * tables.
 */
module ArduinoUtils {
  import opened Wrappers
  import PyPacket = Packet

  /** `OPENLASIR_NUM_COLORS` and `OPENLASIR_NUM_DEFINED_MODES`. */
  const NumColors: bv8 := 8
  const NumDefinedModes: bv8 := 12

  /** `struct OpenLASIR_RGB` */
  datatype Rgb = Rgb(r: bv8, g: bv8, b: bv8)

  /** `OPENLASIR_COLOR_RGB`, indexed by colour number. */
  const ColorRgb: seq<Rgb> := [
    Rgb(0, 255, 255), Rgb(255, 0, 255), Rgb(255, 255, 0), Rgb(0, 255, 0),
    Rgb(255, 0, 0), Rgb(0, 0, 255), Rgb(255, 165, 0), Rgb(255, 255, 255)]

  /** `OPENLASIR_COLOR_NAMES`, indexed by colour number. */
  const ColorNames: seq<string> := ["Cyan", "Magenta", "Yellow", "Green", "Red", "Blue", "Orange", "White"]

  /** `OPENLASIR_MODE_NAMES`: twelve names, mode 11 being `general_interact`. */
  const ModeNames: seq<string> := [
    "laser_tag_fire",
    "user_presence_announcement",
    "base_station_presence_announcement",
    "user_to_user_handshake_initiation",
    "user_to_user_handshake_response",
    "user_to_base_station_handshake_initiation",
    "user_to_base_station_handshake_response",
    "base_station_to_user_handshake_initiation",
    "base_station_to_user_handshake_response",
    "color_set_temporary",
    "color_set_permanent",
    "general_interact"]

  /** `struct OpenLASIR_Packet` */
  datatype Packet = Packet(blockId: bv8, deviceId: bv8, mode: bv8, data: bv8)

  /**
   * `OpenLASIR_encodeGeneralPacket`, its two out-parameters returned as a
   * pair: mode and data are masked to 5 and 3 bits, never rejected.
   */
  function EncodeGeneralPacket(blockId: bv8, deviceId: bv8, mode: bv8, data: bv8): (r: (bv8, bv16))
    ensures r.0 == blockId
    ensures r.1 & 0xFF == deviceId as bv16
    ensures (r.1 >> 8) & 0x1F == (mode & 0x1F) as bv16
    ensures r.1 >> 13 == (data & 0x07) as bv16
  {
    (blockId, ((data & 0x07) as bv16 << 13) | ((mode & 0x1F) as bv16 << 8) | deviceId as bv16)
  }

  /** The three fields do not overlap, so the command is also their weighted sum, as in the Python port. */
  lemma CommandIsSum(deviceId: bv8, mode: bv8, data: bv8)
    ensures var d, m, x := deviceId as bv16, (mode & 0x1F) as bv16, (data & 0x07) as bv16;
      (x << 13) | (m << 8) | d == x * 0x2000 + m * 0x100 + d
  {
  }

  /** `OpenLASIR_encodeLaserTagFire`: the general encoder in mode 0, the colour as data. */
  function EncodeLaserTagFire(blockId: bv8, deviceId: bv8, color: bv8): (r: (bv8, bv16))
    ensures r.0 == blockId
    ensures r.1 & 0xFF == deviceId as bv16
    ensures (r.1 >> 8) & 0x1F == 0
    ensures r.1 >> 13 == (color & 0x07) as bv16
  {
    EncodeGeneralPacket(blockId, deviceId, 0, color)
  }

  /** `OpenLASIR_decodeGeneralPacket`: the three command fields and the address. */
  function DecodeGeneralPacket(address: bv8, command: bv16): (p: Packet)
    ensures p.blockId == address && p.mode < 0x20 && p.data < 8
    ensures (p.data as bv16 << 13) | (p.mode as bv16 << 8) | p.deviceId as bv16 == command
  {
    Packet(address, (command & 0xFF) as bv8, ((command >> 8) & 0x1F) as bv8, ((command >> 13) & 0x07) as bv8)
  }

  /**
   * `OpenLASIR_decodeLaserTagFire`: the packet is always filled in; the flag
   * says whether its mode is laser tag fire.
   */
  function DecodeLaserTagFire(address: bv8, command: bv16): (r: (Packet, bool))
    ensures r.0 == DecodeGeneralPacket(address, command)
    ensures r.1 <==> (command >> 8) & 0x1F == 0
  {
    var packet := DecodeGeneralPacket(address, command);
    (packet, packet.mode == 0)
  }

  /** Decoding an encoded packet gives back the fields, mode and data masked. */
  lemma DecodeEncode(blockId: bv8, deviceId: bv8, mode: bv8, data: bv8)
    ensures var (address, command) := EncodeGeneralPacket(blockId, deviceId, mode, data);
      DecodeGeneralPacket(address, command) == Packet(blockId, deviceId, mode & 0x1F, data & 0x07)
  {
    var (address, command) := EncodeGeneralPacket(blockId, deviceId, mode, data);
    var p := DecodeGeneralPacket(address, command);
    assert p.deviceId == deviceId;
    assert p.mode == mode & 0x1F;
    assert p.data == data & 0x07;
  }

  /** Every address and command is the encoding of its decoded fields. */
  lemma EncodeDecode(address: bv8, command: bv16)
    ensures var p := DecodeGeneralPacket(address, command);
      EncodeGeneralPacket(p.blockId, p.deviceId, p.mode, p.data) == (address, command)
  {
    var p := DecodeGeneralPacket(address, command);
    assert p.mode & 0x1F == p.mode && p.data & 0x07 == p.data;
  }

  /** A fire packet decodes, with the flag set, to its ids and the colour's low 3 bits. */
  lemma LaserTagFireRoundTrip(blockId: bv8, deviceId: bv8, color: bv8)
    ensures var (address, command) := EncodeLaserTagFire(blockId, deviceId, color);
      DecodeLaserTagFire(address, command) == (Packet(blockId, deviceId, 0, color & 0x07), true)
  {
    DecodeEncode(blockId, deviceId, 0, color);
  }

  /** `OpenLASIR_getModeName`: the table entry for the twelve defined modes, "unknown" beyond. */
  function GetModeName(mode: bv8): (s: string)
    ensures mode < NumDefinedModes ==> s == ModeNames[mode]
    ensures s == "unknown" <==> mode >= NumDefinedModes
  {
    if mode < NumDefinedModes then ModeNames[mode] else "unknown"
  }

  /** `OpenLASIR_getColorName`: the table entry for the eight colours, "unknown" beyond. */
  function GetColorName(color: bv8): (s: string)
    ensures color < NumColors ==> s == ColorNames[color]
    ensures s == "unknown" <==> color >= NumColors
  {
    if color < NumColors then ColorNames[color] else "unknown"
  }

  /**
   * `OpenLASIR_getColorRGB`: the triple for one of the eight colours; for any
   * other number the call returns false and leaves its outputs alone, here
   * `None`.
   */
  function GetColorRgb(color: bv8): (r: Option<Rgb>)
    ensures r.Some? <==> color < NumColors
    ensures r.Some? ==> r.value == ColorRgb[color]
  {
    if color >= NumColors then None else Some(ColorRgb[color])
  }

  // ---------------------------------------------------------------------------
  // Agreement with the Python port
  // ---------------------------------------------------------------------------

  /** Both ports name and colour the eight colours alike. */
  lemma ColorTablesAgree(c: bv8)
    requires c < NumColors
    ensures c as int in PyPacket.ColorNumToName && GetColorName(c) == PyPacket.ColorNumToName[c as int]
    ensures var rgb := GetColorRgb(c).value;
      c as int in PyPacket.ColorNumToRgb && PyPacket.ColorNumToRgb[c as int] == PyPacket.Rgb(rgb.r as int, rgb.g as int, rgb.b as int)
  {
  }

  /** Both ports name modes 0 to 10 alike. */
  lemma ModeNamesAgree(m: bv8)
    requires m < 11
    ensures GetModeName(m) == PyPacket.ModeName(m as int)
  {
  }

  /** Mode 11 is `general_interact` here, but is not in the Python table. */
  lemma ModeElevenDisagrees()
    ensures GetModeName(11) == "general_interact"
    ensures PyPacket.ModeName(11) == "unknown_mode_11"
  {
    assert PyPacket.DecimalString(11) == "11";
  }

  /** A mode past the table is "unknown" here but "unknown_mode_N" in the Python port. */
  lemma UnknownModesDisagree(m: bv8)
    requires 12 <= m < 0x20
    ensures GetModeName(m) == "unknown"
    ensures PyPacket.ModeName(m as int) != "unknown"
  {
    var s := PyPacket.ModeName(m as int);
    assert s[..8] == "unknown_";
  }

  /** Masking a field already in range leaves it alone. */
  lemma MaskInRange(mode: bv8, data: bv8)
    requires mode < 0x20 && data < 8
    ensures mode & 0x1F == mode && data & 0x07 == data
  {
  }

  /** Widening a byte keeps its value. */
  lemma WidenKeepsValue(v: bv8)
    ensures (v as bv16) as int == v as int
  {
  }

  /** A 16-bit sum of in-range fields does not wrap, so it is the integer sum. */
  lemma FieldSumNoWrap(x: bv16, m: bv16, d: bv16)
    requires x < 8 && m < 0x20 && d < 0x100
    ensures (x * 0x2000 + m * 0x100 + d) as int == x as int * 0x2000 + m as int * 0x100 + d as int
  {
  }

  /** For in-range fields the command is the 16-bit weighted sum of the unmasked fields. */
  lemma EncodeIsSum(blockId: bv8, deviceId: bv8, mode: bv8, data: bv8)
    requires mode < 0x20 && data < 8
    ensures EncodeGeneralPacket(blockId, deviceId, mode, data).1
      == (data as bv16) * 0x2000 + (mode as bv16) * 0x100 + deviceId as bv16
  {
    MaskInRange(mode, data);
    CommandIsSum(deviceId, mode, data);
  }

  /** The integer value of that sum, in terms of the byte fields. */
  lemma SumAsInt(c: bv16, deviceId: bv8, mode: bv8, data: bv8)
    requires mode < 0x20 && data < 8
    requires c == (data as bv16) * 0x2000 + (mode as bv16) * 0x100 + deviceId as bv16
    ensures c as int == data as int * 0x2000 + mode as int * 0x100 + deviceId as int
  {
    FieldSumNoWrap(data as bv16, mode as bv16, deviceId as bv16);
    WidenKeepsValue(deviceId);
    WidenKeepsValue(mode);
    WidenKeepsValue(data);
  }

  /** For in-range fields the C++ command is, as an integer, the Python port's packed command. */
  lemma EncodeAgrees(blockId: bv8, deviceId: bv8, mode: bv8, data: bv8)
    requires mode < 0x20 && data < 8
    ensures EncodeGeneralPacket(blockId, deviceId, mode, data).1 as int
      == PyPacket.PackCommand(data as int, mode as int, deviceId as int)
  {
    EncodeIsSum(blockId, deviceId, mode, data);
    SumAsInt(EncodeGeneralPacket(blockId, deviceId, mode, data).1, deviceId, mode, data);
  }
}
