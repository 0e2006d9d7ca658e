/**
 * The OpenLASIR application-layer packet schema of the Python port
 * (openlasir_utils.py): the colour and mode tables, and the codec between
 * (block id, device id, mode, data) and the (address, command) pair sent on
 * the wire. Raised `ValueError`s are `Err` results.
 */
module Packet {
  import opened Wrappers
  import opened Bits

  datatype Rgb = Rgb(r: int, g: int, b: int)

  /** COLOR_NUM_TO_RGB */
  const ColorNumToRgb: map<int, Rgb> := map[
    0 := Rgb(0, 255, 255), 1 := Rgb(255, 0, 255), 2 := Rgb(255, 255, 0), 3 := Rgb(0, 255, 0),
    4 := Rgb(255, 0, 0), 5 := Rgb(0, 0, 255), 6 := Rgb(255, 165, 0), 7 := Rgb(255, 255, 255)]

  /** COLOR_NAME_TO_NUM */
  const ColorNameToNum: map<string, int> := map[
    "Cyan" := 0, "Magenta" := 1, "Yellow" := 2, "Green" := 3,
    "Red" := 4, "Blue" := 5, "Orange" := 6, "White" := 7]

  /** COLOR_NUM_TO_NAME, built in the source by swapping the pairs of COLOR_NAME_TO_NUM. */
  const ColorNumToName: map<int, string> := map[
    0 := "Cyan", 1 := "Magenta", 2 := "Yellow", 3 := "Green",
    4 := "Red", 5 := "Blue", 6 := "Orange", 7 := "White"]

  /** MODE_NUM_TO_NAME: modes 11 to 31 are reserved and have no name. */
  const ModeNumToName: map<int, string> := map[
    0 := "laser_tag_fire",
    1 := "user_presence_announcement",
    2 := "base_station_presence_announcement",
    3 := "user_to_user_handshake_initiation",
    4 := "user_to_user_handshake_response",
    5 := "user_to_base_station_handshake_initiation",
    6 := "user_to_base_station_handshake_response",
    7 := "base_station_to_user_handshake_initiation",
    8 := "base_station_to_user_handshake_response",
    9 := "color_set_temporary",
    10 := "color_set_permanent"]

  /** NAME_TO_MODE_NUM, built in the source by swapping the pairs of MODE_NUM_TO_NAME. */
  const NameToModeNum: map<string, int> := map[
    "laser_tag_fire" := 0,
    "user_presence_announcement" := 1,
    "base_station_presence_announcement" := 2,
    "user_to_user_handshake_initiation" := 3,
    "user_to_user_handshake_response" := 4,
    "user_to_base_station_handshake_initiation" := 5,
    "user_to_base_station_handshake_response" := 6,
    "base_station_to_user_handshake_initiation" := 7,
    "base_station_to_user_handshake_response" := 8,
    "color_set_temporary" := 9,
    "color_set_permanent" := 10]

  /** An argument that may be given as a table name (`str`) or as a number (`int`). */
  datatype Arg = Name(name: string) | Number(value: int)

  /** The `ValueError`s the codec raises, one per raise site. */
  datatype ValueError =
    | InvalidModeName | InvalidModeNumber | InvalidDataName | InvalidDataNumber
    | BlockIdRange | DeviceIdRange | ModeRange | DataRange
    | InvalidColor | InvalidColorNumber
    | NotLaserTagFire(mode: int)

  /** A decoded general packet: `(block_id, device_id, mode_name, data)`. */
  datatype General = General(blockId: int, deviceId: int, modeName: string, data: int)

  /** A decoded laser-tag fire packet: `(block_id, device_id, color_name, color_rgb)`. */
  datatype Fire = Fire(blockId: int, deviceId: int, colorName: string, colorRgb: Option<Rgb>)

  // ---------------------------------------------------------------------------
  // Decimal rendering, for the synthesized "unknown_mode_N" labels
  // ---------------------------------------------------------------------------

  /** Python's `str(n)` for a non-negative integer. */
  function DecimalString(n: nat): (s: string)
    ensures |s| >= 1 && forall i :: 0 <= i < |s| ==> '0' <= s[i] <= '9'
  {
    var last := ('0' as int + n % 10) as char;
    if n < 10 then [last] else DecimalString(n / 10) + [last]
  }

  /** The number a string of decimal digits denotes. */
  function DecimalValue(s: string): int
  {
    if s == [] then 0 else 10 * DecimalValue(s[..|s| - 1]) + (s[|s| - 1] as int - '0' as int)
  }

  lemma {:induction false} DecimalRoundTrip(n: nat)
    ensures DecimalValue(DecimalString(n)) == n
  {
    var s := DecimalString(n);
    if n >= 10 {
      DecimalRoundTrip(n / 10);
      assert s[..|s| - 1] == DecimalString(n / 10);
    }
  }

  // ---------------------------------------------------------------------------
  // Field extraction
  // ---------------------------------------------------------------------------

  /** `(command >> 8) & 0x1F`: command bits 8 to 12. */
  function ModeField(command: int): (m: nat)
    ensures m < 0x20
  {
    (command / 0x100) % 0x20
  }

  /** `(command >> 13) & 0x07`: command bits 13 to 15. */
  function DataField(command: int): (x: nat)
    ensures x < 8
  {
    (command / 0x2000) % 8
  }

  /** No mode name starts like the synthesized "unknown_mode_N" labels. */
  lemma UnknownIsNotAModeName(s: string)
    requires |s| >= 2 && s[0] == 'u' && s[1] == 'n'
    ensures s !in NameToModeNum
  {
    forall k | k in NameToModeNum
      ensures k[0] != 'u' || k[1] != 'n'
    {
    }
  }

  /** `MODE_NUM_TO_NAME.get(mode, f"unknown_mode_{mode}")` */
  function ModeName(mode: nat): (s: string)
    ensures mode in ModeNumToName ==> s == ModeNumToName[mode]
    ensures mode !in ModeNumToName ==> s == "unknown_mode_" + DecimalString(mode)
    ensures s in NameToModeNum <==> mode in ModeNumToName
  {
    if mode in ModeNumToName then ModeNumToName[mode]
    else
      var s := "unknown_mode_" + DecimalString(mode);
      UnknownIsNotAModeName(s);
      s
  }

  // ---------------------------------------------------------------------------
  // Tables
  // ---------------------------------------------------------------------------

  /** The colour tables are mutual inverses, and all eight 3-bit values are named and coloured. */
  lemma ColorTablesInverse()
    ensures forall n :: n in ColorNumToName ==> ColorNumToName[n] in ColorNameToNum && ColorNameToNum[ColorNumToName[n]] == n
    ensures forall s :: s in ColorNameToNum ==> ColorNameToNum[s] in ColorNumToName && ColorNumToName[ColorNameToNum[s]] == s
    ensures forall n :: 0 <= n < 8 <==> n in ColorNumToName
    ensures forall n :: 0 <= n < 8 <==> n in ColorNumToRgb
  {
  }

  /** The mode tables are mutual inverses over the named modes 0 to 10. */
  lemma ModeTablesInverse()
    ensures forall n :: n in ModeNumToName ==> ModeNumToName[n] in NameToModeNum && NameToModeNum[ModeNumToName[n]] == n
    ensures forall s :: s in NameToModeNum ==> NameToModeNum[s] in ModeNumToName && ModeNumToName[NameToModeNum[s]] == s
    ensures forall n :: 0 <= n <= 10 <==> n in ModeNumToName
  {
  }

  /** Distinct mode numbers get distinct names, reserved ones included. */
  lemma ModeNameInjective(m1: nat, m2: nat)
    requires ModeName(m1) == ModeName(m2)
    ensures m1 == m2
  {
    if m1 in ModeNumToName && m2 in ModeNumToName {
      ModeTablesInverse();
    } else if m1 !in ModeNumToName && m2 !in ModeNumToName {
      var p := "unknown_mode_";
      assert DecimalString(m1) == ModeName(m1)[|p|..];
      assert DecimalString(m2) == ModeName(m2)[|p|..];
      DecimalRoundTrip(m1);
      DecimalRoundTrip(m2);
    }
  }

  // ---------------------------------------------------------------------------
  // Encoding
  // ---------------------------------------------------------------------------

  /** The `mode` argument of `encode_general_packet`: a name from NAME_TO_MODE_NUM or a number in [0, 31]. */
  function ResolveMode(mode: Arg): (r: Result<int, ValueError>)
    ensures r.Ok? <==> (mode.Name? && mode.name in NameToModeNum) || (mode.Number? && 0 <= mode.value <= 31)
    ensures r.Ok? ==> 0 <= r.value <= 31
    ensures r.Ok? && mode.Number? ==> r.value == mode.value
    ensures r.Ok? && mode.Name? ==> r.value in ModeNumToName && ModeNumToName[r.value] == mode.name
    ensures r.Err? ==> r.error == if mode.Name? then InvalidModeName else InvalidModeNumber
  {
    match mode
    case Name(n) => if n in NameToModeNum then Ok(NameToModeNum[n]) else Err(InvalidModeName)
    case Number(k) => if 0 <= k <= 31 then Ok(k) else Err(InvalidModeNumber)
  }

  /** The `data` argument of `encode_general_packet`: a colour name or a number in [0, 7]. */
  function ResolveData(data: Arg): (r: Result<int, ValueError>)
    ensures r.Ok? <==> (data.Name? && data.name in ColorNameToNum) || (data.Number? && 0 <= data.value <= 7)
    ensures r.Ok? ==> 0 <= r.value <= 7
    ensures r.Ok? && data.Number? ==> r.value == data.value
    ensures r.Ok? && data.Name? ==> r.value in ColorNumToName && ColorNumToName[r.value] == data.name
    ensures r.Err? ==> r.error == if data.Name? then InvalidDataName else InvalidDataNumber
  {
    match data
    case Name(n) => if n in ColorNameToNum then Ok(ColorNameToNum[n]) else Err(InvalidDataName)
    case Number(k) => if 0 <= k <= 7 then Ok(k) else Err(InvalidDataNumber)
  }

  /** `(data << 13) | (mode << 8) | device_id`: the three fields occupy disjoint bits, so the OR is a sum. */
  function PackCommand(data: nat, mode: nat, deviceId: nat): (c: nat)
    requires data < 8 && mode < 0x20 && deviceId < 0x100
    ensures c == data * 0x2000 + mode * 0x100 + deviceId
    ensures c < 0x1_0000
  {
    Pow2Constants();
    OrDisjoint(data, mode * 0x100, 13);
    OrDisjoint(data * 0x20 + mode, deviceId, 8);
    Or(Or(data * Pow2(13), mode * Pow2(8)), deviceId)
  }

  /**
   * `encode_general_packet`: the address is the block id and the command packs
   * data, mode and device id. Mode is checked first, then data, then the two
   * ids; nothing is returned when a check fails.
   */
  function EncodeGeneral(blockId: int, deviceId: int, mode: Arg, data: Arg): (r: Result<(int, int), ValueError>)
    ensures r.Ok? <==> ResolveMode(mode).Ok? && ResolveData(data).Ok? && 0 <= blockId <= 255 && 0 <= deviceId <= 255
    ensures ResolveMode(mode).Err? ==> r == Err(ResolveMode(mode).error)
    ensures ResolveMode(mode).Ok? && ResolveData(data).Err? ==> r == Err(ResolveData(data).error)
    ensures ResolveMode(mode).Ok? && ResolveData(data).Ok? && !(0 <= blockId <= 255) ==> r == Err(BlockIdRange)
    ensures ResolveMode(mode).Ok? && ResolveData(data).Ok? && 0 <= blockId <= 255 && !(0 <= deviceId <= 255) ==> r == Err(DeviceIdRange)
    ensures r.Ok? ==> r.value.0 == blockId
    ensures r.Ok? ==> r.value.1 == ResolveData(data).value * 0x2000 + ResolveMode(mode).value * 0x100 + deviceId
    ensures r.Ok? ==> 0 <= r.value.1 < 0x1_0000
  {
    var m :- ResolveMode(mode);
    var x :- ResolveData(data);
    if !(0 <= blockId <= 255) then Err(BlockIdRange)
    else if !(0 <= deviceId <= 255) then Err(DeviceIdRange)
    else if !(0 <= m <= 31) then Err(ModeRange)
    else if !(0 <= x <= 7) then Err(DataRange)
    else Ok((blockId, PackCommand(x, m, deviceId)))
  }

  /** The name "laser_tag_fire" resolves to mode 0. */
  lemma LaserTagFireMode()
    ensures ResolveMode(Name("laser_tag_fire")) == Ok(0)
  {
    assert NameToModeNum["laser_tag_fire"] == 0;
  }

  /** The `color` argument of `encode_laser_tag_fire_packet`: a colour name or a number in [0, 7]. */
  function ResolveColor(color: Arg): (r: Result<int, ValueError>)
    ensures r.Ok? <==> ResolveData(color).Ok?
    ensures r.Ok? ==> r.value == ResolveData(color).value
    ensures r.Ok? ==> r.value in ColorNumToName && r.value in ColorNumToRgb
    ensures r.Err? ==> r.error == if color.Name? then InvalidColor else InvalidColorNumber
  {
    match color
    case Name(n) => if n in ColorNameToNum then Ok(ColorNameToNum[n]) else Err(InvalidColor)
    case Number(k) => if 0 <= k <= 7 then Ok(k) else Err(InvalidColorNumber)
  }

  /** `encode_laser_tag_fire_packet`: a general packet in mode "laser_tag_fire" carrying the colour. */
  function EncodeLaserTagFire(blockId: int, deviceId: int, color: Arg): (r: Result<(int, int), ValueError>)
    ensures ResolveColor(color).Err? ==> r == Err(ResolveColor(color).error)
    ensures ResolveColor(color).Ok? ==> r == EncodeGeneral(blockId, deviceId, Number(0), Number(ResolveColor(color).value))
  {
    var c :- ResolveColor(color);
    LaserTagFireMode();
    EncodeGeneral(blockId, deviceId, Name("laser_tag_fire"), Number(c))
  }

  // ---------------------------------------------------------------------------
  // Decoding
  // ---------------------------------------------------------------------------

  /**
   * `decode_packet_general`: total on all integers. The mode number always
   * gets a label, the synthesized "unknown_mode_N" for the reserved modes.
   */
  function DecodeGeneral(address: int, command: int): (r: General)
    ensures 0 <= r.blockId < 0x100 && 0 <= r.deviceId < 0x100 && 0 <= r.data < 8
    ensures r.blockId == address % 0x100 && r.deviceId == command % 0x100
    ensures 0 <= address < 0x100 ==> r.blockId == address
    ensures command % 0x1_0000 == r.data * 0x2000 + ModeField(command) * 0x100 + r.deviceId
    ensures r.modeName == ModeName(ModeField(command))
  {
    FieldsReassemble(command);
    General(address % 0x100, command % 0x100, ModeName(ModeField(command)), DataField(command))
  }

  /** The three command fields together are the low 16 bits of the command. */
  lemma FieldsReassemble(command: int)
    ensures command % 0x1_0000 == DataField(command) * 0x2000 + ModeField(command) * 0x100 + command % 0x100
  {
    Pow2Constants();
    var lo, q := command % 0x100, command / 0x100;
    var m, q' := q % 0x20, q / 0x20;
    var x := q' % 8;
    ModPow2Step(command, 15);
    assert command / 0x2000 == q' by {
      DivModUnique(command, 0x2000, q', m * 0x100 + lo);
    }
    DivModUnique(command, 0x1_0000, q' / 8, x * 0x2000 + m * 0x100 + lo);
  }

  /**
   * `decode_packet_laser_tag_fire`: refuses any mode but 0; otherwise looks
   * the 3-bit data field up as a colour, which always succeeds.
   */
  function DecodeLaserTagFire(address: int, command: int): (r: Result<Fire, ValueError>)
    ensures r.Err? <==> ModeField(command) != 0
    ensures r.Err? ==> r.error == NotLaserTagFire(ModeField(command))
    ensures r.Ok? ==> r.value.blockId == address % 0x100 && r.value.deviceId == command % 0x100
    ensures r.Ok? ==> r.value.blockId == DecodeGeneral(address, command).blockId
    ensures r.Ok? ==> r.value.deviceId == DecodeGeneral(address, command).deviceId
    ensures r.Ok? ==> DataField(command) in ColorNumToName && r.value.colorName == ColorNumToName[DataField(command)]
    ensures r.Ok? ==> DataField(command) in ColorNumToRgb && r.value.colorRgb == Some(ColorNumToRgb[DataField(command)])
  {
    var mode := ModeField(command);
    var data := DataField(command);
    if mode != 0 then Err(NotLaserTagFire(mode))
    else
      var name := if data in ColorNumToName then ColorNumToName[data] else "unknown_color_" + DecimalString(data);
      var rgb := if data in ColorNumToRgb then Some(ColorNumToRgb[data]) else None;
      Ok(Fire(address % 0x100, command % 0x100, name, rgb))
  }

  // ---------------------------------------------------------------------------
  // Round trips
  // ---------------------------------------------------------------------------

  /** Decoding an encoded packet gives back the fields, the mode as its name. */
  lemma GeneralRoundTrip(blockId: int, deviceId: int, mode: Arg, data: Arg)
    requires EncodeGeneral(blockId, deviceId, mode, data).Ok?
    ensures var (address, command) := EncodeGeneral(blockId, deviceId, mode, data).value;
      var m := ResolveMode(mode).value;
      DecodeGeneral(address, command) == General(blockId, deviceId, ModeName(m), ResolveData(data).value)
    ensures var command := EncodeGeneral(blockId, deviceId, mode, data).value.1;
      ModeField(command) == ResolveMode(mode).value && DataField(command) == ResolveData(data).value
    ensures mode.Name? ==>
      DecodeGeneral(blockId, EncodeGeneral(blockId, deviceId, mode, data).value.1).modeName == mode.name
  {
    var command := EncodeGeneral(blockId, deviceId, mode, data).value.1;
    CommandFields(command, ResolveData(data).value, ResolveMode(mode).value, deviceId);
  }

  /** The fields of a command packed from in-range data, mode and device id. */
  lemma CommandFields(command: int, x: int, m: int, d: int)
    requires 0 <= x < 8 && 0 <= m < 0x20 && 0 <= d < 0x100
    requires command == x * 0x2000 + m * 0x100 + d
    ensures command % 0x100 == d && ModeField(command) == m && DataField(command) == x
  {
    DivModUnique(command, 0x100, x * 0x20 + m, d);
    DivModUnique(command, 0x2000, x, m * 0x100 + d);
    DivModUnique(command / 0x100, 0x20, x, m);
  }

  /** Every 8-bit address and 16-bit command is the encoding of its decoded fields. */
  lemma GeneralEncodeOfDecode(address: int, command: int)
    requires 0 <= address < 0x100 && 0 <= command < 0x1_0000
    ensures var r := DecodeGeneral(address, command);
      EncodeGeneral(r.blockId, r.deviceId, Number(ModeField(command)), Number(r.data)) == Ok((address, command))
  {
    var r := DecodeGeneral(address, command);
    assert command % 0x1_0000 == command;
    var e := EncodeGeneral(r.blockId, r.deviceId, Number(ModeField(command)), Number(r.data));
    assert e.Ok? && e.value.0 == address && e.value.1 == command;
  }

  /** The laser-tag fire encoder is the general encoder under the mode name "laser_tag_fire". */
  lemma LaserTagFireIsGeneral(blockId: int, deviceId: int, color: Arg)
    ensures EncodeLaserTagFire(blockId, deviceId, color).Ok? <==> EncodeGeneral(blockId, deviceId, Name("laser_tag_fire"), color).Ok?
    ensures EncodeLaserTagFire(blockId, deviceId, color).Ok? ==>
      EncodeLaserTagFire(blockId, deviceId, color) == EncodeGeneral(blockId, deviceId, Name("laser_tag_fire"), color)
  {
  }

  /** A fire packet decodes to its ids and to the colour's name and RGB triple. */
  lemma LaserTagFireRoundTrip(blockId: int, deviceId: int, color: Arg)
    requires EncodeLaserTagFire(blockId, deviceId, color).Ok?
    ensures var (address, command) := EncodeLaserTagFire(blockId, deviceId, color).value;
      var c := ResolveColor(color).value;
      DecodeLaserTagFire(address, command) == Ok(Fire(blockId, deviceId, ColorNumToName[c], Some(ColorNumToRgb[c])))
  {
    var c := ResolveColor(color).value;
    var command := EncodeGeneral(blockId, deviceId, Number(0), Number(c)).value.1;
    GeneralRoundTrip(blockId, deviceId, Number(0), Number(c));
    assert ModeField(command) == 0 && DataField(command) == c;
    ColorTablesInverse();
    var r := DecodeLaserTagFire(blockId, command);
    assert r.Ok? && r.value.blockId == blockId && r.value.deviceId == deviceId;
  }
}
