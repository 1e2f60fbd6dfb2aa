/** Mapping between the raw fields of a frame and the host's climate state, in
    both directions: decoding a status frame into the state the component
    publishes, and merging a host command into the retained frame. */
module Translator {
  import opened Frame

  datatype Option<T> = None | Some(value: T)

  /** The host's climate modes that the component handles. */
  datatype ClimateMode = Off | Auto | Cool | Heat | FanOnly | Dry

  /** The host's fan modes. On, Middle, Focus and Diffuse have no protocol code. */
  datatype FanMode =
    FanOn | FanOff | FanAuto | FanLow | FanMedium | FanHigh | FanMiddle | FanFocus | FanDiffuse

  /** The component's published state, plus the last accepted checksum byte. */
  datatype ClimateState = ClimateState(
    mode: ClimateMode,
    fanMode: FanMode,
    currentTemperature: int,
    targetTemperature: int,
    lastCrc: byte)

  /** A command from the host: every field is optional. */
  datatype ClimateCall = ClimateCall(
    mode: Option<ClimateMode>,
    fanMode: Option<FanMode>,
    targetTemperature: Option<int>)

  const NoChange: ClimateCall := ClimateCall(None, None, None)

  // ---------------------------------------------------------------------------
  // Decoding a status frame

  /** Raw mode byte to mode; every value outside 1..4, including 0, is Auto. */
  function DecodeMode(raw: byte): ClimateMode
  {
    if raw == MODE_COOL then Cool
    else if raw == MODE_HEAT then Heat
    else if raw == MODE_ONLY_FAN then FanOnly
    else if raw == MODE_DRY then Dry
    else Auto
  }

  /** Raw fan byte to fan mode; an unknown value keeps the previous fan mode. */
  function DecodeFan(raw: byte, prior: FanMode): FanMode
  {
    if raw == FAN_MIN then FanLow
    else if raw == FAN_MEDIUM then FanMedium
    else if raw == FAN_HIGH then FanHigh
    else if raw == FAN_AUTO then FanAuto
    else prior
  }

  function DecodeTemperature(raw: byte): int
  {
    raw + TEMPERATURE_OFFSET
  }

  /** Field extraction of a status frame into the state, from the previous state. */
  function Decode(frame: seq<byte>, prior: ClimateState): ClimateState
    requires |frame| == FRAME_SIZE
  {
    var s := prior.(
      lastCrc := frame[CRC],
      currentTemperature := frame[TEMPERATURE],
      targetTemperature := DecodeTemperature(frame[SET_TEMPERATURE]));
    if frame[POWER] == POWER_OFF then s.(mode := Off)
    else s.(mode := DecodeMode(frame[MODE]), fanMode := DecodeFan(frame[FAN_SPEED], prior.fanMode))
  }

  /** The status handler as written: the checksum routine's result is dropped, so
      the stored checksum byte is compared with itself before decoding. */
  function ReadStatus(frame: seq<byte>, prior: ClimateState): ClimateState
    requires |frame| == FRAME_SIZE
  {
    var check := frame[CRC];
    if check != frame[CRC] then prior else Decode(frame, prior)
  }

  /** The checksum gate never rejects: every frame is decoded, whatever its stored
      checksum byte. */
  lemma ChecksumGateAlwaysPasses(frame: seq<byte>, prior: ClimateState)
    requires |frame| == FRAME_SIZE
    ensures ReadStatus(frame, prior) == Decode(frame, prior)
    ensures ReadStatus(frame, prior).lastCrc == frame[CRC]
  {
  }

  /** A valid frame with one payload byte corrupted no longer carries its own
      checksum, and is still accepted and decoded in full. */
  lemma CorruptedFrameAccepted(frame: seq<byte>, j: nat, b: byte, prior: ClimateState)
    requires |frame| == FRAME_SIZE && Checksum(frame, FRAME_SIZE) == frame[CRC]
    requires 2 <= j < CRC && b != frame[j]
    ensures Checksum(frame[j := b], FRAME_SIZE) != frame[j := b][CRC]
    ensures ReadStatus(frame[j := b], prior) == Decode(frame[j := b], prior)
  {
    ChecksumDetectsSingleByteChange(frame, FRAME_SIZE, j, b);
  }

  /** Mode decoding, case by case in both directions. */
  lemma DecodeModeCases(raw: byte)
    ensures DecodeMode(raw) != Off
    ensures DecodeMode(raw) == Cool <==> raw == 1
    ensures DecodeMode(raw) == Heat <==> raw == 2
    ensures DecodeMode(raw) == FanOnly <==> raw == 3
    ensures DecodeMode(raw) == Dry <==> raw == 4
    ensures DecodeMode(raw) == Auto <==> !(1 <= raw <= 4)
  {
  }

  /** Fan decoding: 2/1/0/3 are low/medium/high/auto, any other value keeps `prior`. */
  lemma DecodeFanCases(raw: byte, prior: FanMode)
    ensures raw == 2 ==> DecodeFan(raw, prior) == FanLow
    ensures raw == 1 ==> DecodeFan(raw, prior) == FanMedium
    ensures raw == 0 ==> DecodeFan(raw, prior) == FanHigh
    ensures raw == 3 ==> DecodeFan(raw, prior) == FanAuto
    ensures raw > 3 ==> DecodeFan(raw, prior) == prior
  {
  }

  /** A powered-off frame decodes to Off whatever its mode byte, and the fan mode is
      left as it was; otherwise the mode and fan bytes decide. */
  lemma DecodePower(frame: seq<byte>, prior: ClimateState)
    requires |frame| == FRAME_SIZE
    ensures frame[POWER] == POWER_OFF ==>
      Decode(frame, prior).mode == Off && Decode(frame, prior).fanMode == prior.fanMode
    ensures frame[POWER] != POWER_OFF ==>
      Decode(frame, prior).mode == DecodeMode(frame[MODE]) != Off &&
      Decode(frame, prior).fanMode == DecodeFan(frame[FAN_SPEED], prior.fanMode)
    ensures Decode(frame, prior).currentTemperature == frame[TEMPERATURE]
    ensures Decode(frame, prior).targetTemperature == frame[SET_TEMPERATURE] as int + 16
  {
  }

  // ---------------------------------------------------------------------------
  // Encoding a command

  /** The set-point byte for temperature t: t - 16 truncated to a byte. */
  function EncodeTemperature(t: int): byte
  {
    (t - TEMPERATURE_OFFSET) % 256
  }

  /** Encoding then decoding gives t back exactly when t is in 16..271. */
  lemma TemperatureRoundTrip(t: int)
    ensures DecodeTemperature(EncodeTemperature(t)) == t <==> 16 <= t <= 271
    ensures 16 <= DecodeTemperature(EncodeTemperature(t)) <= 271
  {
  }

  /** Every stored set-point byte survives decoding and re-encoding. */
  lemma TemperatureByteRoundTrip(raw: byte)
    ensures EncodeTemperature(DecodeTemperature(raw)) == raw
  {
  }

  /** Below 16 the set-point wraps: 10 degrees is stored as 250 and read back as 266. */
  lemma TemperatureWrapExample()
    ensures EncodeTemperature(10) == 250
    ensures DecodeTemperature(EncodeTemperature(10)) == 266
  {
  }

  function ModeCode(m: ClimateMode): byte
    requires m != Off
  {
    match m
    case Auto => MODE_SMART
    case Heat => MODE_HEAT
    case Cool => MODE_COOL
    case FanOnly => MODE_ONLY_FAN
    case Dry => MODE_DRY
  }

  /** Fan modes that the command encoder writes into the fan byte. */
  predicate HasFanCode(f: FanMode)
  {
    f.FanLow? || f.FanMedium? || f.FanHigh? || f.FanAuto?
  }

  function FanCode(f: FanMode): byte
    requires HasFanCode(f)
  {
    match f
    case FanLow => FAN_MIN
    case FanMedium => FAN_MEDIUM
    case FanHigh => FAN_HIGH
    case FanAuto => FAN_AUTO
  }

  /** Every mode other than Off is decoded back from the code it is sent as. */
  lemma ModeCodeRoundTrip(m: ClimateMode)
    requires m != Off
    ensures DecodeMode(ModeCode(m)) == m
  {
  }

  /** Every fan mode the encoder writes is decoded back from its code. */
  lemma FanCodeRoundTrip(f: FanMode, prior: FanMode)
    requires HasFanCode(f)
    ensures DecodeFan(FanCode(f), prior) == f
  {
  }

  /** Offsets a command may change; every other byte keeps its received value. */
  predicate IsCommandOffset(i: nat)
  {
    i == 9 || i == 10 || i == 11 || i == COMMAND || i == MODE || i == FAN_SPEED ||
    i == POWER || i == SET_TEMPERATURE
  }

  /** The mode block: Off writes only the power byte; any other mode turns the
      power on and writes its code. */
  function ApplyMode(f: seq<byte>, m: ClimateMode): seq<byte>
    requires |f| == FRAME_SIZE
  {
    if m == Off then f[POWER := POWER_OFF]
    else f[POWER := POWER_ON][MODE := ModeCode(m)]
  }

  /** The fan block: FanOff writes only the power byte; a fan mode with a code
      turns the power on and writes it; the other fan modes change nothing. */
  function ApplyFan(f: seq<byte>, fan: FanMode): seq<byte>
    requires |f| == FRAME_SIZE
  {
    if fan == FanOff then f[POWER := POWER_OFF]
    else if HasFanCode(fan) then f[POWER := POWER_ON][FAN_SPEED := FanCode(fan)]
    else f
  }

  /** The command encoder on the retained frame `f`: the mode block, then the fan
      block, then the set-point, then the four fixed command bytes. */
  function ApplyCall(f: seq<byte>, call: ClimateCall): (r: seq<byte>)
    requires |f| == FRAME_SIZE
    ensures |r| == FRAME_SIZE
    ensures forall i :: 0 <= i < FRAME_SIZE && !IsCommandOffset(i) ==> r[i] == f[i]
    ensures r[COMMAND] == 0 && r[9] == 1 && r[10] == 77 && r[11] == 95
  {
    var f1 := if call.mode.Some? then ApplyMode(f, call.mode.value) else f;
    var f2 := if call.fanMode.Some? then ApplyFan(f1, call.fanMode.value) else f1;
    var f3 := if call.targetTemperature.Some?
      then f2[SET_TEMPERATURE := EncodeTemperature(call.targetTemperature.value)]
      else f2;
    f3[COMMAND := COMMAND_MARKER][9 := SEND_BYTE_9][10 := SEND_BYTE_10][11 := SEND_BYTE_11]
  }

  /** What a command leaves in the mode, fan, power and set-point bytes. The fan
      block runs last, so its power write wins over the mode block's. */
  lemma ApplyCallFields(f: seq<byte>, call: ClimateCall)
    requires |f| == FRAME_SIZE
    ensures ApplyCall(f, call)[MODE] ==
      if call.mode.Some? && call.mode.value != Off then ModeCode(call.mode.value) else f[MODE]
    ensures ApplyCall(f, call)[FAN_SPEED] ==
      if call.fanMode.Some? && HasFanCode(call.fanMode.value) then FanCode(call.fanMode.value)
      else f[FAN_SPEED]
    ensures ApplyCall(f, call)[POWER] ==
      if call.fanMode == Some(FanOff) then POWER_OFF
      else if call.fanMode.Some? && HasFanCode(call.fanMode.value) then POWER_ON
      else if call.mode == Some(Off) then POWER_OFF
      else if call.mode.Some? then POWER_ON
      else f[POWER]
    ensures ApplyCall(f, call)[SET_TEMPERATURE] ==
      if call.targetTemperature.Some? then (call.targetTemperature.value - 16) % 256
      else f[SET_TEMPERATURE]
  {
  }

  /** Mode Off and fan Off are the same command: each writes only the power byte. */
  lemma FanOffMatchesModeOff(f: seq<byte>)
    requires |f| == FRAME_SIZE
    ensures ApplyCall(f, ClimateCall(Some(Off), None, None)) == ApplyCall(f, ClimateCall(None, Some(FanOff), None))
    ensures ApplyCall(f, ClimateCall(Some(Off), None, None))[MODE] == f[MODE]
    ensures ApplyCall(f, ClimateCall(Some(Off), None, None))[FAN_SPEED] == f[FAN_SPEED]
    ensures ApplyCall(f, ClimateCall(Some(Off), None, None))[POWER] == POWER_OFF
  {
  }

  /** Mode Cool with fan Off: the mode byte is written, but the unit is switched off. */
  lemma FanOffOverridesMode(f: seq<byte>)
    requires |f| == FRAME_SIZE
    ensures ApplyCall(f, ClimateCall(Some(Cool), Some(FanOff), None))[POWER] == POWER_OFF
    ensures ApplyCall(f, ClimateCall(Some(Cool), Some(FanOff), None))[MODE] == MODE_COOL
  {
  }

  /** Decoding a command frame gives back what the command asked for: the mode
      when the unit is left on, the fan mode with a code, and a set-point in
      16..271; a command that switches the unit off decodes to Off with the fan
      mode unchanged. */
  lemma DecodeAfterCommand(f: seq<byte>, call: ClimateCall, prior: ClimateState)
    requires |f| == FRAME_SIZE
    ensures var s := Decode(ApplyCall(f, call), prior);
      && (call.fanMode == Some(FanOff) || (call.mode == Some(Off) && !(call.fanMode.Some? && HasFanCode(call.fanMode.value)))
          ==> s.mode == Off && s.fanMode == prior.fanMode)
      && (call.mode.Some? && call.mode.value != Off && call.fanMode != Some(FanOff) ==> s.mode == call.mode.value)
      && (call.fanMode.Some? && HasFanCode(call.fanMode.value) ==> s.fanMode == call.fanMode.value)
      && (call.targetTemperature.Some? && 16 <= call.targetTemperature.value <= 271 ==>
          s.targetTemperature == call.targetTemperature.value)
      && s.currentTemperature == f[TEMPERATURE]
      && s.lastCrc == f[CRC]
  {
    ApplyCallFields(f, call);
  }

  /** A command with no fields only rewrites the four fixed command bytes, none of
      which is decoded, so it leaves the decoded state as it was. */
  lemma NoChangeKeepsDecodedState(f: seq<byte>, prior: ClimateState)
    requires |f| == FRAME_SIZE
    ensures Decode(ApplyCall(f, NoChange), prior) == Decode(f, prior)
  {
  }

  /** Cool at 23 degrees on a frame showing fan auto and vertical swing: power on,
      mode Cool, set-point byte 7, fan and swing bytes kept. */
  lemma CoolAt23Scenario(f: seq<byte>)
    requires |f| == FRAME_SIZE && f[FAN_SPEED] == FAN_AUTO && f[SWING] == SWING_VERTICAL
    ensures var r := ApplyCall(f, ClimateCall(Some(Cool), None, Some(23)));
      r[POWER] == POWER_ON && r[MODE] == MODE_COOL && r[SET_TEMPERATURE] == 7 &&
      r[FAN_SPEED] == FAN_AUTO && r[SWING] == SWING_VERTICAL
  {
  }

  /** A status frame with byte 13 = 24 and byte 35 = 6 reads as 24 degrees sensed and
      22 degrees set. */
  lemma StatusScenario(frame: seq<byte>, prior: ClimateState)
    requires |frame| == FRAME_SIZE && frame[TEMPERATURE] == 24 && frame[SET_TEMPERATURE] == 6
    ensures ReadStatus(frame, prior).currentTemperature == 24
    ensures ReadStatus(frame, prior).targetTemperature == 22
  {
  }
}
