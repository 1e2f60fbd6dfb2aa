/** The climate component: one retained 37-byte frame buffer, the state it
    publishes, and the handlers that move bytes between the buffer and the
    serial line. Serial input is the sequence of bytes available to a call;
    serial output is returned as the sequence of bytes written. */
module Haier {
  import opened Frame
  import opened Translator

  class Haier {
    /** The last received status frame, merged with the commands sent since. */
    const data: array<byte>
    var lastCrc: byte
    var mode: ClimateMode
    var fanMode: FanMode
    var currentTemperature: int
    var targetTemperature: int

    ghost predicate Valid()
      reads this
    {
      data.Length == FRAME_SIZE
    }

    /** The published fields as one value. */
    function State(): ClimateState
      reads this
    {
      ClimateState(mode, fanMode, currentTemperature, targetTemperature, lastCrc)
    }

    constructor ()
      ensures Valid() && fresh(data)
      ensures data[..] == seq(FRAME_SIZE, _ => 0)
      ensures State() == ClimateState(Off, FanOn, 0, 0, 0)
    {
      data := new byte[FRAME_SIZE](_ => 0);
      lastCrc := 0;
      mode := Off;
      fanMode := FanOn;
      currentTemperature := 0;
      targetTemperature := 0;
    }

    /** Adds message[2 .. Position(size)) into a wrapping byte accumulator. */
    method GetChecksum(message: array<byte>, size: nat) returns (crc: byte)
      requires Position(size) <= message.Length
      ensures crc == Checksum(message[..], size)
    {
      var position := Position(size);
      crc := 0;
      var i := 2;
      while i < position
        invariant 2 <= i
        invariant position > 2 ==> i <= position && crc == Sum(message[2..i]) % 256
        invariant position <= 2 ==> crc == 0
      {
        assert message[2..i + 1] == message[2..i] + [message[i]];
        SumSnoc(message[2..i], message[i]);
        AddMod(Sum(message[2..i]), message[i]);
        crc := (crc + message[i]) % 256;
        i := i + 1;
      }
      if position > 2 {
        assert message[..][2..position] == message[2..position];
      }
    }

    /** Writes message[0 .. size-1) and then the computed checksum instead of the
        last byte; the message itself is not changed. */
    method SendData(message: array<byte>, size: byte) returns (sent: seq<byte>)
      requires 1 <= size <= message.Length
      ensures sent == Serialised(message[..], size)
      ensures |sent| == size && Checksum(sent, size) == sent[size - 1]
    {
      var crc := GetChecksum(message, size);
      sent := message[..size - 1] + [crc];
      SerialisedFrameValid(message[..], size);
    }

    /** The periodic poll: writes the poll template. */
    method Update() returns (sent: seq<byte>)
      ensures sent == POLL
      ensures Checksum(sent, TEMPLATE_SIZE) == sent[TEMPLATE_SIZE - 1]
    {
      sent := POLL;
      TemplatesSelfConsistent();
    }

    /** Handles the frame in the buffer. The checksum is computed and dropped, and
        the stored checksum byte is compared with itself, so every frame is
        decoded; the buffer is not changed. */
    method ReadData()
      requires Valid()
      modifies this`lastCrc, this`mode, this`fanMode, this`currentTemperature, this`targetTemperature
      ensures State() == ReadStatus(data[..], old(State()))
      ensures State() == Decode(data[..], old(State()))
    {
      var check := data[CRC];
      var computed := GetChecksum(data, FRAME_SIZE);
      if check != data[CRC] {
        return;
      }
      lastCrc := check;
      currentTemperature := data[TEMPERATURE];
      targetTemperature := DecodeTemperature(data[SET_TEMPERATURE]);
      if data[POWER] == POWER_OFF {
        mode := Off;
      } else {
        mode := DecodeMode(data[MODE]);
        fanMode := DecodeFan(data[FAN_SPEED], fanMode);
      }
    }

    /** Applies a host command to the buffer field by field and sends the result. */
    method Control(call: ClimateCall) returns (sent: seq<byte>)
      requires Valid()
      modifies data
      ensures data[..] == ApplyCall(old(data[..]), call)
      ensures data[CRC] == old(data[CRC])
      ensures sent == Serialised(data[..], FRAME_SIZE)
      ensures Checksum(sent, FRAME_SIZE) == sent[CRC]
    {
      if call.mode.Some? {
        WriteMode(call.mode.value);
      }
      if call.fanMode.Some? {
        WriteFan(call.fanMode.value);
      }
      ghost var f2: seq<byte> := data[..];
      if call.targetTemperature.Some? {
        data[SET_TEMPERATURE] := EncodeTemperature(call.targetTemperature.value);
      }
      ghost var f3: seq<byte> := data[..];
      assert f3 == if call.targetTemperature.Some?
        then f2[SET_TEMPERATURE := EncodeTemperature(call.targetTemperature.value)] else f2;

      data[COMMAND] := COMMAND_MARKER;
      data[9] := SEND_BYTE_9;
      data[10] := SEND_BYTE_10;
      data[11] := SEND_BYTE_11;
      assert data[..] == f3[COMMAND := COMMAND_MARKER][9 := SEND_BYTE_9][10 := SEND_BYTE_10][11 := SEND_BYTE_11];

      sent := SendData(data, FRAME_SIZE as byte);
    }

    /** The mode block of Control. */
    method WriteMode(m: ClimateMode)
      requires Valid()
      modifies data
      ensures data[..] == ApplyMode(old(data[..]), m)
    {
      match m
      case Off =>
        data[POWER] := POWER_OFF;
      case Auto =>
        data[POWER] := POWER_ON;
        data[MODE] := MODE_SMART;
      case Heat =>
        data[POWER] := POWER_ON;
        data[MODE] := MODE_HEAT;
      case Cool =>
        data[POWER] := POWER_ON;
        data[MODE] := MODE_COOL;
      case FanOnly =>
        data[POWER] := POWER_ON;
        data[MODE] := MODE_ONLY_FAN;
      case Dry =>
        data[POWER] := POWER_ON;
        data[MODE] := MODE_DRY;
    }

    /** The fan block of Control; fan modes without a code change nothing. */
    method WriteFan(fan: FanMode)
      requires Valid()
      modifies data
      ensures data[..] == ApplyFan(old(data[..]), fan)
    {
      match fan
      case FanOff =>
        data[POWER] := POWER_OFF;
      case FanLow =>
        data[POWER] := POWER_ON;
        data[FAN_SPEED] := FAN_MIN;
      case FanMedium =>
        data[POWER] := POWER_ON;
        data[FAN_SPEED] := FAN_MEDIUM;
      case FanHigh =>
        data[POWER] := POWER_ON;
        data[FAN_SPEED] := FAN_HIGH;
      case FanAuto =>
        data[POWER] := POWER_ON;
        data[FAN_SPEED] := FAN_AUTO;
      case _ =>
    }

    /** One call of the component's loop on the bytes available to it. After the
        header pair 255, 255 the next bytes, at most 35, are stored from offset 2
        and the frame is handled; otherwise one or two bytes are dropped. */
    method Loop(input: seq<byte>) returns (consumed: nat)
      requires Valid()
      modifies this`lastCrc, this`mode, this`fanMode, this`currentTemperature, this`targetTemperature
      modifies data
      ensures consumed == Scan(input, old(data[..])).consumed
      ensures Scan(input, old(data[..])).Skipped? ==>
        data[..] == old(data[..]) && State() == old(State())
      ensures Scan(input, old(data[..])).Received? ==>
        data[..] == Scan(input, old(data[..])).frame && State() == ReadStatus(data[..], old(State()))
    {
      if |input| == 0 {
        return 0;
      }
      if input[0] != HEADER {
        return 1;
      }
      if |input| == 1 {
        // the second read finds no byte and yields -1
        return 1;
      }
      if input[1] != HEADER {
        return 2;
      }
      data[0] := HEADER;
      data[1] := HEADER;
      // readBytes stores the bytes that arrive, at most 35 of them
      var n := Min(FRAME_SIZE - 2, |input| - 2);
      var j := 0;
      while j < n
        modifies data
        invariant 0 <= j <= n
        invariant forall k :: 0 <= k < 2 + j ==> data[k] == input[k]
        invariant forall k :: 2 + j <= k < FRAME_SIZE ==> data[k] == old(data[k])
      {
        data[2 + j] := input[2 + j];
        j := j + 1;
      }
      assert data[..] == Scan(input, old(data[..])).frame;
      ReadData();
      consumed := 2 + n;
    }
  }
}
