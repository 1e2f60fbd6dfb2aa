# Haier air-conditioner serial codec in Dafny

This project models `Haier.h`, an ESPHome climate component that talks to a Haier
split air conditioner over a 9600-baud serial line. The component keeps one
37-byte frame buffer, `data`, the last status frame it received. A status frame
opens with the sentinel pair 255, 255 and ends with a one-byte additive checksum.
Fixed offsets hold the sensed temperature (13), mode (23), fan speed (25),
power (29) and set-point (35, stored as degrees minus 16).

The model is three modules:

- `Frame` (`frame.dfy`): the byte type, the offset and value table, the 13-byte
  poll and power-on templates, the checksum as a function (`Checksum`, over a
  recursive `Sum`), and the header scan of `loop()` as a function (`Scan`).
- `Translator` (`translator.dfy`): the host's climate modes, fan modes, state
  and command types. It holds the status decoder (`Decode`, and `ReadStatus`
  with the checksum gate as written) and the command encoder (`ApplyCall`) as
  functions on byte sequences, with the lemmas that relate them.
- `Haier` (`haier.dfy`): the class `Haier`. Its `data` is an `array<byte>` of
  length 37, and its published fields are `mode`, `fanMode`,
  `currentTemperature`, `targetTemperature` and `lastCrc`. The methods
  `GetChecksum`, `SendData`, `Update`, `ReadData`, `Control` and `Loop` do what
  the C++ members do, step by step on the array. Each is proved against the
  functions above.

Serial input is the byte sequence available to one call of `Loop`. Serial output
is the byte sequence a method returns (`SendData`, `Control`, `Update`).

## Behaviour as written

- The checksum gate in `readData` never rejects a frame. The result of
  `getChecksum` is thrown away, and the stored checksum byte is then compared
  with itself (Haier.h:123-130). `ReadStatus` keeps this comparison, and
  `ChecksumGateAlwaysPasses` proves that every frame is decoded.
  `CorruptedFrameAccepted` proves more: a valid frame with one payload byte
  corrupted no longer matches its checksum, and it is still decoded in full.
  Nothing in the model assumes that a corrupted frame is dropped.
- `sendData` puts the computed checksum only on the wire. It does not store it
  in `data[36]`, so that byte keeps its last received value (`Control`).
- A command forces four bytes, not two or three: offset 17 to 0, and offsets
  9, 10 and 11 to 1, 77 and 95.
- `LOCK_ON` is decimal 80 (0x50) in the code. The model uses 80.
- The header scan does not wait for a full frame. After 255, 255, `readBytes`
  stores the bytes that arrive, up to 35, and the frame is decoded at once. Any
  byte that did not arrive keeps its old value in the buffer (`Scan`).
- Mode decoding falls back to Auto for an unknown byte, and this includes 0
  (the code for Auto). Fan decoding leaves the fan mode unchanged for an unknown
  byte. A powered-off frame (`[29] == 8`) decodes to Off and leaves the fan
  mode unchanged.

## Model

| member | source | states |
|---|---|---|
| `Haier.Haier.GetChecksum` | Haier.h:274-282 | the loop's byte accumulator equals `Checksum`: the sum of `message[2 .. (size-1) mod 256)` mod 256, and 0 when that bound is 2 or less |
| `Frame.ChecksumDependsOnlyOnPayload` | Haier.h:274-282 | two messages that agree on offsets 2 up to the bound have the same checksum; bytes 0, 1 and everything from `size-1` on do not count |
| `Frame.ChecksumIgnoresLastByte` | Haier.h:274-282 | overwriting the last byte of a message leaves its checksum unchanged |
| `Frame.ChecksumDetectsSingleByteChange` | Haier.h:274-282 | changing one summed byte from a to b moves the checksum by (b - a) mod 256, so any single-byte change of the payload changes it |
| `Frame.TemplatesSelfConsistent` | Haier.h:60-61 | both 13-byte templates are 13 long and carry their own checksum in their last byte: 90 for poll, 91 for on |
| `Frame.SerialisedFrameValid` | Haier.h:251-255 | the bytes sendData writes are `size` long, agree with the message except in the last byte, and that last byte is their own checksum |
| `Haier.Haier.SendData` | Haier.h:251-255 | writes exactly `message[0 .. size-1)` followed by the computed checksum, a frame whose last byte is its own checksum; the message is not changed |
| `Haier.Haier.Update` | Haier.h:113-114 | the poll tick writes the poll template, whose last byte is its own checksum |
| `Frame.Scan` | Haier.h:99-111 | no input consumes nothing; a frame is received exactly when the input starts with 255, 255; it consumes min(length, 37) bytes, and the buffer becomes those bytes followed by the old bytes past them |
| `Frame.ScanDropsWithoutHeader` | Haier.h:100-103 | a first byte other than 255 is dropped alone, a lone 255 is dropped alone, and 255 followed by any other byte is dropped as a pair |
| `Frame.ResyncAfterJunkByte` | Haier.h:100-108 | a junk byte before a full frame is dropped alone, and the next call receives the whole frame |
| `Haier.Haier.Loop` | Haier.h:99-111 | consumes what `Scan` consumes; a dropped header leaves buffer and state unchanged; after a header the buffer is the received frame and the state is `ReadStatus` of it |
| `Haier.Haier.ReadData` | Haier.h:119-184 | the new published state is `ReadStatus` of the buffer from the old state, which equals `Decode`; the buffer is not changed |
| `Translator.ChecksumGateAlwaysPasses` | Haier.h:123-132 | the gate compares the stored checksum byte with itself, so every frame is decoded and `lastCrc` becomes its byte 36 |
| `Translator.CorruptedFrameAccepted` | Haier.h:123-130 | a valid frame with one payload byte changed fails an honest checksum comparison and is still decoded in full |
| `Translator.DecodeModeCases` | Haier.h:142-157 | raw mode 1, 2, 3, 4 decode to Cool, Heat, FanOnly, Dry, each in both directions; every other byte, 0 included, decodes to Auto; never Off |
| `Translator.DecodeFanCases` | Haier.h:160-175 | raw fan 2, 1, 0, 3 decode to Low, Medium, High, Auto; every byte above 3 keeps the previous fan mode |
| `Translator.DecodePower` | Haier.h:134-178 | power byte 8 gives mode Off and keeps the fan mode; otherwise the mode and fan bytes decide and the mode is not Off; sensed temperature is byte 13 and set-point is byte 35 plus 16 |
| `Translator.StatusScenario` | Haier.h:134-135 | a frame with byte 13 = 24 and byte 35 = 6 reads as 24 sensed and 22 set |
| `Translator.TemperatureRoundTrip` | Haier.h:238-239 | the set-point stored for t and read back gives t exactly when 16 <= t <= 271, and always lies in 16..271 |
| `Translator.TemperatureByteRoundTrip` | Haier.h:135 | every stored set-point byte, read as degrees and encoded again, gives the same byte |
| `Translator.TemperatureWrapExample` | Haier.h:239 | 10 degrees is stored as 250 and read back as 266 |
| `Translator.ModeCodeRoundTrip` | Haier.h:193-212 | the code written for each mode other than Off decodes back to that mode |
| `Translator.FanCodeRoundTrip` | Haier.h:220-235 | the code written for Low, Medium, High and Auto decodes back to that fan mode |
| `Translator.ApplyCall` | Haier.h:186-247 | a command keeps every byte except offsets 9, 10, 11, 17, 23, 25, 29 and 35, and leaves 17 = 0, 9 = 1, 10 = 77, 11 = 95 |
| `Translator.ApplyCallFields` | Haier.h:188-240 | the mode, fan, power and set-point bytes after a command; the fan block's power write wins over the mode block's |
| `Translator.FanOffMatchesModeOff` | Haier.h:190-218 | mode Off and fan Off give the same frame, with power 8 and the mode and fan bytes untouched |
| `Translator.FanOffOverridesMode` | Haier.h:201-218 | mode Cool with fan Off writes mode byte 1 and power 8 |
| `Translator.CoolAt23Scenario` | Haier.h:201-239 | Cool at 23 degrees on a frame showing fan auto and vertical swing gives power 9, mode 1, set-point byte 7, and the fan and swing bytes as they were |
| `Translator.DecodeAfterCommand` | Haier.h:186-240 | decoding a command frame gives back the requested mode, fan mode and set-point in 16..271; a command that powers off decodes to Off with the fan mode kept |
| `Translator.NoChangeKeepsDecodedState` | Haier.h:242-246 | a command with no fields changes only bytes that are not decoded, so the decoded state is the same |
| `Haier.Haier.Control` | Haier.h:186-249 | the new buffer is `ApplyCall` of the old one; byte 36 keeps its received value; the bytes sent are the new buffer serialised, whose last byte is their own checksum |
| `Haier.Haier.WriteMode` | Haier.h:188-213 | the mode block changes the buffer as `ApplyMode` says |
| `Haier.Haier.WriteFan` | Haier.h:215-236 | the fan block changes the buffer as `ApplyFan` says; fan modes without a code change nothing |
| `Haier.Haier.constructor` | Haier.h:91-93 | a new component has a 37-byte buffer of zeroes, `lastCrc` 0, mode Off |

## Left out

- `traits()` (Haier.h:64-86), including its duplicated `set_visual_max_temperature`
  call, is framework configuration with no protocol state.
- `setup()`, the 5-second polling interval, `publish_state` and the scheduler that
  calls `loop` and `update` belong to the ESPHome framework.
- `getHex`, `logStatus` and every `ESP_LOGD` call only write log text. The swing,
  lock and fresh-air constants are used only there; they are kept as constants.
- `Serial.begin`, `available`, `read`, `readBytes` and `write` become input and
  output byte sequences. The one-second timeout of `readBytes` is not modelled: the
  input is taken to be every byte that arrives before it expires.
- Temperatures are integers. ESPHome keeps them as floats, and `control` casts the
  set-point with `(uint16)` before subtracting 16; for an integer in range this
  cast does not change the low byte. Fractional and out-of-range float set-points
  are not modelled.
- Haier.Haier.constructor: the C++ constructor only sets `lastCRC`. `data` starts
  zeroed here, and mode Off and fan mode On stand in for the framework's initial
  values.
- Fan modes On, Middle, Focus and Diffuse have representatives because `control`
  has no case for them. Climate modes the `control` switch does not list are not
  represented.
- `Haier.Haier.SendData` requires `size >= 1`: for size 0, `size - 1` wraps and the
  C++ write would run far past the buffer.
- `Haier.Haier.GetChecksum` requires the loop bound to lie inside the message: past
  that, the C++ code reads out of bounds.
- The `on` template is declared and never sent. Only its checksum is proved.
