/** Wire format of the Haier serial protocol: the fixed 37-byte frame layout,
    the 13-byte request templates, the one-byte additive checksum and the
    byte-at-a-time header scan that finds the start of a status frame. */
module Frame {

  /** An unsigned 8-bit value, the element type of every frame. */
  type byte = x: int | 0 <= x < 256

  /** Length of a status or command frame, and of the retained buffer. */
  const FRAME_SIZE: nat := 37
  /** Length of the poll and power-on request templates. */
  const TEMPLATE_SIZE: nat := 13
  /** Value of each of the two sentinel bytes that open every frame. */
  const HEADER: byte := 255

  // Field offsets into a 37-byte frame, with the raw values stored there.

  const TEMPERATURE: nat := 13
  const COMMAND: nat := 17

  const MODE: nat := 23
  const MODE_SMART: byte := 0
  const MODE_COOL: byte := 1
  const MODE_HEAT: byte := 2
  const MODE_ONLY_FAN: byte := 3
  const MODE_DRY: byte := 4

  /** Fan codes are not ordered by speed: high is 0 and low is 2. */
  const FAN_SPEED: nat := 25
  const FAN_MIN: byte := 2
  const FAN_MEDIUM: byte := 1
  const FAN_HIGH: byte := 0
  const FAN_AUTO: byte := 3

  const SWING: nat := 27
  const SWING_OFF: byte := 0
  const SWING_VERTICAL: byte := 1
  const SWING_HORIZONTAL: byte := 2

  /** The "on" value is decimal 80 in the protocol table. */
  const LOCK: nat := 28
  const LOCK_ON: byte := 80
  const LOCK_OFF: byte := 0

  const POWER: nat := 29
  const POWER_ON: byte := 9
  const POWER_OFF: byte := 8

  const FRESH: nat := 31
  const FRESH_ON: byte := 1
  const FRESH_OFF: byte := 0

  /** The set-point is stored as degrees minus 16. */
  const SET_TEMPERATURE: nat := 35
  const TEMPERATURE_OFFSET: nat := 16

  const CRC: nat := 36

  /** Values a command frame always carries at offsets COMMAND, 9, 10 and 11. */
  const COMMAND_MARKER: byte := 0
  const SEND_BYTE_9: byte := 1
  const SEND_BYTE_10: byte := 77
  const SEND_BYTE_11: byte := 95

  /** The request that solicits a status frame. */
  const POLL: seq<byte> := [255, 255, 10, 0, 0, 0, 0, 0, 1, 1, 77, 1, 90]
  /** The power-on request template (declared by the component, never sent). */
  const ON: seq<byte> := [255, 255, 10, 0, 0, 0, 0, 0, 1, 1, 77, 2, 91]

  function Min(a: int, b: int): int
  {
    if a <= b then a else b
  }

  /** Unbounded sum of a byte sequence, peeled from the back as the checksum loop adds. */
  function Sum(s: seq<byte>): nat
  {
    if s == [] then 0 else Sum(s[..|s| - 1]) + s[|s| - 1]
  }

  /** The checksum loop's bound: `size - 1` kept in a byte, so size 0 gives 255. */
  function Position(size: nat): nat
  {
    (size - 1) % 256
  }

  /** The checksum routine's result: the bytes at offsets 2 up to (not including)
      Position(size) added into a byte accumulator, so the sum wraps mod 256. */
  function Checksum(m: seq<byte>, size: nat): byte
    requires Position(size) <= |m|
  {
    var p := Position(size);
    if p <= 2 then 0 else Sum(m[2..p]) % 256
  }

  lemma SumSnoc(s: seq<byte>, x: byte)
    ensures Sum(s + [x]) == Sum(s) + x
  {
  }

  /** Adding into a byte accumulator that already wrapped is adding and then wrapping. */
  lemma AddMod(a: nat, x: nat)
    ensures (a % 256 + x) % 256 == (a + x) % 256
  {
  }

  /** Replacing one element changes the sum by exactly the difference. */
  lemma {:induction false} SumUpdate(s: seq<byte>, k: nat, b: byte)
    requires k < |s|
    ensures Sum(s[k := b]) + s[k] == Sum(s) + b
  {
    var n := |s| - 1;
    if k == n {
      assert s[k := b][..n] == s[..n];
    } else {
      assert s[k := b][..n] == s[..n][k := b];
      SumUpdate(s[..n], k, b);
    }
  }

  /** Only the payload bytes 2 .. Position(size)-1 enter the checksum: the two
      header bytes and everything from the checksum slot on do not affect it. */
  lemma ChecksumDependsOnlyOnPayload(m: seq<byte>, m': seq<byte>, size: nat)
    requires Position(size) <= |m| && Position(size) <= |m'|
    requires forall i :: 2 <= i < Position(size) ==> m[i] == m'[i]
    ensures Checksum(m, size) == Checksum(m', size)
  {
    var p := Position(size);
    if p > 2 {
      assert m[2..p] == m'[2..p];
    }
  }

  /** Overwriting the final (checksum) byte of a frame leaves its checksum unchanged. */
  lemma ChecksumIgnoresLastByte(m: seq<byte>, b: byte)
    requires 1 <= |m| <= 256
    ensures Checksum(m[|m| - 1 := b], |m|) == Checksum(m, |m|)
  {
  }

  /** Changing one payload byte from a to b moves the checksum by b - a (mod 256),
      so a single corrupted payload byte always changes the checksum. */
  lemma ChecksumDetectsSingleByteChange(m: seq<byte>, size: nat, j: nat, b: byte)
    requires Position(size) <= |m|
    requires 2 <= j < Position(size)
    ensures Checksum(m[j := b], size) == (Checksum(m, size) + b - m[j]) % 256
    ensures b != m[j] ==> Checksum(m[j := b], size) != Checksum(m, size)
  {
    var p := Position(size);
    var s := m[2..p];
    assert m[j := b][2..p] == s[j - 2 := b];
    SumUpdate(s, j - 2, b);
  }

  /** Both request templates carry their own checksum in their last byte. */
  lemma TemplatesSelfConsistent()
    ensures |POLL| == TEMPLATE_SIZE && |ON| == TEMPLATE_SIZE
    ensures Checksum(POLL, TEMPLATE_SIZE) == POLL[TEMPLATE_SIZE - 1] == 90
    ensures Checksum(ON, TEMPLATE_SIZE) == ON[TEMPLATE_SIZE - 1] == 91
  {
    // The payload shared by both templates, summed one byte at a time.
    var common: seq<byte> := [10, 0, 0, 0, 0, 0, 1, 1, 77];
    var sums := [10, 10, 10, 10, 10, 10, 11, 12, 89];
    for k := 0 to |common|
      invariant Sum(common[..k]) == if k == 0 then 0 else sums[k - 1]
    {
      assert common[..k + 1] == common[..k] + [common[k]];
      SumSnoc(common[..k], common[k]);
    }
    assert common[..|common|] == common;
    assert POLL[2..12] == common + [1];
    assert ON[2..12] == common + [2];
    SumSnoc(common, 1);
    SumSnoc(common, 2);
  }

  /** What the serialiser puts on the wire for `message`: its first size-1 bytes
      followed by the freshly computed checksum. */
  function Serialised(m: seq<byte>, size: nat): seq<byte>
    requires 1 <= size <= |m| && size <= 256
  {
    m[..size - 1] + [Checksum(m, size)]
  }

  /** A serialised frame is accepted by an honest checksum comparison: its last
      byte is its own checksum, and every other byte is the message's. */
  lemma SerialisedFrameValid(m: seq<byte>, size: nat)
    requires 1 <= size <= |m| && size <= 256
    ensures |Serialised(m, size)| == size
    ensures Checksum(Serialised(m, size), size) == Serialised(m, size)[size - 1]
    ensures forall i :: 0 <= i < size - 1 ==> Serialised(m, size)[i] == m[i]
  {
  }

  /** The result of one call of the header scan: how many stream bytes it took, and
      for a found header the 37-byte buffer it leaves behind. */
  datatype ScanResult =
    | Skipped(consumed: nat)
    | Received(consumed: nat, frame: seq<byte>)

  /** One call of the component's loop on the bytes `input` that are available to
      it, with `buffer` the retained frame. A first byte other than 255 is dropped;
      255 followed by another byte is dropped as a pair (a missing second byte reads
      as -1, which also fails). After 255, 255 the next bytes, at most 35, overwrite
      the buffer from offset 2; bytes that do not arrive keep their old value. */
  function Scan(input: seq<byte>, buffer: seq<byte>): (r: ScanResult)
    requires |buffer| == FRAME_SIZE
    ensures r.consumed <= |input|
    ensures input == [] ==> r == Skipped(0)
    ensures r.Received? <==> 2 <= |input| && input[0] == HEADER && input[1] == HEADER
    ensures r.Received? ==>
      && r.consumed == Min(|input|, FRAME_SIZE)
      && |r.frame| == FRAME_SIZE
      && r.frame[..r.consumed] == input[..r.consumed]
      && r.frame[r.consumed..] == buffer[r.consumed..]
  {
    if |input| == 0 then Skipped(0)
    else if input[0] != HEADER then Skipped(1)
    else if |input| == 1 then Skipped(1)
    else if input[1] != HEADER then Skipped(2)
    else
      var n := Min(FRAME_SIZE - 2, |input| - 2);
      Received(2 + n, [HEADER, HEADER] + input[2..2 + n] + buffer[2 + n..])
  }

  /** Resynchronisation: a junk byte in front of a complete frame costs exactly one
      call and one byte, and the next call receives the whole frame. */
  lemma ResyncAfterJunkByte(junk: byte, frame: seq<byte>, buffer: seq<byte>)
    requires junk != HEADER
    requires |frame| == FRAME_SIZE && frame[0] == HEADER && frame[1] == HEADER
    requires |buffer| == FRAME_SIZE
    ensures Scan([junk] + frame, buffer) == Skipped(1)
    ensures ([junk] + frame)[1..] == frame
    ensures Scan(frame, buffer) == Received(FRAME_SIZE, frame)
  {
  }

  /** Without a header pair the scan drops bytes and leaves the buffer alone: a
      first byte other than 255 goes alone, a lone 255 goes alone, and 255 with
      any other second byte goes as a pair. */
  lemma ScanDropsWithoutHeader(input: seq<byte>, buffer: seq<byte>)
    requires |buffer| == FRAME_SIZE && input != []
    ensures input[0] != HEADER ==> Scan(input, buffer) == Skipped(1)
    ensures input == [HEADER] ==> Scan(input, buffer) == Skipped(1)
    ensures 2 <= |input| && input[0] == HEADER && input[1] != HEADER ==>
      Scan(input, buffer) == Skipped(2)
  {
  }
}
