/** The 9-byte data frame: `readData` and the accessors of the stored frame.
    The accessors read bytes 2..7, so byte 1 is a second header byte that is
    never checked on its own; the checksum covers it like any other byte. */
module DataFrame {
  import opened Bytes
  import opened Checksums
  import opened Sync

  const DATA_FRAME_LENGTH: nat := 9

  /** `_readDataBuffer`: the frame kept by the driver. */
  type DataBuffer = s: seq<byte> | |s| == 9 witness [0, 0, 0, 0, 0, 0, 0, 0, 0]

  /** The buffer after `resetBuffer(_readDataBuffer, 9)`. */
  const ZeroBuffer: DataBuffer := [0, 0, 0, 0, 0, 0, 0, 0, 0]

  /** Outcome of one `readData` call: the boolean it returns, the buffer it
      leaves behind and the unread stream. */
  datatype DataRead = DataRead(ok: bool, buffer: DataBuffer, rest: seq<byte>)

  /** `readData`: clear the buffer, synchronise to 0x59, read the 8 bytes that
      follow, and keep the 9-byte frame only when its checksum holds. A stream
      that ends before the 8 bytes arrive is a failed read. */
  function ReadData(s: seq<byte>): (r: DataRead)
    requires DATA_FRAME_MARKER in s
    ensures var k := FirstIndex(DATA_FRAME_MARKER, s);
      && (r.ok <==> k + DATA_FRAME_LENGTH <= |s| && ValidateChecksum(s[k..k + DATA_FRAME_LENGTH]))
      && (r.ok ==> r.buffer == s[k..k + DATA_FRAME_LENGTH])
      && (!r.ok ==> r.buffer == ZeroBuffer)
      && (k + DATA_FRAME_LENGTH <= |s| ==> r.rest == s[k + DATA_FRAME_LENGTH..])
  {
    var body := SkipToFrameHeader(DATA_FRAME_MARKER, s);
    if |body| < DATA_FRAME_LENGTH - 1 then
      DataRead(false, ZeroBuffer, [])
    else
      var frame := [DATA_FRAME_MARKER] + body[..DATA_FRAME_LENGTH - 1];
      assert frame == s[FirstIndex(DATA_FRAME_MARKER, s)..FirstIndex(DATA_FRAME_MARKER, s) + DATA_FRAME_LENGTH];
      if ValidateChecksum(frame) then
        DataRead(true, frame, body[DATA_FRAME_LENGTH - 1..])
      else
        DataRead(false, ZeroBuffer, body[DATA_FRAME_LENGTH - 1..])
  }

  /** `getDistance`: bytes 2 (low) and 3 (high) of the stored frame. */
  function GetDistance(buffer: DataBuffer): (r: uint16)
    ensures r % 0x100 == buffer[2] && r / 0x100 == buffer[3]
  {
    ReadLittleEndian16(buffer, 2)
  }

  /** `getSignalStrength`: bytes 4 (low) and 5 (high) of the stored frame. */
  function GetSignalStrength(buffer: DataBuffer): (r: uint16)
    ensures r % 0x100 == buffer[4] && r / 0x100 == buffer[5]
  {
    ReadLittleEndian16(buffer, 4)
  }

  /** `getSensorRawTempreture`: bytes 6 (low) and 7 (high) of the stored frame. */
  function GetSensorRawTemperature(buffer: DataBuffer): (r: uint16)
    ensures r % 0x100 == buffer[6] && r / 0x100 == buffer[7]
  {
    ReadLittleEndian16(buffer, 6)
  }

  /** One reading as the sensor reports it. */
  datatype Measurement = Measurement(secondHeader: byte, distance: uint16, strength: uint16, rawTemperature: uint16)

  /** The frame a sensor sends for a reading: marker, second header byte,
      three little-endian words and the checksum. */
  function EncodeDataFrame(m: Measurement): (frame: DataBuffer)
    ensures frame[0] == DATA_FRAME_MARKER && frame[1] == m.secondHeader
    ensures ValidateChecksum(frame)
    ensures GetDistance(frame) == m.distance
    ensures GetSignalStrength(frame) == m.strength
    ensures GetSensorRawTemperature(frame) == m.rawTemperature
  {
    var d := Uint16ToLittleEndian(m.distance);
    var st := Uint16ToLittleEndian(m.strength);
    var t := Uint16ToLittleEndian(m.rawTemperature);
    var head := [DATA_FRAME_MARKER, m.secondHeader] + d + st + t;
    AppendChecksumValidates(head);
    Uint16RoundTrip(m.distance);
    Uint16RoundTrip(m.strength);
    Uint16RoundTrip(m.rawTemperature);
    var frame := head + [Checksum(head)];
    assert frame[2..4] == d && frame[4..6] == st && frame[6..8] == t;
    frame
  }

  /** Whatever garbage precedes a sensor frame, `readData` succeeds on it,
      consumes exactly through it, and the accessors give back the reading. */
  lemma ReadDataRoundTrip(garbage: seq<byte>, m: Measurement, tail: seq<byte>)
    requires DATA_FRAME_MARKER !in garbage
    ensures var r := ReadData(garbage + EncodeDataFrame(m) + tail);
      && r.ok && r.buffer == EncodeDataFrame(m) && r.rest == tail
      && GetDistance(r.buffer) == m.distance
      && GetSignalStrength(r.buffer) == m.strength
      && GetSensorRawTemperature(r.buffer) == m.rawTemperature
  {
    var frame := EncodeDataFrame(m);
    var s := garbage + frame + tail;
    assert s == garbage + [DATA_FRAME_MARKER] + (frame[1..] + tail);
    SkipOverGarbage(DATA_FRAME_MARKER, garbage, frame[1..] + tail);
    assert FirstIndex(DATA_FRAME_MARKER, s) == |garbage|;
    assert s[|garbage|..|garbage| + DATA_FRAME_LENGTH] == frame;
    assert s[|garbage| + DATA_FRAME_LENGTH..] == tail;
  }

  /** A failed read leaves the buffer cleared, so every accessor reads 0
      rather than a value from an earlier frame. */
  lemma FailedReadClearsReadings(s: seq<byte>)
    requires DATA_FRAME_MARKER in s && !ReadData(s).ok
    ensures var b := ReadData(s).buffer;
      GetDistance(b) == 0 && GetSignalStrength(b) == 0 && GetSensorRawTemperature(b) == 0
  {
  }

  /** A corrupted frame costs one failed read and nothing more: its 8 bytes
      are consumed, and the next read synchronises onto the following frame. */
  lemma ResyncAfterCorruptFrame(bad: seq<byte>, garbage: seq<byte>, m: Measurement, tail: seq<byte>)
    requires |bad| == DATA_FRAME_LENGTH - 1 && !ValidateChecksum([DATA_FRAME_MARKER] + bad)
    requires DATA_FRAME_MARKER !in garbage
    ensures var first := ReadData([DATA_FRAME_MARKER] + bad + garbage + EncodeDataFrame(m) + tail);
      && !first.ok && first.rest == garbage + EncodeDataFrame(m) + tail
      && var second := ReadData(first.rest);
      && second.ok && GetDistance(second.buffer) == m.distance && second.rest == tail
  {
    var rest := garbage + EncodeDataFrame(m) + tail;
    var s := [DATA_FRAME_MARKER] + bad + garbage + EncodeDataFrame(m) + tail;
    assert s == [DATA_FRAME_MARKER] + bad + rest;
    assert FirstIndex(DATA_FRAME_MARKER, s) == 0;
    assert s[0..DATA_FRAME_LENGTH] == [DATA_FRAME_MARKER] + bad;
    assert s[DATA_FRAME_LENGTH..] == rest;
    ReadDataRoundTrip(garbage, m, tail);
  }
}
