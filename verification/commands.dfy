/** Outbound command frames: `0x5A`, total length, command code, payload,
    checksum. Every request of the driver is one of these; most are
    hard-coded in the source, and the parameterised ones are built here. */
module Commands {
  import opened Bytes
  import opened Checksums
  import opened Sync
  import opened Outcomes
  import opened CommandResponse

  const CMD_GET_VERSION: byte := 0x01
  const CMD_SYSTEM_RESET: byte := 0x02
  const CMD_SET_FRAME_RATE: byte := 0x03
  const CMD_TRIGGER_DETECTION: byte := 0x04
  const CMD_SET_MEASUREMENT: byte := 0x05
  const CMD_SET_BAUD_RATE: byte := 0x06
  const CMD_SET_ENABLED: byte := 0x07
  const CMD_RESTORE_FACTORY_SETTINGS: byte := 0x10
  const CMD_SAVE_SETTINGS: byte := 0x11

  /** A command frame carrying `payload`: its length byte counts the whole
      frame, checksum included, and the checksum is appended last. Payloads
      of up to four bytes keep the frame within the 8-byte response buffers. */
  function BuildCommand(code: byte, payload: seq<byte>): (frame: seq<byte>)
    requires |payload| <= MAX_CMD_RESPONSE_LENGTH - 4
    ensures |frame| == |payload| + 4 && frame[1] == |frame|
    ensures frame[0] == CMD_FRAME_MARKER && frame[2] == code && frame[3..|frame| - 1] == payload
    ensures ValidateChecksum(frame)
  {
    var head := [CMD_FRAME_MARKER, |payload| + 4, code] + payload;
    AppendChecksumValidates(head);
    head + [Checksum(head)]
  }

  /** The checksum of a frame head given byte by byte. */
  lemma ChecksumOfHead(a: byte, b: byte, c: byte, rest: seq<byte>)
    ensures Checksum([a, b, c] + rest) == (a + b + c + Sum(rest)) % 0x100
  {
    SumAppend([a, b, c], rest);
    assert [a][..0] == [];
    assert Sum([a]) == a;
    assert [a, b][..1] == [a];
    assert Sum([a, b]) == a + b;
    assert [a, b, c][..2] == [a, b];
    assert Sum([a, b, c]) == a + b + c;
  }

  /** A command without payload: its checksum is the sum of marker, length 4 and code. */
  lemma BareCommand(code: byte)
    ensures BuildCommand(code, []) == [CMD_FRAME_MARKER, 4, code, (CMD_FRAME_MARKER + 4 + code) % 0x100]
  {
    ChecksumOfHead(CMD_FRAME_MARKER, 4, code, []);
    assert [CMD_FRAME_MARKER, 4, code] + [] == [CMD_FRAME_MARKER, 4, code];
  }

  /** A command with a one-byte payload. */
  lemma OneByteCommand(code: byte, p: byte)
    ensures BuildCommand(code, [p]) == [CMD_FRAME_MARKER, 5, code, p, (CMD_FRAME_MARKER + 5 + code + p) % 0x100]
  {
    ChecksumOfHead(CMD_FRAME_MARKER, 5, code, [p]);
    SumCons(p, []);
    assert [p] + [] == [p];
  }

  /** `getVersion` request, hard-coded as 5A 04 01 5F. */
  function VersionRequest(): (frame: seq<byte>)
    ensures frame == BuildCommand(CMD_GET_VERSION, [])
  {
    BareCommand(CMD_GET_VERSION);
    [CMD_FRAME_MARKER, 0x04, CMD_GET_VERSION, 0x5F]
  }

  /** `systemReset` request, hard-coded as 5A 04 02 60. */
  function SystemResetRequest(): (frame: seq<byte>)
    ensures frame == BuildCommand(CMD_SYSTEM_RESET, [])
  {
    BareCommand(CMD_SYSTEM_RESET);
    [CMD_FRAME_MARKER, 0x04, CMD_SYSTEM_RESET, 0x60]
  }

  /** `triggerDetection` request, hard-coded as 5A 04 04 62. */
  function TriggerDetectionRequest(): (frame: seq<byte>)
    ensures frame == BuildCommand(CMD_TRIGGER_DETECTION, [])
  {
    BareCommand(CMD_TRIGGER_DETECTION);
    [CMD_FRAME_MARKER, 0x04, CMD_TRIGGER_DETECTION, 0x62]
  }

  /** `restoreFactorySettings` request, hard-coded as 5A 04 10 6E. */
  function RestoreFactorySettingsRequest(): (frame: seq<byte>)
    ensures frame == BuildCommand(CMD_RESTORE_FACTORY_SETTINGS, [])
  {
    BareCommand(CMD_RESTORE_FACTORY_SETTINGS);
    [CMD_FRAME_MARKER, 0x04, CMD_RESTORE_FACTORY_SETTINGS, 0x6E]
  }

  /** `saveSettings` request, hard-coded as 5A 04 11 6F. */
  function SaveSettingsRequest(): (frame: seq<byte>)
    ensures frame == BuildCommand(CMD_SAVE_SETTINGS, [])
  {
    BareCommand(CMD_SAVE_SETTINGS);
    [CMD_FRAME_MARKER, 0x04, CMD_SAVE_SETTINGS, 0x6F]
  }

  /** `setEnabled` request, hard-coded as 5A 05 07 00 66 when `state` holds
      and 5A 05 07 01 67 otherwise. */
  function SetEnabledRequest(state: bool): (frame: seq<byte>)
    ensures frame == BuildCommand(CMD_SET_ENABLED, [if state then 0x00 else 0x01])
  {
    OneByteCommand(CMD_SET_ENABLED, if state then 0x00 else 0x01);
    if state then
      [CMD_FRAME_MARKER, 0x05, CMD_SET_ENABLED, 0x00, 0x66]
    else
      [CMD_FRAME_MARKER, 0x05, CMD_SET_ENABLED, 0x01, 0x67]
  }

  /** `setFrameRate` request as intended: 5A 06 03, the rate little-endian,
      then the checksum of those five bytes. */
  function SetFrameRateRequest(rate: uint16): (frame: seq<byte>)
    ensures |frame| == 6 && frame[..3] == [CMD_FRAME_MARKER, 0x06, CMD_SET_FRAME_RATE]
    ensures ValidateChecksum(frame)
    ensures ReadLittleEndian16(frame, 3) == rate
  {
    Uint16RoundTrip(rate);
    BuildCommand(CMD_SET_FRAME_RATE, Uint16ToLittleEndian(rate))
  }

  /** `setFrameRate` request as written: the checksum is stored at index 6 of
      a 6-byte array, so the sixth byte sent is the zero the initializer left
      in `buffer[5]`. */
  function SetFrameRateRequestAsWritten(rate: uint16): (frame: seq<byte>)
    ensures frame == SetFrameRateRequest(rate)[..5] + [0]
  {
    [CMD_FRAME_MARKER, 0x06, CMD_SET_FRAME_RATE, Low8(rate), Low8(rate / 0x100)]
      + [0]
  }

  /** The frame-rate request as written validates only for the rates whose
      five leading bytes happen to sum to a multiple of 0x100; the default
      rate of 100 Hz is not one of them. */
  lemma SetFrameRateAsWrittenInvalid(rate: uint16)
    ensures ValidateChecksum(SetFrameRateRequestAsWritten(rate)) <==> SetFrameRateRequest(rate)[5] == 0
    ensures !ValidateChecksum(SetFrameRateRequestAsWritten(100))
  {
    var intended := SetFrameRateRequest(rate);
    var written := SetFrameRateRequestAsWritten(rate);
    assert written[..5] == intended[..5];
    var intended100 := SetFrameRateRequest(100);
    assert intended100[..5] == [CMD_FRAME_MARKER, 0x06, CMD_SET_FRAME_RATE] + [100, 0];
    ChecksumOfHead(CMD_FRAME_MARKER, 0x06, CMD_SET_FRAME_RATE, [100, 0]);
    SumCons(100, [0]);
    SumCons(0, []);
    assert [0] + [] == [0];
    assert SetFrameRateRequestAsWritten(100)[..5] == intended100[..5];
  }

  /** `setMeasurementTo` request as written: high byte then low byte of the
      argument, with no checksum computed; the low byte sits in the checksum slot. */
  function SetMeasurementRequestAsWritten(measurement: uint16): (frame: seq<byte>)
    ensures |frame| == 5 && frame[..3] == [CMD_FRAME_MARKER, 0x05, CMD_SET_MEASUREMENT]
    ensures ReadInt16FromBuffer(frame, 3) == measurement
  {
    [CMD_FRAME_MARKER, 0x05, CMD_SET_MEASUREMENT, Low8(measurement / 0x100), Low8(measurement)]
  }

  /** `setMeasurementTo` request as intended: a five-byte frame has room for
      one payload byte, the low byte of the argument, then the checksum. */
  function SetMeasurementRequest(measurement: uint16): (frame: seq<byte>)
    ensures frame == BuildCommand(CMD_SET_MEASUREMENT, [Low8(measurement)])
  {
    var p := Low8(measurement);
    OneByteCommand(CMD_SET_MEASUREMENT, p);
    [CMD_FRAME_MARKER, 0x05, CMD_SET_MEASUREMENT, p, (CMD_FRAME_MARKER + 0x05 + CMD_SET_MEASUREMENT + p) % 0x100]
  }

  /** The measurement request as written validates only when the low byte
      of the argument equals the checksum of the bytes before it; selecting
      mode 1 sends 5A 05 05 00 01, which does not validate. */
  lemma SetMeasurementAsWrittenInvalid(measurement: uint16)
    ensures ValidateChecksum(SetMeasurementRequestAsWritten(measurement))
      <==> Low8(measurement) == (CMD_FRAME_MARKER + 0x05 + CMD_SET_MEASUREMENT + Low8(measurement / 0x100)) % 0x100
    ensures !ValidateChecksum(SetMeasurementRequestAsWritten(1))
  {
    var frame := SetMeasurementRequestAsWritten(measurement);
    ChecksumOfHead(CMD_FRAME_MARKER, 0x05, CMD_SET_MEASUREMENT, [Low8(measurement / 0x100)]);
    SumCons(Low8(measurement / 0x100), []);
    assert [Low8(measurement / 0x100)] + [] == [Low8(measurement / 0x100)];
    assert frame[..4] == [CMD_FRAME_MARKER, 0x05, CMD_SET_MEASUREMENT] + [Low8(measurement / 0x100)];
    var one := SetMeasurementRequestAsWritten(1);
    ChecksumOfHead(CMD_FRAME_MARKER, 0x05, CMD_SET_MEASUREMENT, [0]);
    SumCons(0, []);
    assert [0] + [] == [0];
    assert one[..4] == [CMD_FRAME_MARKER, 0x05, CMD_SET_MEASUREMENT] + [0];
  }

  /** `setBaudRate` request: 5A 08 06, the baud rate little-endian in bytes
      3..6, then the checksum of those seven bytes. */
  function SetBaudRateRequest(baud: uint32): (frame: seq<byte>)
    ensures |frame| == 8 && frame[..3] == [CMD_FRAME_MARKER, 0x08, CMD_SET_BAUD_RATE]
    ensures ValidateChecksum(frame)
    ensures frame[3] as int + frame[4] as int * 0x100 + frame[5] as int * 0x1_0000 + frame[6] as int * 0x100_0000 == baud
  {
    Uint32RoundTrip(baud);
    BuildCommand(CMD_SET_BAUD_RATE, Uint32ToLittleEndian(baud))
  }

  /** Encoder and decoder agree: a command frame preceded by any bytes other
      than 0x5A is read back whole by `readCommandResponse`, and the stream
      resumes right after it. */
  lemma CommandRoundTrip(garbage: seq<byte>, code: byte, payload: seq<byte>, tail: seq<byte>)
    requires |payload| <= MAX_CMD_RESPONSE_LENGTH - 4
    requires CMD_FRAME_MARKER !in garbage
    ensures ReadCommandResponse(garbage + BuildCommand(code, payload) + tail)
      == Response(Ok(BuildCommand(code, payload)), tail)
  {
    var frame := BuildCommand(code, payload);
    var s := garbage + frame + tail;
    assert s == garbage + [CMD_FRAME_MARKER] + (frame[1..] + tail);
    SkipOverGarbage(CMD_FRAME_MARKER, garbage, frame[1..] + tail);
    var k := FirstIndex(CMD_FRAME_MARKER, s);
    assert k == |garbage|;
    assert s[k + 1] == |frame|;
    assert s[k..k + |frame|] == frame;
    assert s[k + |frame|..] == tail;
  }

  /** A response with any one byte from the code on corrupted in transit,
      the checksum byte included, is refused as a checksum mismatch, and
      exactly its bytes are consumed. */
  lemma CorruptResponseRejected(garbage: seq<byte>, code: byte, payload: seq<byte>, i: nat, c: byte, rest: seq<byte>)
    requires |payload| <= MAX_CMD_RESPONSE_LENGTH - 4
    requires 2 <= i < |payload| + 4
    requires CMD_FRAME_MARKER !in garbage && c != BuildCommand(code, payload)[i]
    ensures var bad := BuildCommand(code, payload)[i := c];
      var s := garbage + bad + rest;
      s[|garbage|] == CMD_FRAME_MARKER && ReadCommandResponse(s) == Response(Err(ChecksumMismatch), rest)
  {
    var frame := BuildCommand(code, payload);
    var bad := frame[i := c];
    SingleByteCorruptionDetected(frame, i, c);
    var s := garbage + bad + rest;
    assert s == garbage + [CMD_FRAME_MARKER] + (bad[1..] + rest);
    FirstIndexAfterGarbage(CMD_FRAME_MARKER, garbage, bad[1..] + rest);
    var k := FirstIndex(CMD_FRAME_MARKER, s);
    assert s[k + 1] == |bad|;
    assert s[k..k + |bad|] == bad;
    assert s[k + |bad|..] == rest;
  }

  /** After a response corrupted anywhere from its code on, the driver is
      back in step: the next read returns the reply that follows it. */
  lemma CorruptResponseSkipped(garbage: seq<byte>, code: byte, payload: seq<byte>, i: nat, c: byte,
                               nextCode: byte, nextPayload: seq<byte>, tail: seq<byte>)
    requires |payload| <= MAX_CMD_RESPONSE_LENGTH - 4 && |nextPayload| <= MAX_CMD_RESPONSE_LENGTH - 4
    requires 2 <= i < |payload| + 4
    requires CMD_FRAME_MARKER !in garbage && c != BuildCommand(code, payload)[i]
    ensures var bad := BuildCommand(code, payload)[i := c];
      var next := BuildCommand(nextCode, nextPayload);
      var first := ReadCommandResponse(garbage + bad + next + tail);
      && first == Response(Err(ChecksumMismatch), next + tail)
      && ReadCommandResponse(first.rest) == Response(Ok(next), tail)
  {
    var bad := BuildCommand(code, payload)[i := c];
    var next := BuildCommand(nextCode, nextPayload);
    CorruptResponseRejected(garbage, code, payload, i, c, next + tail);
    assert garbage + bad + next + tail == garbage + bad + (next + tail);
    CommandRoundTrip([], nextCode, nextPayload, tail);
    assert [] + next + tail == next + tail;
  }

  /** The one byte whose corruption is not contained: a length byte raised
      in transit makes the read run on into the next response. The version
      reply `5A 04 01 5F` with its length raised to 6, followed by the
      status reply `5A 04 02 60`, is refused, but the refusal consumes the
      status reply's marker and length byte, so that reply is lost. */
  lemma CorruptLengthSwallowsNext(tail: seq<byte>)
    ensures var s: seq<byte> := [CMD_FRAME_MARKER, 6, 0x01, 0x5F] + BuildCommand(CMD_SYSTEM_RESET, []) + tail;
      && ReadCommandResponse(s) == Response(Err(ChecksumMismatch), [0x02, 0x60] + tail)
      && CMD_FRAME_MARKER !in [0x02, 0x60]
  {
    BareCommand(CMD_SYSTEM_RESET);
    var s: seq<byte> := [CMD_FRAME_MARKER, 6, 0x01, 0x5F] + BuildCommand(CMD_SYSTEM_RESET, []) + tail;
    assert FirstIndex(CMD_FRAME_MARKER, s) == 0;
    assert s[0..6] == [CMD_FRAME_MARKER, 6, 0x01, 0x5F, CMD_FRAME_MARKER, 4];
    assert s[6..] == [0x02, 0x60] + tail;
    ChecksumOfHead(CMD_FRAME_MARKER, 6, 0x01, [0x5F, CMD_FRAME_MARKER]);
    assert Sum([0x5F, CMD_FRAME_MARKER]) == 0x5F + CMD_FRAME_MARKER by {
      assert [0x5F, CMD_FRAME_MARKER][..1] == [0x5F];
      assert [0x5F][..0] == [];
    }
    assert s[0..6][..5] == [CMD_FRAME_MARKER, 6, 0x01] + [0x5F, CMD_FRAME_MARKER];
  }
}
