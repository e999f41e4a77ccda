/** The driver facade: each public operation writes one request and, except
    for `triggerDetection`, reads and judges one response. Writing is modelled
    by returning the bytes sent; reading consumes the input stream. A request
    succeeds either on an echo (the response repeats the value bytes of the
    request) or on a zero status byte. */
module Driver {
  import opened Bytes
  import opened Checksums
  import opened Sync
  import opened Outcomes
  import opened CommandResponse
  import opened Commands

  /** One request/response round trip: bytes written, result, unread stream. */
  datatype Exchange = Exchange(sent: seq<byte>, ok: bool, rest: seq<byte>)

  /** The firmware version `major.minor.patch`. */
  datatype Version = Version(major: byte, minor: byte, patch: byte)

  /** The `getVersion` round trip: bytes written, version or the "Error"
      outcome, unread stream. */
  datatype VersionQuery = VersionQuery(sent: seq<byte>, version: Option<Version>, rest: seq<byte>)

  /** The response whose marker sits at `k` is valid and at least
      `minLength` bytes long: a declared length in minLength..8, that many
      bytes present from `k`, and a checksum that holds. */
  predicate ValidatedAt(s: seq<byte>, k: nat, minLength: nat)
    requires k < |s|
  {
    && k + 1 < |s| && minLength <= s[k + 1] <= MAX_CMD_RESPONSE_LENGTH
    && k + s[k + 1] <= |s| && ValidateChecksum(s[k..k + s[k + 1]])
  }

  /** The first response on the stream is valid and at least `minLength`
      bytes long. */
  predicate ResponseValidated(input: seq<byte>, minLength: nat)
    requires CMD_FRAME_MARKER in input
  {
    ValidatedAt(input, FirstIndex(CMD_FRAME_MARKER, input), minLength)
  }

  /** Any read that ends as `ResponseOutcome` from `k` accepts a frame of at
      least `minLength` bytes exactly when `ValidatedAt` holds, and the frame
      it accepts is the stream from `k` on. */
  lemma AcceptedAt(s: seq<byte>, k: nat, minLength: nat, r: Response)
    requires k < |s| && 2 <= minLength && ResponseOutcome(s, k, r)
    ensures ValidatedAt(s, k, minLength) <==> r.frame.Ok? && |r.frame.value| >= minLength
    ensures r.frame.Ok? ==> k + |r.frame.value| <= |s| && r.frame.value == s[k..k + |r.frame.value|]
  {
  }

  /** `ResponseValidated` is what `readCommandResponse` accepts, restricted
      to frames of at least `minLength` bytes. */
  lemma AcceptedResponse(input: seq<byte>, minLength: nat)
    requires CMD_FRAME_MARKER in input && 2 <= minLength
    ensures var r := ReadCommandResponse(input).frame;
      ResponseValidated(input, minLength) <==> r.Ok? && |r.value| >= minLength
  {
    AcceptedAt(input, FirstIndex(CMD_FRAME_MARKER, input), minLength, ReadCommandResponse(input));
  }

  /** Success test of `systemReset`, `restoreFactorySettings` and
      `saveSettings`: a valid response whose byte 3 is zero. */
  function StatusCommand(request: seq<byte>, input: seq<byte>): (x: Exchange)
    requires CMD_FRAME_MARKER in input
    ensures x.sent == request && x.rest == ReadCommandResponse(input).rest
    ensures x.ok <==> ResponseValidated(input, 4) && input[FirstIndex(CMD_FRAME_MARKER, input) + 3] == 0
  {
    var response := ReadCommandResponse(input);
    AcceptedResponse(input, 4);
    var ok := response.frame.Ok? && |response.frame.value| > 3 && response.frame.value[3] == 0;
    Exchange(request, ok, response.rest)
  }

  /** Success test of `setFrameRate`, `setMeasurementTo` and `setEnabled`:
      a valid response whose bytes 3..4, read big-endian, equal the request's
      bytes 3..4 read the same way; that is, the two byte pairs are equal. */
  function EchoCommand16(request: seq<byte>, input: seq<byte>): (x: Exchange)
    requires |request| >= 5 && CMD_FRAME_MARKER in input
    ensures x.sent == request && x.rest == ReadCommandResponse(input).rest
    ensures var r := ReadCommandResponse(input).frame;
      x.ok <==> r.Ok? && |r.value| >= 5 && r.value[3..5] == request[3..5]
  {
    var response := ReadCommandResponse(input);
    if response.frame.Ok? && |response.frame.value| >= 5 then
      ReadInt16Injective(response.frame.value, 3, request, 3);
      Exchange(request, ReadInt16FromBuffer(response.frame.value, 3) == ReadInt16FromBuffer(request, 3), response.rest)
    else
      Exchange(request, false, response.rest)
  }

  /** Success test of `setBaudRate`: a valid response whose bytes 3..6 equal
      the request's bytes 3..6, compared as big-endian 32-bit values. */
  function EchoCommand32(request: seq<byte>, input: seq<byte>): (x: Exchange)
    requires |request| >= 7 && CMD_FRAME_MARKER in input
    ensures x.sent == request && x.rest == ReadCommandResponse(input).rest
    ensures var r := ReadCommandResponse(input).frame;
      x.ok <==> r.Ok? && |r.value| >= 7 && r.value[3..7] == request[3..7]
  {
    var response := ReadCommandResponse(input);
    if response.frame.Ok? && |response.frame.value| >= 7 then
      ReadInt32Injective(response.frame.value, 3, request, 3);
      Exchange(request, ReadInt32FromBuffer(response.frame.value, 3) == ReadInt32FromBuffer(request, 3), response.rest)
    else
      Exchange(request, false, response.rest)
  }

  /** `getVersion`: on a valid response of at least six bytes, the version is
      read from bytes 5, 4 and 3, in that order. */
  function GetVersion(input: seq<byte>): (q: VersionQuery)
    requires CMD_FRAME_MARKER in input
    ensures q.sent == BuildCommand(CMD_GET_VERSION, []) && q.rest == ReadCommandResponse(input).rest
    ensures q.version.Some? <==> ResponseValidated(input, 6)
    ensures q.version.Some? ==> var k := FirstIndex(CMD_FRAME_MARKER, input);
      q.version.value == Version(input[k + 5], input[k + 4], input[k + 3])
  {
    var response := ReadCommandResponse(input);
    AcceptedResponse(input, 6);
    if response.frame.Ok? && |response.frame.value| >= 6 then
      var v := response.frame.value;
      VersionQuery(VersionRequest(), Some(Version(v[5], v[4], v[3])), response.rest)
    else
      VersionQuery(VersionRequest(), None, response.rest)
  }

  /** `systemReset` */
  function SystemReset(input: seq<byte>): (x: Exchange)
    requires CMD_FRAME_MARKER in input
    ensures x.rest == ReadCommandResponse(input).rest
    ensures x.sent == BuildCommand(CMD_SYSTEM_RESET, [])
    ensures x.ok <==> ResponseValidated(input, 4) && input[FirstIndex(CMD_FRAME_MARKER, input) + 3] == 0
  {
    StatusCommand(SystemResetRequest(), input)
  }

  /** `restoreFactorySettings` */
  function RestoreFactorySettings(input: seq<byte>): (x: Exchange)
    requires CMD_FRAME_MARKER in input
    ensures x.rest == ReadCommandResponse(input).rest
    ensures x.sent == BuildCommand(CMD_RESTORE_FACTORY_SETTINGS, [])
    ensures x.ok <==> ResponseValidated(input, 4) && input[FirstIndex(CMD_FRAME_MARKER, input) + 3] == 0
  {
    StatusCommand(RestoreFactorySettingsRequest(), input)
  }

  /** `saveSettings` */
  function SaveSettings(input: seq<byte>): (x: Exchange)
    requires CMD_FRAME_MARKER in input
    ensures x.rest == ReadCommandResponse(input).rest
    ensures x.sent == BuildCommand(CMD_SAVE_SETTINGS, [])
    ensures x.ok <==> ResponseValidated(input, 4) && input[FirstIndex(CMD_FRAME_MARKER, input) + 3] == 0
  {
    StatusCommand(SaveSettingsRequest(), input)
  }

  /** Two byte pairs are equal exactly when they read as the same
      little-endian value. */
  lemma SamePairSameValue(a: seq<byte>, i: nat, b: seq<byte>, j: nat)
    requires i + 2 <= |a| && j + 2 <= |b|
    ensures a[i..i + 2] == b[j..j + 2] <==> ReadLittleEndian16(a, i) == ReadLittleEndian16(b, j)
  {
    assert a[i..i + 2][0] == a[i] && a[i..i + 2][1] == a[i + 1];
    assert b[j..j + 2][0] == b[j] && b[j..j + 2][1] == b[j + 1];
  }

  /** `triggerDetection`: it writes the trigger command and reads nothing. */
  function TriggerDetection(input: seq<byte>): (x: Exchange)
    ensures x.sent == BuildCommand(CMD_TRIGGER_DETECTION, []) && x.rest == input
  {
    Exchange(TriggerDetectionRequest(), true, input)
  }

  /** `setFrameRate`, with the request frame as intended: it succeeds when
      the response's bytes 3..4, read little-endian, are the requested rate. */
  function SetFrameRate(rate: uint16, input: seq<byte>): (x: Exchange)
    requires CMD_FRAME_MARKER in input
    ensures x.rest == ReadCommandResponse(input).rest
    ensures x.sent == SetFrameRateRequest(rate) && ReadLittleEndian16(x.sent, 3) == rate
    ensures var r := ReadCommandResponse(input).frame;
      x.ok <==> r.Ok? && |r.value| >= 5 && ReadLittleEndian16(r.value, 3) == rate
  {
    var request := SetFrameRateRequest(rate);
    var response := ReadCommandResponse(input);
    var x := EchoCommand16(request, input);
    if response.frame.Ok? && |response.frame.value| >= 5 then
      SamePairSameValue(response.frame.value, 3, request, 3);
      x
    else
      x
  }

  /** `setMeasurementTo`, with the request frame as intended. */
  function SetMeasurementTo(measurement: uint16, input: seq<byte>): (x: Exchange)
    requires CMD_FRAME_MARKER in input
    ensures x.rest == ReadCommandResponse(input).rest
    ensures x.sent == BuildCommand(CMD_SET_MEASUREMENT, [Low8(measurement)])
    ensures var r := ReadCommandResponse(input).frame;
      x.ok <==> r.Ok? && |r.value| >= 5 && r.value[3..5] == x.sent[3..5]
  {
    EchoCommand16(SetMeasurementRequest(measurement), input)
  }

  /** `setMeasurementTo` as written: it sends `5A 05 05 H L`, the argument
      big-endian with no checksum computed, and succeeds when the response's
      bytes 3..4, read big-endian, are the argument. */
  function SetMeasurementToAsWritten(measurement: uint16, input: seq<byte>): (x: Exchange)
    requires CMD_FRAME_MARKER in input
    ensures x.sent == SetMeasurementRequestAsWritten(measurement) && x.rest == ReadCommandResponse(input).rest
    ensures var r := ReadCommandResponse(input).frame;
      x.ok <==> r.Ok? && |r.value| >= 5 && ReadInt16FromBuffer(r.value, 3) == measurement
  {
    var request := SetMeasurementRequestAsWritten(measurement);
    var response := ReadCommandResponse(input);
    var x := EchoCommand16(request, input);
    if response.frame.Ok? && |response.frame.value| >= 5 then
      ReadInt16Injective(response.frame.value, 3, request, 3);
      x
    else
      x
  }

  /** `setEnabled` */
  function SetEnabled(state: bool, input: seq<byte>): (x: Exchange)
    requires CMD_FRAME_MARKER in input
    ensures x.rest == ReadCommandResponse(input).rest
    ensures x.sent == BuildCommand(CMD_SET_ENABLED, [if state then 0x00 else 0x01])
    ensures var r := ReadCommandResponse(input).frame;
      x.ok <==> r.Ok? && |r.value| >= 5 && r.value[3..5] == x.sent[3..5]
  {
    EchoCommand16(SetEnabledRequest(state), input)
  }

  /** `setBaudRate` */
  function SetBaudRate(baud: uint32, input: seq<byte>): (x: Exchange)
    requires CMD_FRAME_MARKER in input
    ensures x.rest == ReadCommandResponse(input).rest
    ensures x.sent == SetBaudRateRequest(baud)
    ensures var r := ReadCommandResponse(input).frame;
      x.ok <==> r.Ok? && |r.value| >= 7 && r.value[3..7] == x.sent[3..7]
  {
    EchoCommand32(SetBaudRateRequest(baud), input)
  }

  /** A sensor that echoes the request back makes every echo-checked command
      succeed, and the stream resumes right after the echo. */
  lemma EchoedRequestAccepted(code: byte, payload: seq<byte>, garbage: seq<byte>, tail: seq<byte>)
    requires 1 <= |payload| <= MAX_CMD_RESPONSE_LENGTH - 4 && CMD_FRAME_MARKER !in garbage
    ensures var request := BuildCommand(code, payload);
      var x := EchoCommand16(request, garbage + request + tail);
      x.ok && x.rest == tail
  {
    CommandRoundTrip(garbage, code, payload, tail);
  }

  /** `setFrameRate` judged against a sensor that answers with the frame-rate
      frame for `echoed`: it succeeds exactly when the sensor echoes the rate
      that was requested. */
  lemma SetFrameRateRoundTrip(rate: uint16, echoed: uint16, garbage: seq<byte>, tail: seq<byte>)
    requires CMD_FRAME_MARKER !in garbage
    ensures SetFrameRate(rate, garbage + SetFrameRateRequest(echoed) + tail).ok <==> echoed == rate
  {
    CommandRoundTrip(garbage, CMD_SET_FRAME_RATE, Uint16ToLittleEndian(echoed), tail);
  }

  /** `setBaudRate` succeeds exactly when the sensor echoes the requested rate. */
  lemma SetBaudRateRoundTrip(baud: uint32, echoed: uint32, garbage: seq<byte>, tail: seq<byte>)
    requires CMD_FRAME_MARKER !in garbage
    ensures SetBaudRate(baud, garbage + SetBaudRateRequest(echoed) + tail).ok <==> echoed == baud
  {
    var reply := SetBaudRateRequest(echoed);
    var request := SetBaudRateRequest(baud);
    CommandRoundTrip(garbage, CMD_SET_BAUD_RATE, Uint32ToLittleEndian(echoed), tail);
    if reply[3..7] == request[3..7] {
      assert reply[3] == request[3] && reply[4] == request[4];
      assert reply[5] == request[5] && reply[6] == request[6];
    }
  }

  /** `setEnabled` succeeds exactly when the sensor echoes the requested state. */
  lemma SetEnabledRoundTrip(state: bool, echoed: bool, garbage: seq<byte>, tail: seq<byte>)
    requires CMD_FRAME_MARKER !in garbage
    ensures SetEnabled(state, garbage + SetEnabledRequest(echoed) + tail).ok <==> echoed == state
  {
    var reply := SetEnabledRequest(echoed);
    var request := SetEnabledRequest(state);
    CommandRoundTrip(garbage, CMD_SET_ENABLED, [if echoed then 0x00 else 0x01], tail);
    if reply[3..5] == request[3..5] {
      assert reply[3] == request[3];
    }
  }

  /** `setMeasurementTo` succeeds exactly when the sensor echoes the byte
      that was sent, the low byte of the requested value. */
  lemma SetMeasurementRoundTrip(measurement: uint16, echoed: uint16, garbage: seq<byte>, tail: seq<byte>)
    requires CMD_FRAME_MARKER !in garbage
    ensures SetMeasurementTo(measurement, garbage + SetMeasurementRequest(echoed) + tail).ok
      <==> Low8(echoed) == Low8(measurement)
  {
    var reply := SetMeasurementRequest(echoed);
    var request := SetMeasurementRequest(measurement);
    CommandRoundTrip(garbage, CMD_SET_MEASUREMENT, [Low8(echoed)], tail);
    OneByteCommand(CMD_SET_MEASUREMENT, Low8(echoed));
    OneByteCommand(CMD_SET_MEASUREMENT, Low8(measurement));
    if reply[3..5] == request[3..5] {
      assert reply[3] == request[3];
    }
  }

  /** `setMeasurementTo` as written, against a sensor that answers with a
      one-byte-payload frame `5A 05 05 p cs`: it succeeds exactly when the
      argument is `p * 0x100 + cs`, the payload and checksum bytes read
      big-endian. */
  lemma SetMeasurementAsWrittenRoundTrip(measurement: uint16, p: byte, garbage: seq<byte>, tail: seq<byte>)
    requires CMD_FRAME_MARKER !in garbage
    ensures var ok := SetMeasurementToAsWritten(measurement, garbage + BuildCommand(CMD_SET_MEASUREMENT, [p]) + tail).ok;
      ok <==> measurement == p * 0x100 + (CMD_FRAME_MARKER + 5 + CMD_SET_MEASUREMENT + p) % 0x100
  {
    CommandRoundTrip(garbage, CMD_SET_MEASUREMENT, [p], tail);
    OneByteCommand(CMD_SET_MEASUREMENT, p);
  }

  /** The status commands succeed exactly when the sensor's one-byte status
      reply carries 0; any other status is a failure. */
  lemma StatusReplyRoundTrip(code: byte, status: byte, garbage: seq<byte>, tail: seq<byte>)
    requires CMD_FRAME_MARKER !in garbage
    ensures SystemReset(garbage + BuildCommand(code, [status]) + tail).ok <==> status == 0
    ensures RestoreFactorySettings(garbage + BuildCommand(code, [status]) + tail).ok <==> status == 0
    ensures SaveSettings(garbage + BuildCommand(code, [status]) + tail).ok <==> status == 0
  {
    var reply := BuildCommand(code, [status]);
    var s := garbage + reply + tail;
    CommandRoundTrip(garbage, code, [status], tail);
    AcceptedResponse(s, 4);
    var k := FirstIndex(CMD_FRAME_MARKER, s);
    assert s[k + 3] == ReadCommandResponse(s).frame.value[3];
  }

  /** `getVersion` reads the reply's payload bytes in reverse: a reply with
      payload 01 02 03 reports version 3.2.1. */
  lemma VersionRoundTrip(major: byte, minor: byte, patch: byte, garbage: seq<byte>, tail: seq<byte>)
    requires CMD_FRAME_MARKER !in garbage
    ensures GetVersion(garbage + BuildCommand(CMD_GET_VERSION, [patch, minor, major]) + tail)
      == VersionQuery(BuildCommand(CMD_GET_VERSION, []), Some(Version(major, minor, patch)), tail)
  {
    var reply := BuildCommand(CMD_GET_VERSION, [patch, minor, major]);
    var s := garbage + reply + tail;
    CommandRoundTrip(garbage, CMD_GET_VERSION, [patch, minor, major], tail);
    AcceptedResponse(s, 6);
    var k := FirstIndex(CMD_FRAME_MARKER, s);
    var v := ReadCommandResponse(s).frame.value;
    assert s[k + 3] == v[3] && s[k + 4] == v[4] && s[k + 5] == v[5];
  }
}
