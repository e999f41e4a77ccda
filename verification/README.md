# TFMini Plus LIDAR driver — a Dafny model

This project models the byte-level core of the TFMini Plus driver
(`LidarScanner/lib/TFMiniPlus/TFMiniPlus.cpp`): the 8-bit checksum, the frame
synchroniser that skips to a marker byte, the 9-byte data-frame decoder and its
field accessors, the length-prefixed command-response decoder, the command
frames the driver writes, and the success test each command applies to the
sensor's reply.

The serial port is replaced by values. The input is a finite byte string
(`seq<byte>`). Each decoder returns its result together with the unread rest
of that string. Writing is modelled by returning the bytes sent. Nothing else
is stateful: `readData` clears its buffer before every read, so its result does
not depend on the previous one.

Modules, leaves first:

- `Bytes` (`bytes.dfy`): `uint8_t`/`uint16_t`/`uint32_t`, the little-endian
  accessors of the data frame, the big-endian `readInt16FromBuffer` and
  `readInt32FromBuffer`, and the little-endian outbound payloads.
- `Checksums` (`checksum.dfy`): `generateChecksum` with its 16-bit accumulator,
  `validateChecksum`, and what the checksum detects.
- `Sync` (`sync.dfy`): `skipToFrameHeader`.
- `DataFrame` (`data_frame.dfy`): `readData` and the getters.
- `Outcomes` (`outcomes.dfy`): result and option values.
- `CommandResponse` (`command_response.dfy`): `readCommandResponse`.
- `Commands` (`commands.dfy`): the request frames.
- `Driver` (`driver.dfy`): the public operations and their success tests.

Notes on the code:

- A failed `readData` leaves the buffer all zeros, because of the reset at
  line 25; it does not keep the previous reading.
- The getters read bytes 2..7 of the data frame (lines 47, 51, 59), so byte 1
  is a second header byte that only the checksum covers. A frame
  `59 10 00 20 00 30 00 40 cs` gives distance 0x2000.
- Only `setFrameRate` stores its checksum past its array. `setBaudRate`
  declares an 8-byte array and stores the checksum at index 7, which is in
  bounds.
- The echo checks read both the request and the response big-endian. Equal
  big-endian values mean equal bytes, so the outbound little-endian order
  does no harm (`Bytes.ReadInt16Injective`, `Bytes.ReadInt32Injective`).
- `setEnabled(true)` sends payload `00` and `setEnabled(false)` sends `01`,
  as written.
- The checksum isolates a corrupt command response only when the length
  byte survives: a corrupted code, payload or checksum byte costs exactly
  the failed frame, but a raised length byte makes the read run on into the
  next response (`Commands.CorruptLengthSwallowsNext`).
- The outcome of a command-response read is stated against the stream
  itself, from the position `k` of the first 0x5A: `ResponseOutcome` for
  the checked decoder and `BodyOutcome` for the body read and the decoder
  as written. `Driver.ResponseValidated` names the accepted case.

## Model

| member | source | states |
|---|---|---|
| `Bytes.ReadLittleEndian16` | LidarScanner/lib/TFMiniPlus/TFMiniPlus.cpp:46-60 | the first of the two bytes is the low byte and the second is the high byte of the 16-bit field |
| `Bytes.ReadInt16FromBuffer` | LidarScanner/lib/TFMiniPlus/TFMiniPlus.cpp:239-242 | the byte at `start` is the high byte and the next byte is the low byte |
| `Bytes.ReadInt16Injective` | LidarScanner/lib/TFMiniPlus/TFMiniPlus.cpp:239-242 | two 16-bit big-endian reads are equal iff the two byte pairs are equal |
| `Bytes.ReadInt32FromBuffer` | LidarScanner/lib/TFMiniPlus/TFMiniPlus.cpp:244-248 | the four bytes from `start` are the value's base-256 digits, most significant first |
| `Bytes.ReadInt32Injective` | LidarScanner/lib/TFMiniPlus/TFMiniPlus.cpp:244-248 | two 32-bit big-endian reads are equal iff the two byte quadruples are equal |
| `Bytes.Uint16ToLittleEndian` | LidarScanner/lib/TFMiniPlus/TFMiniPlus.cpp:86-88 | the two outbound bytes, read least significant first, give back the 16-bit value |
| `Bytes.Uint16RoundTrip` | LidarScanner/lib/TFMiniPlus/TFMiniPlus.cpp:86-88 | the little-endian field reader gives back the value the encoder split |
| `Bytes.Uint32ToLittleEndian` | LidarScanner/lib/TFMiniPlus/TFMiniPlus.cpp:122-127 | the four shifted-and-truncated bytes, read least significant first, give back the baud rate |
| `Bytes.Uint32RoundTrip` | LidarScanner/lib/TFMiniPlus/TFMiniPlus.cpp:120-128 | b0 + b1·2^8 + b2·2^16 + b3·2^24 over the outbound bytes equals the original `uint32` |
| `Checksums.GenerateChecksum` | LidarScanner/lib/TFMiniPlus/TFMiniPlus.cpp:224-230 | the result is the sum of the first `length` bytes mod 256; the 16-bit accumulator never wraps because the length is at most 255 (loop invariant `sum <= 0xFF * i`) |
| `Checksums.CheckFrame` | LidarScanner/lib/TFMiniPlus/TFMiniPlus.cpp:182-190 | `validateChecksum(buf, n)` holds iff `buf[n-1]` is the checksum of `buf[0..n-1)` |
| `Checksums.AppendChecksumValidates` | LidarScanner/lib/TFMiniPlus/TFMiniPlus.cpp:128 | appending the checksum of any prefix yields a frame that validates, and no other appended byte does |
| `Checksums.SingleByteCorruptionDetected` | LidarScanner/lib/TFMiniPlus/TFMiniPlus.cpp:182-190 | changing any one byte of a valid frame, the checksum byte included, makes it invalid |
| `Sync.FirstIndex` | LidarScanner/lib/TFMiniPlus/TFMiniPlus.cpp:232-237 | the index found holds the marker and no earlier byte does |
| `Sync.SkipFrom` | LidarScanner/lib/TFMiniPlus/TFMiniPlus.cpp:233-236 | the loop stops at once when the last byte read is the marker; otherwise it leaves exactly the stream after the first occurrence |
| `Sync.SkipToFrameHeader` | LidarScanner/lib/TFMiniPlus/TFMiniPlus.cpp:232-237 | a zero marker consumes nothing, because the loop starts with `currentChar = 0`; any other marker is consumed together with every byte before its first occurrence |
| `Sync.SkippedBytesPrecedeMarker` | LidarScanner/lib/TFMiniPlus/TFMiniPlus.cpp:232-237 | the last byte consumed is the marker, no earlier consumed byte equals it, and what remains is the untouched suffix of the stream |
| `Sync.SkipOverGarbage` | LidarScanner/lib/TFMiniPlus/TFMiniPlus.cpp:232-237 | after any marker-free garbage, the synchroniser leaves exactly the bytes following the marker |
| `DataFrame.ReadData` | LidarScanner/lib/TFMiniPlus/TFMiniPlus.cpp:22-44 | succeeds iff the 9 bytes from the first 0x59 are present and validate; it then stores exactly them, otherwise the buffer is all zeros; the stream resumes 9 bytes after the marker |
| `DataFrame.GetDistance` | LidarScanner/lib/TFMiniPlus/TFMiniPlus.cpp:46-48 | byte 2 of the stored frame is the low byte and byte 3 the high byte of the distance |
| `DataFrame.GetSignalStrength` | LidarScanner/lib/TFMiniPlus/TFMiniPlus.cpp:58-60 | byte 4 of the stored frame is the low byte and byte 5 the high byte of the signal strength |
| `DataFrame.GetSensorRawTemperature` | LidarScanner/lib/TFMiniPlus/TFMiniPlus.cpp:50-52 | byte 6 of the stored frame is the low byte and byte 7 the high byte of the raw temperature |
| `DataFrame.EncodeDataFrame` | LidarScanner/lib/TFMiniPlus/TFMiniPlus.cpp:46-60 | a sensor frame for a reading validates and the three getters read the reading's distance, strength and raw temperature back |
| `DataFrame.ReadDataRoundTrip` | LidarScanner/lib/TFMiniPlus/TFMiniPlus.cpp:22-60 | after any garbage without 0x59, `readData` succeeds on a sensor frame, consumes exactly through it, and the getters return its fields |
| `DataFrame.FailedReadClearsReadings` | LidarScanner/lib/TFMiniPlus/TFMiniPlus.cpp:25 | after a failed read every getter returns 0 |
| `DataFrame.ResyncAfterCorruptFrame` | LidarScanner/lib/TFMiniPlus/TFMiniPlus.cpp:22-44 | a corrupt frame fails one read, consumes its 8 bytes, and the next read returns the following valid frame |
| `CommandResponse.ReadCommandBody` | LidarScanner/lib/TFMiniPlus/TFMiniPlus.cpp:206-221 | for a declared length of at least 2: success iff `length-2` bytes are present and `[5A, length] ++ body` validates; the frame is then exactly that, and on success and checksum failure alike `length-2` bytes are consumed |
| `CommandResponse.BodyOnStream` | LidarScanner/lib/TFMiniPlus/TFMiniPlus.cpp:206-221 | with the marker at `k` and a declared length of at least 2, reading the body after the length byte ends as `BodyOutcome`: the rebuilt frame is the stream slice from `k` of the declared length |
| `CommandResponse.ReadCommandResponse` | LidarScanner/lib/TFMiniPlus/TFMiniPlus.cpp:198-222 | from the first 0x5A at `k`: a stream ending at the marker is a short read; a declared length outside 2..8 is refused and reading resumes right after the length byte; a frame cut short is a short read; otherwise the declared number of bytes from `k` is returned whole when it validates and refused as a checksum mismatch when not, and either way reading resumes right after those bytes; an accepted frame fits the 8-byte buffers and its length byte is its length |
| `CommandResponse.ReadCommandResponseAsWritten` | LidarScanner/lib/TFMiniPlus/TFMiniPlus.cpp:198-222 | for every declared length from 2 up, with no upper bound: short when the stream ends inside the frame, otherwise the declared number of bytes from the first 0x5A is returned whole when it validates and refused when not, and reading resumes right after them |
| `CommandResponse.OversizedResponseAccepted` | LidarScanner/lib/TFMiniPlus/TFMiniPlus.cpp:207-218 | a valid 9-byte response is accepted as written, more than the 8-byte arrays hold; the checked decoder reports a malformed length |
| `Commands.BuildCommand` | LidarScanner/lib/TFMiniPlus/TFMiniPlus.cpp:120-128 | a command frame is marker, total length (checksum included), code, payload, and it validates |
| `Commands.CommandRoundTrip` | LidarScanner/lib/TFMiniPlus/TFMiniPlus.cpp:198-222 | `readCommandResponse` reads any built frame back whole after marker-free garbage and leaves the stream after it |
| `Commands.CorruptResponseRejected` | LidarScanner/lib/TFMiniPlus/TFMiniPlus.cpp:198-222 | a built response with any one byte from index 2 on changed (code, payload or checksum), after marker-free garbage, is refused as a checksum mismatch and exactly its bytes are consumed |
| `Commands.CorruptResponseSkipped` | LidarScanner/lib/TFMiniPlus/TFMiniPlus.cpp:198-222 | after such a corrupt response the next read returns the following response whole: a corrupted code, payload or checksum byte costs only the failed frame |
| `Commands.CorruptLengthSwallowsNext` | LidarScanner/lib/TFMiniPlus/TFMiniPlus.cpp:204-218 | the length byte is the exception: a version reply whose length is raised from 4 to 6 is refused, but the read consumes the marker and length byte of the status reply after it, so that reply is lost |
| `Commands.VersionRequest` | LidarScanner/lib/TFMiniPlus/TFMiniPlus.cpp:63 | `5A 04 01 5F` is the built, valid version command |
| `Commands.SystemResetRequest` | LidarScanner/lib/TFMiniPlus/TFMiniPlus.cpp:75 | `5A 04 02 60` is the built, valid reset command |
| `Commands.TriggerDetectionRequest` | LidarScanner/lib/TFMiniPlus/TFMiniPlus.cpp:101 | `5A 04 04 62` is the built, valid trigger command |
| `Commands.RestoreFactorySettingsRequest` | LidarScanner/lib/TFMiniPlus/TFMiniPlus.cpp:159 | `5A 04 10 6E` is the built, valid factory-restore command |
| `Commands.SaveSettingsRequest` | LidarScanner/lib/TFMiniPlus/TFMiniPlus.cpp:171 | `5A 04 11 6F` is the built, valid save command |
| `Commands.SetEnabledRequest` | LidarScanner/lib/TFMiniPlus/TFMiniPlus.cpp:140-147 | `5A 05 07 00 66` and `5A 05 07 01 67` are the built, valid enable-command frames |
| `Commands.SetFrameRateRequest` | LidarScanner/lib/TFMiniPlus/TFMiniPlus.cpp:85-91 | the intended frame `5A 06 03 lo hi cs` validates and its payload reads back as the rate |
| `Commands.SetFrameRateRequestAsWritten` | LidarScanner/lib/TFMiniPlus/TFMiniPlus.cpp:88-91 | the frame sent as written is the intended frame with its checksum byte replaced by 0 |
| `Commands.SetFrameRateAsWrittenInvalid` | LidarScanner/lib/TFMiniPlus/TFMiniPlus.cpp:88-91 | the frame as written validates iff the intended checksum happens to be 0; for 100 Hz it does not |
| `Commands.SetMeasurementRequestAsWritten` | LidarScanner/lib/TFMiniPlus/TFMiniPlus.cpp:105-111 | the frame as written is 5 bytes, starts `5A 05 05`, and its bytes 3..4 read big-endian are the argument |
| `Commands.SetMeasurementAsWrittenInvalid` | LidarScanner/lib/TFMiniPlus/TFMiniPlus.cpp:107-111 | the frame as written validates iff the low byte equals the checksum of the bytes before it; for mode 1 it does not |
| `Commands.SetMeasurementRequest` | LidarScanner/lib/TFMiniPlus/TFMiniPlus.cpp:105-111 | the intended frame is the built, valid command with the argument's low byte as its one payload byte |
| `Commands.SetBaudRateRequest` | LidarScanner/lib/TFMiniPlus/TFMiniPlus.cpp:120-128 | the 8-byte frame `5A 08 06 b0 b1 b2 b3 cs` validates and bytes 3..6 reassembled little-endian give back the baud rate |
| `Driver.StatusCommand` | LidarScanner/lib/TFMiniPlus/TFMiniPlus.cpp:74-83 | success iff the first response on the stream is valid, at least 4 bytes long, and the stream byte 3 places after its 0x5A is 0; the stream resumes after that response |
| `Driver.EchoCommand16` | LidarScanner/lib/TFMiniPlus/TFMiniPlus.cpp:92-94 | success iff the accepted frame has at least 5 bytes and its bytes 3..4 equal the request's bytes 3..4, although both are compared as big-endian values |
| `Driver.EchoCommand32` | LidarScanner/lib/TFMiniPlus/TFMiniPlus.cpp:130-132 | success iff the accepted frame has at least 7 bytes and its bytes 3..6 equal the request's bytes 3..6, although both are compared as big-endian values |
| `Driver.AcceptedResponse` | LidarScanner/lib/TFMiniPlus/TFMiniPlus.cpp:198-222 | `ResponseValidated` holds exactly when `readCommandResponse` accepts a frame of at least the given length |
| `Driver.GetVersion` | LidarScanner/lib/TFMiniPlus/TFMiniPlus.cpp:62-72 | sends the version command; a version exists iff the first response on the stream is valid and at least 6 bytes long, and it is (byte k+5, byte k+4, byte k+3) of the stream, `k` being the position of its 0x5A |
| `Driver.SystemReset` | LidarScanner/lib/TFMiniPlus/TFMiniPlus.cpp:74-83 | sends `5A 04 02 60`; succeeds iff the first response on the stream is valid, at least 4 bytes long, and carries status 0 in its byte 3 |
| `Driver.RestoreFactorySettings` | LidarScanner/lib/TFMiniPlus/TFMiniPlus.cpp:157-166 | sends `5A 04 10 6E`; succeeds iff the first response on the stream is valid, at least 4 bytes long, and carries status 0 in its byte 3 |
| `Driver.SaveSettings` | LidarScanner/lib/TFMiniPlus/TFMiniPlus.cpp:168-178 | sends `5A 04 11 6F`; succeeds iff the first response on the stream is valid, at least 4 bytes long, and carries status 0 in its byte 3 |
| `Driver.SetFrameRate` | LidarScanner/lib/TFMiniPlus/TFMiniPlus.cpp:85-98 | sends the intended frame-rate frame, whose bytes 3..4 read little-endian are the rate; succeeds iff the accepted frame has at least 5 bytes and its bytes 3..4 read little-endian are the rate |
| `Driver.SetMeasurementTo` | LidarScanner/lib/TFMiniPlus/TFMiniPlus.cpp:105-118 | sends the intended measurement frame; succeeds iff the accepted frame has at least 5 bytes and echoes bytes 3..4 of the request |
| `Driver.SetMeasurementToAsWritten` | LidarScanner/lib/TFMiniPlus/TFMiniPlus.cpp:105-118 | sends `5A 05 05 H L` as written; succeeds iff the accepted frame has at least 5 bytes and its bytes 3..4 read big-endian are the argument |
| `Driver.TriggerDetection` | LidarScanner/lib/TFMiniPlus/TFMiniPlus.cpp:100-103 | sends `5A 04 04 62` and reads nothing: the stream is left untouched |
| `Driver.SetEnabled` | LidarScanner/lib/TFMiniPlus/TFMiniPlus.cpp:138-155 | sends the enable frame for the state; succeeds iff the accepted frame has at least 5 bytes and echoes bytes 3..4 of the request |
| `Driver.SetBaudRate` | LidarScanner/lib/TFMiniPlus/TFMiniPlus.cpp:120-136 | sends the baud-rate frame; succeeds iff the accepted frame has at least 7 bytes and echoes bytes 3..6 of the request |
| `Driver.EchoedRequestAccepted` | LidarScanner/lib/TFMiniPlus/TFMiniPlus.cpp:149-153 | a sensor that echoes the request makes the echo check succeed, and the stream resumes after the echo |
| `Driver.SetFrameRateRoundTrip` | LidarScanner/lib/TFMiniPlus/TFMiniPlus.cpp:85-98 | against a reply carrying rate `echoed`, `setFrameRate(rate)` succeeds iff `echoed == rate` |
| `Driver.SetBaudRateRoundTrip` | LidarScanner/lib/TFMiniPlus/TFMiniPlus.cpp:120-136 | against a reply carrying baud rate `echoed`, `setBaudRate(baud)` succeeds iff `echoed == baud` |
| `Driver.SetEnabledRoundTrip` | LidarScanner/lib/TFMiniPlus/TFMiniPlus.cpp:138-155 | against a reply carrying state `echoed`, `setEnabled(state)` succeeds iff `echoed == state` |
| `Driver.SetMeasurementRoundTrip` | LidarScanner/lib/TFMiniPlus/TFMiniPlus.cpp:105-118 | against a reply for value `echoed`, `setMeasurementTo(m)` succeeds iff both have the same low byte |
| `Driver.SetMeasurementAsWrittenRoundTrip` | LidarScanner/lib/TFMiniPlus/TFMiniPlus.cpp:105-118 | as written, against a reply `5A 05 05 p cs`, `setMeasurementTo(m)` succeeds iff `m` is `p·0x100 + cs`, the reply's payload and checksum bytes read big-endian |
| `Driver.StatusReplyRoundTrip` | LidarScanner/lib/TFMiniPlus/TFMiniPlus.cpp:157-178 | against a one-byte status reply, reset, factory-restore and save succeed iff the status is 0 |
| `Driver.VersionRoundTrip` | LidarScanner/lib/TFMiniPlus/TFMiniPlus.cpp:62-72 | after any garbage without 0x5A, a reply with payload `p m M` yields version `M.m.p` (payload 01 02 03 gives 3.2.1) and the stream resumes after the reply |

## Left out

- Transport plumbing (`begin`, `write`, the `Stream` object): writes become the `sent` bytes of an exchange, and reads consume a finite byte string.
- Blocking in `skipToFrameHeader` (lines 232-237) when the marker never comes: every decoder requires the marker to occur in its input.
- `readBytes` timeouts: a stream that ends mid-frame is a failed read (`ReadShort`). The source would go on with uninitialised buffer bytes, and with a length byte of 0 after a timed-out read.
- `getSensorTempreture` (line 54-56): floating point; only the raw 16-bit value is modelled.
- The `String` formatting of `getVersion`: the result is the byte triple or `None` for "Error".
- `readInt32FromBuffer` on a platform with 16-bit `int`: `buffer[i] << 24` is undefined there; the model uses the mathematical value b0·2^24 + b1·2^16 + b2·2^8 + b3.
- Response arrays smaller than the frame copied into them: `commandResponse[4]` in `restoreFactorySettings` and `saveSettings`, `[5]` in `systemReset`, `setMeasurementTo` and `setEnabled`, `[6]` in `setFrameRate` and `[7]` in `getVersion` all receive `length` bytes at line 218: at most 8 in the checked decoder, up to 255 as written. Memory is not modelled; these overruns are source defects.
- Bytes of a response beyond its declared length: the source then reads stale array contents (for example byte 3 of a 3-byte reply). The model treats such a response as a failure.
- `copyBuffer`, `resetBuffer` and the frame-assembly loops are sequence operations in the model.
- Driver.SetFrameRate: sends the corrected frame of the first finding below, not the frame as written.
- Driver.SetMeasurementTo: sends the corrected frame of the second finding below; the frame as written is sent by `Driver.SetMeasurementToAsWritten`.
- CommandResponse.ReadCommandResponseAsWritten: a declared length below 2, or a stream that ends right after the marker, is not modelled. For length 1, line 208 reads `(size_t)-1` bytes; validation itself then compares 0 with `frame[0]` and fails. For length 0, line 208 reads `(size_t)-2` bytes, line 183 sums 255 bytes of the 8-byte frame and line 184 reads `frame[-1]`.

## Findings

| source | as written | input that shows it | evidently intended | confidence | as-written member | corrected member |
|---|---|---|---|---|---|---|
| LidarScanner/lib/TFMiniPlus/TFMiniPlus.cpp:88-91 | the checksum is stored at `buffer[6]` of a 6-byte array; the sixth byte sent is the zero left by the initializer | `setFrameRate(100)` sends `5A 06 03 64 00 00`, whose checksum byte should be `C7` | send `5A 06 03 lo hi checksum` | high, not executed | `Commands.SetFrameRateAsWrittenInvalid` | `Commands.SetFrameRateRequest` |
| LidarScanner/lib/TFMiniPlus/TFMiniPlus.cpp:107-111 | no checksum is computed; the argument's high byte fills the payload slot and its low byte the checksum slot | `setMeasurementTo(1)` sends `5A 05 05 00 01`, whose checksum byte should be `64` | send `5A 05 05 <low byte> <checksum>`, e.g. `5A 05 05 01 65`; a competing reading is that callers pass the payload and its checksum pre-encoded as `payload·0x100 + checksum`, so that `setMeasurementTo(0x0165)` sends the valid `5A 05 05 01 65`, and nothing in the source settles which is meant | low, not executed | `Commands.SetMeasurementAsWrittenInvalid` | `Commands.SetMeasurementRequest` |
| LidarScanner/lib/TFMiniPlus/TFMiniPlus.cpp:204-218 | the declared length sizes the body read and the copy into 8-byte arrays with no range check | the reply `5A 09 00 00 00 00 00 00 63` is accepted and all 9 bytes are written into 8-byte arrays; a length byte of 1 makes the read count -1 | reject a declared length outside 2..8 before reading the body | high, not executed | `CommandResponse.OversizedResponseAccepted` | `CommandResponse.ReadCommandResponse` |
