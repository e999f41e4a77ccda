/** `readCommandResponse`: synchronise to 0x5A, read the declared total
    length, read the remaining `length - 2` bytes, rebuild the frame and
    validate its checksum. The source keeps the frame in 8-byte arrays and
    never checks the declared length; this decoder rejects a length outside
    2..8 before reading the body. */
module CommandResponse {
  import opened Bytes
  import opened Checksums
  import opened Sync
  import opened Outcomes

  /** Capacity of the frame buffers of `readCommandResponse`. */
  const MAX_CMD_RESPONSE_LENGTH: nat := 8

  /** Why a response was refused. */
  datatype ResponseError =
    | ReadShort                 // the stream ended before the frame did
    | MalformedLength(length: byte)  // declared length outside 2..8
    | ChecksumMismatch          // the frame arrived but does not validate

  /** A decoded response frame (marker and length byte included), and the
      unread stream. */
  datatype Response = Response(frame: Result<seq<byte>, ResponseError>, rest: seq<byte>)

  /** The body read, reconstruction and validation for a declared length of
      at least 2. `s` is the stream after the length byte. The checked
      decoder calls it only for lengths the 8-byte buffers hold. */
  function ReadCommandBody(length: byte, s: seq<byte>): (r: Response)
    requires 2 <= length
    ensures r.frame.Ok? <==> length - 2 <= |s| && ValidateChecksum([CMD_FRAME_MARKER, length] + s[..length - 2])
    ensures r.frame.Ok? ==> r.frame.value == [CMD_FRAME_MARKER, length] + s[..length - 2]
    ensures r.frame.Err? ==> (r.frame.error == ReadShort <==> |s| < length - 2)
    ensures length - 2 <= |s| ==> r.rest == s[length - 2..]
  {
    if |s| < length - 2 then
      Response(Err(ReadShort), [])
    else
      var frame := [CMD_FRAME_MARKER, length] + s[..length - 2];
      if ValidateChecksum(frame) then
        Response(Ok(frame), s[length - 2..])
      else
        Response(Err(ChecksumMismatch), s[length - 2..])
  }

  /** How reading the body of a response whose marker sits at `k` ends,
      for a declared length `s[k + 1]` of at least 2: short when the stream
      ends inside the frame; otherwise the declared number of bytes from `k`
      is accepted whole when it validates and refused as a checksum mismatch
      when not, and either way reading resumes right after those bytes. */
  predicate BodyOutcome(s: seq<byte>, k: nat, r: Response)
    requires k + 1 < |s|
  {
    var length := s[k + 1];
    if |s| < k + length then r == Response(Err(ReadShort), [])
    else if ValidateChecksum(s[k..k + length]) then r == Response(Ok(s[k..k + length]), s[k + length..])
    else r == Response(Err(ChecksumMismatch), s[k + length..])
  }

  /** How reading a response whose first marker sits at `k` ends: short
      when the stream ends at the marker; a declared length outside 2..8 is
      refused and reading resumes after the length byte; otherwise as
      `BodyOutcome`, so a corrupt frame costs exactly its own bytes. */
  predicate ResponseOutcome(s: seq<byte>, k: nat, r: Response)
    requires k < |s|
  {
    if k + 1 == |s| then r == Response(Err(ReadShort), [])
    else if s[k + 1] < 2 || s[k + 1] > MAX_CMD_RESPONSE_LENGTH then r == Response(Err(MalformedLength(s[k + 1])), s[k + 2..])
    else BodyOutcome(s, k, r)
  }

  /** `readCommandResponse` with the declared length checked: a declared
      length outside 2..8 is refused before the body is read. */
  function ReadCommandResponse(s: seq<byte>): (r: Response)
    requires CMD_FRAME_MARKER in s
    ensures ResponseOutcome(s, FirstIndex(CMD_FRAME_MARKER, s), r)
    ensures r.frame.Ok? ==> 2 <= |r.frame.value| <= MAX_CMD_RESPONSE_LENGTH && r.frame.value[1] == |r.frame.value|
  {
    var after := SkipToFrameHeader(CMD_FRAME_MARKER, s);
    var k := FirstIndex(CMD_FRAME_MARKER, s);
    if |after| == 0 then
      Response(Err(ReadShort), [])
    else
      var length := after[0];
      assert length == s[k + 1] && after[1..] == s[k + 2..];
      if length < 2 || length > MAX_CMD_RESPONSE_LENGTH then
        Response(Err(MalformedLength(length)), after[1..])
      else
        BodyOnStream(s, k);
        ReadCommandBody(length, after[1..])
  }

  /** The body read, seen from the whole stream: with the marker at `k` and a
      declared length of at least 2, the rebuilt frame is the slice of the
      stream from `k` of that length. */
  lemma BodyOnStream(s: seq<byte>, k: nat)
    requires k + 1 < |s| && s[k] == CMD_FRAME_MARKER && 2 <= s[k + 1]
    ensures BodyOutcome(s, k, ReadCommandBody(s[k + 1], s[k + 2..]))
  {
    var length := s[k + 1];
    if k + length <= |s| {
      assert [CMD_FRAME_MARKER, length] + s[k + 2..][..length - 2] == s[k..k + length];
    }
  }

  /** `readCommandResponse` as written, for every declared length from 2 up:
      nothing bounds the length by the 8-byte arrays the frame is copied into.
      A length below 2, or a stream ending at the marker, is not modelled. */
  function ReadCommandResponseAsWritten(s: seq<byte>): (r: Response)
    requires CMD_FRAME_MARKER in s
    requires var k := FirstIndex(CMD_FRAME_MARKER, s); k + 1 < |s| && s[k + 1] >= 2
    ensures BodyOutcome(s, FirstIndex(CMD_FRAME_MARKER, s), r)
    ensures r.frame.Ok? ==> |r.frame.value| >= 2 && |r.frame.value| == r.frame.value[1]
  {
    var after := SkipToFrameHeader(CMD_FRAME_MARKER, s);
    var k := FirstIndex(CMD_FRAME_MARKER, s);
    assert after[0] == s[k + 1] && after[1..] == s[k + 2..];
    BodyOnStream(s, k);
    ReadCommandBody(after[0], after[1..])
  }

  /** A well-formed 9-byte response, one byte longer than the arrays of
      `readCommandResponse`, is accepted as written, so all nine bytes are
      stored into 8-byte buffers; the checked decoder refuses its length. */
  lemma OversizedResponseAccepted()
    ensures var head: seq<byte> := [CMD_FRAME_MARKER, 9, 0, 0, 0, 0, 0, 0];
      var s := head + [Checksum(head)];
      && ReadCommandResponseAsWritten(s).frame.Ok?
      && |ReadCommandResponseAsWritten(s).frame.value| > MAX_CMD_RESPONSE_LENGTH
      && ReadCommandResponse(s).frame == Err(MalformedLength(9))
  {
    var head: seq<byte> := [CMD_FRAME_MARKER, 9, 0, 0, 0, 0, 0, 0];
    var s := head + [Checksum(head)];
    AppendChecksumValidates(head);
    assert FirstIndex(CMD_FRAME_MARKER, s) == 0;
    assert s[0..9] == s;
  }
}
