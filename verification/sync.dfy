/** The frame synchroniser: `skipToFrameHeader` discards bytes up to and
    including the next occurrence of a frame marker. The transport is a finite
    byte string; the loop blocks forever when the marker never arrives, so
    every entry point requires the marker to occur in the input. */
module Sync {
  import opened Bytes

  /** Marker of a 9-byte data frame. */
  const DATA_FRAME_MARKER: byte := 0x59

  /** Marker of a command frame and of a command response. */
  const CMD_FRAME_MARKER: byte := 0x5A

  /** Position of the first occurrence of `marker`: the reference the
      synchroniser is measured against. */
  function FirstIndex(marker: byte, s: seq<byte>): (k: nat)
    requires marker in s
    ensures k < |s| && s[k] == marker
    ensures forall j :: 0 <= j < k ==> s[j] != marker
  {
    FirstIndexFrom(marker, s, 0)
  }

  /** Position of the first occurrence of `marker` at or after `i`. */
  function FirstIndexFrom(marker: byte, s: seq<byte>, i: nat): (k: nat)
    requires i <= |s| && marker in s[i..]
    ensures i <= k < |s| && s[k] == marker
    ensures forall j :: i <= j < k ==> s[j] != marker
    decreases |s| - i
  {
    if s[i] == marker then i
    else
      assert marker in s[i + 1..] by { assert s[i..] == [s[i]] + s[i + 1..]; }
      FirstIndexFrom(marker, s, i + 1)
  }

  /** The loop `while (currentChar != frameHeader) readBytes(&currentChar, 1)`
      entered with `current` as the last byte read: it stops as soon as the
      last byte read is the marker, and returns the unread stream. */
  function SkipFrom(current: byte, marker: byte, s: seq<byte>): (rest: seq<byte>)
    requires current == marker || marker in s
    ensures current == marker ==> rest == s
    ensures current != marker ==> rest == s[FirstIndex(marker, s) + 1..]
    decreases |s|
  {
    if current == marker then s else SkipFrom(s[0], marker, s[1..])
  }

  /** `skipToFrameHeader(marker)`: the loop starts with `currentChar = 0x00`,
      so a zero marker consumes nothing; any other marker is consumed
      together with every byte before its first occurrence. */
  function SkipToFrameHeader(marker: byte, s: seq<byte>): (rest: seq<byte>)
    requires marker == 0 || marker in s
    ensures marker == 0 ==> rest == s
    ensures marker != 0 ==> rest == s[FirstIndex(marker, s) + 1..]
  {
    if marker == 0 then s
    else
      SkipFrom(0, marker, s)
  }

  /** The synchroniser consumes the marker last and no marker before it:
      every skipped byte but the final one differs from the marker. */
  lemma SkippedBytesPrecedeMarker(marker: byte, s: seq<byte>)
    requires marker != 0 && marker in s
    ensures var rest := SkipToFrameHeader(marker, s);
      && |rest| < |s| && s[|s| - |rest| - 1] == marker && rest == s[|s| - |rest|..]
      && marker !in s[..|s| - |rest| - 1]
  {
    var k := FirstIndex(marker, s);
    forall j | 0 <= j < k
      ensures s[..k][j] != marker
    {
    }
  }

  /** The first marker after marker-free garbage sits right after the garbage. */
  lemma FirstIndexAfterGarbage(marker: byte, garbage: seq<byte>, tail: seq<byte>)
    requires marker !in garbage
    ensures FirstIndex(marker, garbage + [marker] + tail) == |garbage|
  {
    var s := garbage + [marker] + tail;
    assert s[|garbage|] == marker;
    assert forall j :: 0 <= j < |garbage| ==> s[j] == garbage[j];
  }

  /** However much garbage precedes it, the synchroniser consumes exactly
      the garbage and the marker, and leaves the stream right after it. */
  lemma SkipOverGarbage(marker: byte, garbage: seq<byte>, tail: seq<byte>)
    requires marker != 0 && marker !in garbage
    ensures SkipToFrameHeader(marker, garbage + [marker] + tail) == tail
  {
    var s := garbage + [marker] + tail;
    FirstIndexAfterGarbage(marker, garbage, tail);
    assert s[|garbage| + 1..] == tail;
  }
}
