/** The checksum shared by data frames and command frames: the low byte of the
    sum of every byte that precedes the checksum in the frame. */
module Checksums {
  import opened Bytes

  /** The arithmetic sum of a byte string, with no truncation. */
  function Sum(s: seq<byte>): nat
  {
    if |s| == 0 then 0 else Sum(s[..|s| - 1]) + s[|s| - 1]
  }

  /** The protocol checksum of the bytes preceding the checksum slot. */
  function Checksum(s: seq<byte>): byte
  {
    Sum(s) % 0x100
  }

  /** `validateChecksum(frame, |frame|)`: the last byte of the frame is the
      checksum of all the bytes before it. */
  predicate ValidateChecksum(frame: seq<byte>)
  {
    |frame| >= 1 && frame[|frame| - 1] == Checksum(frame[..|frame| - 1])
  }

  /** Summing distributes over concatenation. */
  lemma {:induction false} SumAppend(s: seq<byte>, t: seq<byte>)
    ensures Sum(s + t) == Sum(s) + Sum(t)
    decreases |t|
  {
    if |t| == 0 {
      assert s + t == s;
    } else {
      var t' := t[..|t| - 1];
      assert (s + t)[..|s + t| - 1] == s + t';
      SumAppend(s, t');
    }
  }

  /** `generateChecksum(buffer, length)` as written: a 16-bit accumulator that
      wraps modulo 2^16, truncated to its low byte at the end. The length is
      an 8-bit count, so the accumulator never exceeds 0xFF * 0xFF and the
      wrap never happens: the result is the protocol checksum. */
  method GenerateChecksum(buffer: seq<byte>, length: byte) returns (cs: byte)
    requires length <= |buffer|
    ensures cs == Checksum(buffer[..length])
  {
    var sum: uint16 := 0;
    var i: byte := 0;
    while i < length
      invariant i <= length
      invariant sum == Sum(buffer[..i])
      invariant sum <= 0xFF * i
    {
      assert buffer[..i + 1][..i] == buffer[..i];
      sum := (sum + buffer[i]) % 0x1_0000;
      i := i + 1;
    }
    cs := sum % 0x100;
  }

  /** `validateChecksum(buffer, length)`: compare the checksum generated over
      the first `length - 1` bytes with the byte at `length - 1`. */
  method CheckFrame(buffer: seq<byte>, length: byte) returns (valid: bool)
    requires 1 <= length <= |buffer|
    ensures valid <==> ValidateChecksum(buffer[..length])
  {
    var sum := GenerateChecksum(buffer, length - 1);
    assert buffer[..length][..length - 1] == buffer[..length - 1];
    valid := sum == buffer[length - 1];
  }

  /** Appending the checksum of any prefix, as the command encoders do,
      always yields a frame that validates; and every valid frame has that shape. */
  lemma AppendChecksumValidates(prefix: seq<byte>)
    ensures ValidateChecksum(prefix + [Checksum(prefix)])
    ensures forall b: byte :: ValidateChecksum(prefix + [b]) <==> b == Checksum(prefix)
  {
    assert (prefix + [Checksum(prefix)])[..|prefix|] == prefix;
    forall b: byte
      ensures ValidateChecksum(prefix + [b]) <==> b == Checksum(prefix)
    {
      assert (prefix + [b])[..|prefix|] == prefix;
    }
  }

  /** Replacing one byte changes the sum by exactly the difference. */
  lemma SumUpdate(s: seq<byte>, k: nat, b: byte)
    requires k < |s|
    ensures Sum(s[k := b]) + s[k] == Sum(s) + b
  {
    var pre, post := s[..k], s[k + 1..];
    assert s == pre + [s[k]] + post;
    assert s[k := b] == pre + [b] + post;
    SumAppend(pre + [s[k]], post);
    SumAppend(pre, [s[k]]);
    SumAppend(pre + [b], post);
    SumAppend(pre, [b]);
    assert Sum([s[k]]) == s[k] by { assert [s[k]][..0] == []; }
    assert Sum([b]) == b by { assert [b][..0] == []; }
  }

  /** Corrupting any single byte of a valid frame, checksum byte included,
      always makes it invalid: an 8-bit sum cannot absorb a change of one
      byte, because that change is strictly between -0x100 and 0x100. */
  lemma SingleByteCorruptionDetected(frame: seq<byte>, k: nat, b: byte)
    requires ValidateChecksum(frame)
    requires k < |frame| && b != frame[k]
    ensures !ValidateChecksum(frame[k := b])
  {
    var n := |frame| - 1;
    var corrupted := frame[k := b];
    if k < n {
      assert corrupted[..n] == frame[..n][k := b];
      SumUpdate(frame[..n], k, b);
      var d := b - frame[k];
      assert Sum(corrupted[..n]) == Sum(frame[..n]) + d;
      assert -0x100 < d < 0x100 && d != 0;
      assert Checksum(corrupted[..n]) != Checksum(frame[..n]);
    } else {
      assert corrupted[..n] == frame[..n];
    }
  }

  /** Summing a frame byte by byte from its first byte. */
  lemma SumCons(b: byte, s: seq<byte>)
    ensures Sum([b] + s) == b + Sum(s)
  {
    SumAppend([b], s);
    assert [b][..0] == [];
  }
}
