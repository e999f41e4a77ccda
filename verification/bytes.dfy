/** Fixed-width integers of the driver and the byte-order helpers it uses:
    little-endian fields of the data frame, little-endian outbound payloads
    and the big-endian readers applied to command responses. */
module Bytes {

  /** An octet on the wire (`uint8_t`). */
  type byte = x: int | 0 <= x < 0x100

  /** `uint16_t` */
  type uint16 = x: int | 0 <= x < 0x1_0000

  /** `uint32_t` */
  type uint32 = x: int | 0 <= x < 0x1_0000_0000

  /** `(uint8_t)x`: the cast keeps the low eight bits of a non-negative value. */
  function Low8(x: nat): (b: byte)
    ensures (x - b) % 0x100 == 0
  {
    x % 0x100
  }

  /** `uint16_t(buf[i] | (buf[i + 1] << 8))`: the low byte comes first. */
  function ReadLittleEndian16(buf: seq<byte>, i: nat): (r: uint16)
    requires i + 2 <= |buf|
    ensures r % 0x100 == buf[i] && r / 0x100 == buf[i + 1]
  {
    buf[i] as int + buf[i + 1] as int * 0x100
  }

  /** `readInt16FromBuffer`: the byte at `start` is the high byte. */
  function ReadInt16FromBuffer(buf: seq<byte>, start: nat): (r: uint16)
    requires start + 2 <= |buf|
    ensures r / 0x100 == buf[start] && r % 0x100 == buf[start + 1]
  {
    buf[start] as int * 0x100 + buf[start + 1] as int
  }

  /** `readInt32FromBuffer`: four bytes from `start`, most significant first,
      as the mathematical value b0*2^24 + b1*2^16 + b2*2^8 + b3. */
  function ReadInt32FromBuffer(buf: seq<byte>, start: nat): (r: uint32)
    requires start + 4 <= |buf|
    ensures r / 0x100_0000 == buf[start] && r / 0x1_0000 % 0x100 == buf[start + 1]
    ensures r / 0x100 % 0x100 == buf[start + 2] && r % 0x100 == buf[start + 3]
  {
    var high := buf[start] as int * 0x100 + buf[start + 1] as int;
    var upper := high * 0x100 + buf[start + 2] as int;
    var r := upper * 0x100 + buf[start + 3] as int;
    SplitLowByte(upper, buf[start + 3]);
    SplitLowByte(high, buf[start + 2]);
    SplitLowByte(buf[start], buf[start + 1]);
    ShiftDivisions(r);
    r
  }

  /** Appending a low digit in base 2^8: dividing by 0x100 drops it again. */
  lemma SplitLowByte(high: nat, low: byte)
    ensures (high * 0x100 + low) / 0x100 == high && (high * 0x100 + low) % 0x100 == low
  {
  }

  /** The value of a little-endian byte string: the first byte is least significant. */
  function LittleEndianValue(s: seq<byte>): nat
  {
    if |s| == 0 then 0 else s[0] as int + 0x100 * LittleEndianValue(s[1..])
  }

  /** The outbound 16-bit payload: `(uint8_t)x` then `(uint8_t)(x >> 8)`. */
  function Uint16ToLittleEndian(x: uint16): (s: seq<byte>)
    ensures |s| == 2 && LittleEndianValue(s) == x
  {
    var s := [Low8(x), Low8(x / 0x100)];
    assert s[1..][1..] == [];
    assert LittleEndianValue(s[1..]) == x / 0x100;
    s
  }

  /** The outbound 32-bit payload: `(uint8_t)(x >> 0)`, `>> 8`, `>> 16`, `>> 24`. */
  function Uint32ToLittleEndian(x: uint32): (s: seq<byte>)
    ensures |s| == 4 && LittleEndianValue(s) == x
  {
    ShiftDivisions(x);
    var s := [Low8(x), Low8(x / 0x100), Low8(x / 0x1_0000), Low8(x / 0x100_0000)];
    assert s[1..][1..] == s[2..] && s[2..][1..] == s[3..] && s[3..][1..] == [];
    assert LittleEndianValue(s[3..]) == x / 0x100_0000;
    assert LittleEndianValue(s[2..]) == x / 0x1_0000;
    assert LittleEndianValue(s[1..]) == x / 0x100;
    s
  }

  /** A right shift by 16 (24) bits is a shift by 8 applied twice (three times). */
  lemma ShiftDivisions(x: nat)
    ensures x / 0x100 / 0x100 == x / 0x1_0000
    ensures x / 0x1_0000 / 0x100 == x / 0x100_0000
  {
  }

  /** The big-endian 16-bit reader tells byte pairs apart: two reads agree
      exactly when the two byte pairs are equal. */
  lemma ReadInt16Injective(a: seq<byte>, i: nat, b: seq<byte>, j: nat)
    requires i + 2 <= |a| && j + 2 <= |b|
    ensures ReadInt16FromBuffer(a, i) == ReadInt16FromBuffer(b, j) <==> a[i..i + 2] == b[j..j + 2]
  {
    if a[i..i + 2] == b[j..j + 2] {
      assert a[i] == b[j] && a[i + 1] == b[j + 1] by {
        assert a[i..i + 2][0] == b[j..j + 2][0];
        assert a[i..i + 2][1] == b[j..j + 2][1];
      }
    }
  }

  /** Positional notation in base 2^8 is unambiguous: the low digit and
      the remaining high part are both determined by the value. */
  lemma DigitsDetermined(h1: int, l1: byte, h2: int, l2: byte)
    requires h1 * 0x100 + l1 == h2 * 0x100 + l2
    ensures h1 == h2 && l1 == l2
  {
  }

  /** The big-endian 32-bit reader tells byte quadruples apart. */
  lemma ReadInt32Injective(a: seq<byte>, i: nat, b: seq<byte>, j: nat)
    requires i + 4 <= |a| && j + 4 <= |b|
    ensures ReadInt32FromBuffer(a, i) == ReadInt32FromBuffer(b, j) <==> a[i..i + 4] == b[j..j + 4]
  {
    if ReadInt32FromBuffer(a, i) == ReadInt32FromBuffer(b, j) {
      var ha2 := a[i] as int * 0x100 + a[i + 1] as int;
      var hb2 := b[j] as int * 0x100 + b[j + 1] as int;
      var ha3 := ha2 * 0x100 + a[i + 2] as int;
      var hb3 := hb2 * 0x100 + b[j + 2] as int;
      DigitsDetermined(ha3, a[i + 3], hb3, b[j + 3]);
      DigitsDetermined(ha2, a[i + 2], hb2, b[j + 2]);
      DigitsDetermined(a[i], a[i + 1], b[j], b[j + 1]);
      assert a[i..i + 4] == b[j..j + 4];
    }
  }

  /** Reading the two outbound bytes back as a little-endian field gives back the value. */
  lemma Uint16RoundTrip(x: uint16)
    ensures ReadLittleEndian16(Uint16ToLittleEndian(x), 0) == x
  {
  }

  /** Reassembling the four outbound bytes little-endian gives back the value. */
  lemma {:induction false} Uint32RoundTrip(x: uint32)
    ensures var s := Uint32ToLittleEndian(x); s[0] as int + s[1] as int * 0x100 + s[2] as int * 0x1_0000 + s[3] as int * 0x100_0000 == x
  {
    var s := Uint32ToLittleEndian(x);
    assert LittleEndianValue(s) == x;
    assert LittleEndianValue(s[3..]) == s[3] by {
      assert s[3..][1..] == [];
    }
    assert s[1..][1..] == s[2..] && s[2..][1..] == s[3..];
    assert LittleEndianValue(s[2..]) == s[2] as int + 0x100 * s[3] as int;
    assert LittleEndianValue(s[1..]) == s[1] as int + 0x100 * (s[2] as int + 0x100 * s[3] as int);
  }
}
