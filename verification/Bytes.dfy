/** Bytes and 32-bit fields in host (little-endian) order. */
module Bytes {
  type Byte = b: int | 0 <= b < 0x100
  type Uint32 = x: int | 0 <= x < 0x1_0000_0000

  function LittleEndian(x: Uint32): (s: seq<Byte>)
    ensures |s| == 4
  {
    [x % 0x100, x / 0x100 % 0x100, x / 0x1_0000 % 0x100, x / 0x100_0000]
  }

  /** The field at an offset of a buffer. */
  function ReadUint32(s: seq<Byte>, at: nat): Uint32
    requires at + 4 <= |s|
  {
    var b0: int, b1: int, b2: int, b3: int := s[at], s[at + 1], s[at + 2], s[at + 3];
    b0 + 0x100 * b1 + 0x1_0000 * b2 + 0x100_0000 * b3
  }

  lemma DigitsSum(x: Uint32)
    ensures x == x % 0x100 + 0x100 * (x / 0x100 % 0x100)
                 + 0x1_0000 * (x / 0x1_0000 % 0x100) + 0x100_0000 * (x / 0x100_0000)
  {
    var y := x / 0x100;
    var z := y / 0x100;
    assert x / 0x1_0000 == z && x / 0x100_0000 == z / 0x100;
  }

  lemma ReadsBack(s: seq<Byte>, at: nat, x: Uint32)
    requires at + 4 <= |s| && s[at..at + 4] == LittleEndian(x)
    ensures ReadUint32(s, at) == x
  {
    DigitsSum(x);
    var f := s[at..at + 4];
    assert f[0] == s[at] && f[1] == s[at + 1] && f[2] == s[at + 2] && f[3] == s[at + 3];
  }

  /** The weight of each byte of a field. */
  lemma ByteWeights(s: seq<Byte>, at: nat, i: nat, b: Byte)
    requires at + 4 <= |s| && i < 4
    ensures ReadUint32(s[at + i := b], at) - ReadUint32(s, at)
         == (b as int - s[at + i] as int) * [0x1, 0x100, 0x1_0000, 0x100_0000][i]
  {
  }
}
