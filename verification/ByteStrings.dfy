/** Go's fixed-width integers and byte strings. */
module ByteStrings {

  type byte = x: int | 0 <= x < 0x100
  type uint16 = x: int | 0 <= x < 0x1_0000
  type uint32 = x: int | 0 <= x < 0x1_0000_0000
  type uint64 = x: int | 0 <= x < 0x1_0000_0000_0000_0000

  /** Go strings and byte slices are both byte strings here. */
  type Bytes = seq<byte>

  const TWO32: int := 0x1_0000_0000

  /** Four big-endian bytes of a length or integer, truncated to 32 bits as `uint32(n)` does. */
  function U32(n: nat): (r: Bytes)
    ensures |r| == 4
    ensures ReadU32(r) == n % TWO32
  {
    var m := n % TWO32;
    var hi2, hi1 := m / 0x1_0000, m / 0x100;
    assert hi1 / 0x100 == hi2;
    [hi2 / 0x100, hi2 % 0x100, hi1 % 0x100, m % 0x100]
  }

  function ReadU32(b: Bytes): (n: uint32)
    requires |b| >= 4
  {
    var b0: int, b1: int, b2: int, b3: int := b[0], b[1], b[2], b[3];
    b0 * 0x100_0000 + b1 * 0x1_0000 + b2 * 0x100 + b3
  }

  /** The bytes of an ASCII literal. */
  function Ascii(s: string): (b: Bytes)
    ensures |b| == |s|
  {
    seq(|s|, i requires 0 <= i < |s| => s[i] as int % 0x100)
  }

  predicate IsSpaceByte(b: byte) {
    9 <= b <= 13 || b == 32
  }

  function LowerByte(b: byte): byte {
    if 65 <= b <= 90 then b + 32 else b
  }
}
