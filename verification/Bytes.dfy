/** Bytes and the little-endian 32-bit length prefix that both the sealed blob and the message frames use. */
module Bytes {

  type byte = b: int | 0 <= b < 256

  const U32 := 0x1_0000_0000

  function LittleEndian(n: nat): (b: seq<byte>)
    requires n < U32
    ensures |b| == 4
  {
    [n % 0x100, n / 0x100 % 0x100, n / 0x1_0000 % 0x100, n / 0x100_0000]
  }

  function FromLittleEndian(b: seq<byte>): (n: nat)
    requires |b| == 4
    ensures n < U32
  {
    var b0: int, b1: int, b2: int, b3: int := b[0], b[1], b[2], b[3];
    b0 + 0x100 * b1 + 0x1_0000 * b2 + 0x100_0000 * b3
  }

  /** The two conversions are inverse to each other. */
  lemma LittleEndianRoundTrip(n: nat)
    requires n < U32
    ensures FromLittleEndian(LittleEndian(n)) == n
  {
    assert n / 0x1_0000 == n / 0x100 / 0x100 && n / 0x100_0000 == n / 0x1_0000 / 0x100;
  }

  lemma LowByte(low: byte, high: nat)
    ensures var n: int := low; (n + 0x100 * high) % 0x100 == n && (n + 0x100 * high) / 0x100 == high
  {
  }

  lemma FromLittleEndianRoundTrip(b: seq<byte>)
    requires |b| == 4
    ensures LittleEndian(FromLittleEndian(b)) == b
  {
    var b2: int, b3: int := b[2], b[3];
    var upper := b2 + 0x100 * b3;
    var b1: int := b[1];
    var n := FromLittleEndian(b);
    LowByte(b[0], b1 + 0x100 * upper);
    LowByte(b[1], upper);
    LowByte(b[2], b3);
    assert n / 0x1_0000 == n / 0x100 / 0x100 && n / 0x100_0000 == n / 0x1_0000 / 0x100;
  }
}
