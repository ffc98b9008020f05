/** Bytes, and the big-endian 32-bit lengths of `struct.pack(">I", n)`. */
module Bytes {

  type byte = x: int | 0 <= x < 256

  type bytes = seq<byte>

  const TWO_32: nat := 0x1_0000_0000

  function Pack(n: nat): (b: bytes)
    requires n < TWO_32
    ensures |b| == 4
  {
    [n / 0x100_0000, n / 0x1_0000 % 256, n / 0x100 % 256, n % 256]
  }

  function Unpack(b: bytes): (n: nat)
    requires |b| == 4
    ensures n < TWO_32
  {
    0x100_0000 * (b[0] as int) + 0x1_0000 * (b[1] as int) + 0x100 * (b[2] as int) + b[3] as int
  }

  /** The two are inverse to each other. */
  lemma PackUnpack(n: nat, b: bytes)
    requires n < TWO_32 && |b| == 4
    ensures Unpack(Pack(n)) == n
    ensures Pack(Unpack(b)) == b
  {
    var q, r := n / 0x100, n % 0x100;
    assert n / 0x1_0000 == q / 0x100 && n / 0x100_0000 == q / 0x100 / 0x100;
    var m := Unpack(b);
    assert m / 0x100 == 0x1_0000 * (b[0] as int) + 0x100 * (b[1] as int) + b[2] as int;
    assert m / 0x1_0000 == 0x100 * (b[0] as int) + b[1] as int;
    assert m / 0x100_0000 == b[0];
  }

  function Zeros(n: nat): (z: bytes)
    ensures |z| == n
  {
    seq(n, _ => 0)
  }
}
