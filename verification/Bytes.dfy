/** Bytes and the fixed-width integers that the C++ code keeps in memory. */
module Bytes {
  type Byte = x: int | 0 <= x < 256

  const WORD16 := 0x1_0000
  const WORD32 := 0x1_0000_0000
  const WORD64 := 0x1_0000_0000_0000_0000

  /** Arithmetic in `uint32_t`. */
  function U32(x: int): (r: nat)
    ensures 0 <= x < WORD32 ==> r == x
    ensures r < WORD32
  {
    x % WORD32
  }

  function Word16(lo: int, hi: int): int {
    lo + 256 * hi
  }

  function Word32(b0: int, b1: int, b2: int, b3: int): int {
    b0 + 256 * b1 + 0x1_0000 * b2 + 0x100_0000 * b3
  }

  /** A `uint16_t` as it lies in memory on a little-endian host. */
  function LE16(x: nat): (b: seq<Byte>)
    requires x < WORD16
    ensures |b| == 2
  {
    [x % 256, x / 256]
  }

  /** A `uint32_t` as it lies in memory on a little-endian host. */
  function LE32(x: nat): (b: seq<Byte>)
    requires x < WORD32
    ensures |b| == 4
  {
    [x % 256, x / 256 % 256, x / 0x1_0000 % 256, x / 0x100_0000]
  }

  function Zeros(n: nat): (b: seq<Byte>)
    ensures |b| == n
  {
    seq(n, _ => 0)
  }

  function U16At(buf: seq<Byte>, p: nat): (r: nat)
    requires p + 2 <= |buf|
    ensures r < WORD16
  {
    Word16(buf[p], buf[p + 1])
  }

  function U32At(buf: seq<Byte>, p: nat): (r: nat)
    requires p + 4 <= |buf|
  {
    Word32(buf[p], buf[p + 1], buf[p + 2], buf[p + 3])
  }

  // ---------- Arithmetic ----------

  lemma Multiples(m: int, d: int)
    requires 0 < m
    ensures d >= 1 ==> m * d >= m
    ensures d <= -1 ==> m * d <= -m
  {
  }

  lemma NextResidue(a: nat, m: nat)
    requires 0 < m
    ensures (a + m) % m == a % m
  {
    var c := a + m;
    assert a == m * (a / m) + a % m && c == m * (c / m) + c % m;
    Multiples(m, c / m - a / m - 1);
    assert a % m - c % m == m * (c / m - a / m - 1);
  }
}
