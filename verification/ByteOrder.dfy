/**
  Integers as BinEncoder and BinDecoder move them: swapped by htonl or htonll, then copied as they lie
  in memory on a little-endian host. The bytes that result are big-endian, the network order of
  Appendix B of RFC 791.
 */
module ByteOrder {
  import opened Bytes

  // ---------- Network order ----------

  function BE32(x: nat): (b: seq<Byte>)
    requires x < WORD32
    ensures |b| == 4
  {
    [x / 0x100_0000, x / 0x1_0000 % 256, x / 256 % 256, x % 256]
  }

  function BE64(x: nat): (b: seq<Byte>)
    requires x < WORD64
    ensures |b| == 8
  {
    BE32(x / WORD32) + BE32(x % WORD32)
  }

  function FromBE32(b: seq<Byte>): (x: nat)
    requires |b| == 4
    ensures x < WORD32
  {
    Word32(b[3], b[2], b[1], b[0])
  }

  function FromBE64(b: seq<Byte>): (x: nat)
    requires |b| == 8
    ensures x < WORD64
  {
    FromBE32(b[..4]) * WORD32 + FromBE32(b[4..])
  }

  lemma ReadBack32(x: nat)
    requires x < WORD32
    ensures FromBE32(BE32(x)) == x
  {
    var q1, q2, q3 := x / 256, x / 0x1_0000, x / 0x100_0000;
    assert q1 == 256 * q2 + q1 % 256 && q2 == 256 * q3 + q2 % 256;
  }

  lemma ReadBack64(x: nat)
    requires x < WORD64
    ensures FromBE64(BE64(x)) == x
  {
    hide BE32, FromBE32;
    ReadBack32(x / WORD32);
    ReadBack32(x % WORD32);
    var hi, lo := BE32(x / WORD32), BE32(x % WORD32);
    assert (hi + lo)[..4] == hi && (hi + lo)[4..] == lo;
  }

  // ---------- What the code does ----------

  /** htonl and ntohl on a little-endian host. */
  function Swap32(x: nat): (r: nat)
    requires x < WORD32
    ensures r < WORD32
  {
    Word32(x / 0x100_0000, x / 0x1_0000 % 256, x / 256 % 256, x % 256)
  }

  /** htonll and ntohll as bin_packer.h writes them. */
  function Swap64(x: nat): (r: nat)
    requires x < WORD64
    ensures r < WORD64
  {
    Swap32(x % WORD32) * WORD32 + Swap32(x / WORD32)
  }

  /** A `uint64_t` as it lies in memory on a little-endian host. */
  function LE64(x: nat): (b: seq<Byte>)
    requires x < WORD64
  {
    LE32(x % WORD32) + LE32(x / WORD32)
  }

  lemma Halves(hi: nat, lo: nat, w: nat)
    requires lo < w
    ensures (hi * w + lo) / w == hi && (hi * w + lo) % w == lo
  {
    var x := hi * w + lo;
    assert x == w * (x / w) + x % w;
    var d := x / w - hi;
    assert w * d == lo - x % w;
    assert (d >= 1 ==> w * d >= w) && (d <= -1 ==> w * d <= -(w as int));
  }

  lemma NetworkOrder32(x: nat)
    requires x < WORD32
    ensures LE32(Swap32(x)) == BE32(x)
  {
    BytesBack(x / 0x100_0000, x / 0x1_0000 % 256, x / 256 % 256, x % 256);
  }

  lemma BytesBack(b0: Byte, b1: Byte, b2: Byte, b3: Byte)
    ensures 0 <= Word32(b0, b1, b2, b3) < WORD32 && LE32(Word32(b0, b1, b2, b3)) == [b0, b1, b2, b3]
  {
    var n := Word32(b0, b1, b2, b3);
    Halves(b1 + 256 * b2 + 0x1_0000 * b3, b0, 256);
    Halves(b2 + 256 * b3, b1, 256);
    Halves(b2 + 256 * b3, b0 + 256 * b1, 0x1_0000);
    Halves(b3, b2, 256);
    Halves(b3, b0 + 256 * b1 + 0x1_0000 * b2, 0x100_0000);
  }

  /** A `uint32_t` that was copied into memory on a little-endian host. */
  function FromLE32(b: seq<Byte>): (x: nat)
    requires |b| == 4
    ensures x < WORD32
  {
    Word32(b[0], b[1], b[2], b[3])
  }

  function FromLE64(b: seq<Byte>): (x: nat)
    requires |b| == 8
    ensures x < WORD64
  {
    FromLE32(b[4..]) * WORD32 + FromLE32(b[..4])
  }

  /** A copy and ntohl give the integer that the bytes hold in network order. */
  lemma HostOrder32(b: seq<Byte>)
    requires |b| == 4
    ensures Swap32(FromLE32(b)) == FromBE32(b)
  {
    BytesBack(b[0], b[1], b[2], b[3]);
  }

  /** So do a copy and ntohll. */
  lemma HostOrder64(b: seq<Byte>)
    requires |b| == 8
    ensures Swap64(FromLE64(b)) == FromBE64(b)
  {
    hide FromLE32, FromBE32, Swap32;
    Halves(FromLE32(b[4..]), FromLE32(b[..4]), WORD32);
    HostOrder32(b[..4]);
    HostOrder32(b[4..]);
  }

  lemma NetworkOrder64(x: nat)
    requires x < WORD64
    ensures LE64(Swap64(x)) == BE64(x)
  {
    hide LE32, BE32, Swap32;
    Halves(Swap32(x % WORD32), Swap32(x / WORD32), WORD32);
    NetworkOrder32(x / WORD32);
    NetworkOrder32(x % WORD32);
  }
}
