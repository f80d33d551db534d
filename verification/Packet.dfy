/** The packet format of a channel ring: a 48-byte head, then the body, then padding to 8 bytes. */
module Packet {
  import opened Bytes

  const HEAD_SIZE := 48  // sizeof(ChannelPackHead)
  const CMD_TRANSFER := 1
  const CMD_PLACE_HOLDER := 2
  const MAX_BODY := 65528  // the largest body whose aligned length still fits 16 bits

  type Message = m: seq<Byte> | |m| <= MAX_BODY

  /** GetAlignmentSize at its default level, 8. */
  function Align8(n: nat): (r: nat)
    ensures n <= r < n + 8 && r % 8 == 0
  {
    if n % 8 == 0 then n else n + 8 - n % 8
  }

  /** align_pack_size: what a body of this length takes in the ring. */
  function PackSize(len: nat): (r: nat)
    ensures r % 8 == 0 && HEAD_SIZE + len <= r < HEAD_SIZE + len + 8
  {
    Align8(HEAD_SIZE + len)
  }

  /** A ChannelPackHead: its fields, each already in memory order, one after the other. */
  function Fields(version: seq<Byte>, bodyLen: seq<Byte>, alignLen: seq<Byte>, cmd: seq<Byte>, checksum: seq<Byte>,
                  seqno: seq<Byte>, rest: seq<Byte>): (h: seq<Byte>)
    requires |version| == |seqno| == 4 && |bodyLen| == |alignLen| == |cmd| == |checksum| == 2 && |rest| == 32
    ensures |h| == HEAD_SIZE && h[..4] == version
    ensures h[4..6] == bodyLen && h[6..8] == alignLen && h[8..10] == cmd && h[12..16] == seqno
  {
    version + bodyLen + alignLen + cmd + checksum + seqno + rest
  }

  function Head(bodyLen: nat, alignLen: nat, cmd: nat, seqno: nat): (h: seq<Byte>)
    requires bodyLen < WORD16 && alignLen < WORD16 && cmd < WORD16 && seqno < WORD32
    ensures |h| == HEAD_SIZE && h[..4] == [0, 0, HEAD_SIZE, 0]  // version and head_len
  {
    Fields([0, 0, HEAD_SIZE, 0], LE16(bodyLen), LE16(alignLen), LE16(cmd), [0, 0], LE32(seqno), Zeros(32))
  }

  /** pack_header: both lengths are cut to 16 bits, the sequence number to 32. */
  function PacketHead(len: nat, seqno: nat): (h: seq<Byte>)
    ensures |h| == HEAD_SIZE
  {
    Head(len % WORD16, (PackSize(len) - HEAD_SIZE) % WORD16, CMD_TRANSFER, seqno % WORD32)
  }

  /** Only the low 32 bits of the count of messages reach the head. */
  lemma SameHead(len: nat, seqno: nat)
    ensures PacketHead(len, seqno % WORD32) == PacketHead(len, seqno)
  {
  }

  /** The bytes that Send writes for one message: its head, then its body. */
  function PacketBytes(body: seq<Byte>, seqno: nat): (b: seq<Byte>)
    ensures |b| == HEAD_SIZE + |body|
  {
    PacketHead(|body|, seqno) + body
  }

  function PlaceHolder(): (h: seq<Byte>)
    ensures |h| == HEAD_SIZE
  {
    Head(0, 0, CMD_PLACE_HOLDER, 0)
  }

  ghost predicate PacketAt(buf: seq<Byte>, p: nat, m: Message, seqno: nat) {
    && p + PackSize(|m|) <= |buf|
    && buf[p..p + HEAD_SIZE] == PacketHead(|m|, seqno)
    && buf[p + HEAD_SIZE..p + HEAD_SIZE + |m|] == m
  }

  /** Reading a field back from wherever its bytes were copied to. */
  lemma FieldRead(buf: seq<Byte>, p: nat, x: nat)
    requires p + 2 <= |buf| && x < WORD16 && buf[p..p + 2] == LE16(x)
    ensures U16At(buf, p) == x
  {
  }

  lemma SeqnoRead(buf: seq<Byte>, p: nat, x: nat)
    requires p + 4 <= |buf| && x < WORD32 && buf[p..p + 4] == LE32(x)
    ensures U32At(buf, p) == x
  {
    var b := buf[p..p + 4];
    assert b[0] == buf[p] && b[1] == buf[p + 1] && b[2] == buf[p + 2] && b[3] == buf[p + 3];
    var q1, q2, q3 := x / 256, x / 0x1_0000, x / 0x100_0000;
    assert q1 == 256 * q2 + q1 % 256 && q2 == 256 * q3 + q2 % 256;
  }

  lemma FieldsRead(buf: seq<Byte>, p: nat, h: seq<Byte>)
    requires |h| == HEAD_SIZE && p + HEAD_SIZE <= |buf| && buf[p..p + HEAD_SIZE] == h
    ensures buf[p + 4..p + 6] == h[4..6] && buf[p + 6..p + 8] == h[6..8]
    ensures buf[p + 8..p + 10] == h[8..10] && buf[p + 12..p + 16] == h[12..16]
  {
    assert forall i :: 0 <= i < HEAD_SIZE ==> h[i] == buf[p..p + HEAD_SIZE][i] == buf[p + i];
  }

  /** What a reader finds in a head, wherever it was copied to. */
  lemma HeadFields(buf: seq<Byte>, p: nat, bodyLen: nat, alignLen: nat, cmd: nat, seqno: nat)
    requires bodyLen < WORD16 && alignLen < WORD16 && cmd < WORD16 && seqno < WORD32
    requires p + HEAD_SIZE <= |buf| && buf[p..p + HEAD_SIZE] == Head(bodyLen, alignLen, cmd, seqno)
    ensures U16At(buf, p + 4) == bodyLen && U16At(buf, p + 6) == alignLen
    ensures U16At(buf, p + 8) == cmd && U32At(buf, p + 12) == seqno
  {
    FieldsRead(buf, p, Head(bodyLen, alignLen, cmd, seqno));
    FieldRead(buf, p + 4, bodyLen);
    FieldRead(buf, p + 6, alignLen);
    FieldRead(buf, p + 8, cmd);
    SeqnoRead(buf, p + 12, seqno);
  }

  /** Cutting both lengths to 16 bits loses nothing exactly for bodies up to MAX_BODY. */
  lemma LengthsFit(len: nat)
    ensures len % WORD16 == len && (PackSize(len) - HEAD_SIZE) % WORD16 == PackSize(len) - HEAD_SIZE <==>
              len <= MAX_BODY
  {
  }

  /** What a reader finds in a packet that was written whole. */
  lemma PacketFields(buf: seq<Byte>, p: nat, m: Message, seqno: nat)
    requires PacketAt(buf, p, m, seqno)
    ensures U16At(buf, p + 4) == |m|
    ensures HEAD_SIZE + U16At(buf, p + 6) == PackSize(|m|)
    ensures U16At(buf, p + 8) == CMD_TRANSFER
    ensures U32At(buf, p + 12) == seqno % WORD32
    ensures buf[p + HEAD_SIZE..p + HEAD_SIZE + |m|] == m
  {
    LengthsFit(|m|);
    HeadFields(buf, p, |m|, PackSize(|m|) - HEAD_SIZE, CMD_TRANSFER, seqno % WORD32);
  }

  /** A packet is in place once all its bytes were copied. */
  lemma PacketWritten(buf: seq<Byte>, p: nat, m: Message, seqno: nat)
    requires p + PackSize(|m|) <= |buf|
    requires buf[p..p + HEAD_SIZE + |m|] == PacketBytes(m, seqno)
    ensures PacketAt(buf, p, m, seqno)
  {
    var b := buf[p..p + HEAD_SIZE + |m|];
    assert buf[p..p + HEAD_SIZE] == b[..HEAD_SIZE];
    assert buf[p + HEAD_SIZE..p + HEAD_SIZE + |m|] == b[HEAD_SIZE..];
  }
}
