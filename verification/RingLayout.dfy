/**
  The bytes of a single-producer, single-consumer ring, read in two ways: as the receiver reads
  them (NextPack, Decode), and as packets laid end to end with at most one wrap (Laid).
 */
module RingLayout {
  import opened Bytes
  import opened Packet

  /** UnlockQueueHead and the buffer behind it. */
  datatype Ring = Ring(cap: nat, head: nat, tail: nat, seqno: nat, buf: seq<Byte>) {
    ghost predicate Valid() {
      && HEAD_SIZE < cap <= 0x8000_0000
      && |buf| == cap && head < cap && tail < cap
    }
  }

  // ---------- Sizes ----------

  /** alloc_size in GetNextPack: the cyclic distance from `head` to `tail`. */
  function AllocSize(cap: nat, head: nat, tail: nat): (r: nat)
    requires head < cap && tail < cap
    ensures r < cap
  {
    if head <= tail then tail - head else tail + cap - head
  }

  /** free_size in Send: one byte always stays free, so that a full ring never looks empty. */
  function FreeSize(cap: nat, head: nat, tail: nat): (r: nat)
    requires head < cap && tail < cap
    ensures r < cap
  {
    cap - 1 - AllocSize(cap, head, tail)
  }

  /** The position `size` bytes after `p`. */
  function Advance(cap: nat, p: nat, size: nat): (r: nat)
    requires p < cap && size <= cap
    ensures r < cap
  {
    if p + size < cap then p + size else p + size - cap
  }

  lemma ModOnce(x: nat, m: nat)
    requires 0 < m && x < 2 * m
    ensures x % m == if x < m then x else x - m
  {
  }

  /** For capacities up to 2^31 these are what the code computes with `uint32_t` and `%`. */
  lemma SizesInCode(cap: nat, head: nat, tail: nat, p: nat, size: nat)
    requires head < cap <= 0x8000_0000 && tail < cap && p < cap && size <= cap
    ensures U32(cap - tail - 1 + head) % cap == FreeSize(cap, head, tail)
    ensures U32(tail + cap - head) % cap == AllocSize(cap, head, tail)
    ensures U32(p + size) % cap == Advance(cap, p, size)
  {
    ModOnce(cap - tail - 1 + head, cap);
    ModOnce(tail + cap - head, cap);
    ModOnce(p + size, cap);
  }

  // ---------- Reading, as the receiver does ----------

  /** What the operations on a ring return. */
  datatype Status = Ok | Arg | ChanFull | ChanEmpty | RecvSpaceLimit | ChanPackInvalid | Unexpect

  datatype Next = Empty | PackInvalid | Unexpect | Pack(start: nat, size: nat, len: nat)

  /** The probe of GetNextPack: where the packet at `head` starts once filler is skipped. */
  function Probe(r: Ring, tail: nat): (p: Next)
    requires r.Valid() && tail < r.cap
    ensures p.Pack? ==> p.start < r.cap && p.start + HEAD_SIZE <= r.cap
  {
    var alloc := AllocSize(r.cap, r.head, tail);
    var room := r.cap - r.head;
    if room < HEAD_SIZE || U16At(r.buf, r.head + 8) == CMD_PLACE_HOLDER then
      if alloc < room then PackInvalid else Pack(0, 0, 0)
    else
      Pack(r.head, 0, 0)
  }

  /** The checks of GetNextPack on the packet that starts at `start`. */
  function Check(r: Ring, tail: nat, start: nat): (p: Next)
    requires r.Valid() && tail < r.cap && start + HEAD_SIZE <= r.cap
    ensures p.Pack? ==> p.start == start && HEAD_SIZE <= p.size <= AllocSize(r.cap, start, tail)
  {
    var size := HEAD_SIZE + U16At(r.buf, start + 6);
    if U16At(r.buf, start + 8) != CMD_TRANSFER then Next.Unexpect
    else if size > AllocSize(r.cap, start, tail) then PackInvalid
    else Pack(start, size, U16At(r.buf, start + 4))
  }

  /** GetNextPack in one go. */
  function NextPack(r: Ring): (p: Next)
    requires r.Valid()
    ensures p.Pack? ==> p.start + HEAD_SIZE <= r.cap && HEAD_SIZE <= p.size <= AllocSize(r.cap, p.start, r.tail)
  {
    if r.tail == r.head then Empty
    else
      var probe := Probe(r, r.tail);
      if probe.Pack? then Check(r, r.tail, probe.start) else probe
  }

  /**
    What GetNextPack makes of foreign bytes: a command that is neither of the two known ones, a packet longer
    than what is published, and filler that the published part does not cover.
   */
  lemma ForeignBytes(r: Ring)
    requires r.Valid() && r.head != r.tail
    ensures var alloc, room := AllocSize(r.cap, r.head, r.tail), r.cap - r.head;
            if room < HEAD_SIZE || U16At(r.buf, r.head + 8) == CMD_PLACE_HOLDER then
              alloc < room ==> NextPack(r) == PackInvalid
            else if U16At(r.buf, r.head + 8) != CMD_TRANSFER then NextPack(r) == Next.Unexpect
            else NextPack(r).PackInvalid? <==> HEAD_SIZE + U16At(r.buf, r.head + 6) > alloc
  {
  }

  /** What an operation returns that could not get a packet, or could. */
  function Failed(p: Next): Status {
    match p
    case Empty => ChanEmpty
    case PackInvalid => ChanPackInvalid
    case Unexpect => Status.Unexpect
    case Pack(_, _, _) => Ok
  }

  /** One decoded packet: its sequence number and its body. */
  datatype Decoded = Decoded(seqno: nat, body: seq<Byte>)

  datatype Stream = Corrupt | Packets(ps: seq<Decoded>)

  /** Everything a receiver would read from `head` up to `tail`, one packet after the other. */
  function Decode(r: Ring): Stream
    requires r.Valid()
    decreases AllocSize(r.cap, r.head, r.tail)
  {
    var p := NextPack(r);
    if p.Empty? then Packets([])
    else if !p.Pack? || p.start + HEAD_SIZE + p.len > r.cap then Corrupt
    else
      StepsCloser(r, p);
      var rest := Decode(r.(head := Advance(r.cap, p.start, p.size)));
      if rest.Corrupt? then Corrupt
      else Packets([DecodedAt(r, p.start, p.len)] + rest.ps)
  }

  function DecodedAt(r: Ring, start: nat, len: nat): Decoded
    requires r.Valid() && start + HEAD_SIZE + len <= r.cap
  {
    Decoded(U32At(r.buf, start + 12), r.buf[start + HEAD_SIZE..start + HEAD_SIZE + len])
  }

  /** Any packet the receiver accepts, even in a corrupt ring, brings `head` nearer to `tail`. */
  lemma StepsCloser(r: Ring, p: Next)
    requires r.Valid() && p == NextPack(r) && p.Pack?
    ensures Advance(r.cap, p.start, p.size) < r.cap
    ensures AllocSize(r.cap, Advance(r.cap, p.start, p.size), r.tail) < AllocSize(r.cap, r.head, r.tail)
  {
  }

  // ---------- Packets laid end to end ----------

  /** Messages `ms` fill `buf[a..b]` exactly, numbered from `q`. */
  ghost predicate Run(buf: seq<Byte>, a: nat, b: nat, ms: seq<Message>, q: nat)
    decreases |ms|
  {
    if ms == [] then a == b
    else
      && a + PackSize(|ms[0]|) <= b
      && PacketAt(buf, a, ms[0], q)
      && Run(buf, a + PackSize(|ms[0]|), b, ms[1..], q + 1)
  }

  lemma {:induction false} RunBounds(buf: seq<Byte>, a: nat, b: nat, ms: seq<Message>, q: nat)
    requires Run(buf, a, b, ms, q)
    ensures a <= b && (a == b <==> ms == []) && (ms != [] ==> b <= |buf|)
    decreases |ms|
  {
    hide PacketHead;
    if |ms| > 1 {
      RunBounds(buf, a + PackSize(|ms[0]|), b, ms[1..], q + 1);
    }
  }

  /** Only the bytes in `[a, b)` matter. */
  lemma {:induction false} RunFrame(buf: seq<Byte>, buf': seq<Byte>, a: nat, b: nat, ms: seq<Message>, q: nat)
    requires Run(buf, a, b, ms, q) && |buf| == |buf'|
    requires forall i :: a <= i < b && i < |buf| ==> buf'[i] == buf[i]
    ensures Run(buf', a, b, ms, q)
    decreases |ms|
  {
    hide PacketHead;
    if ms != [] {
      var n := |ms[0]|;
      RunBounds(buf, a, b, ms, q);
      assert buf'[a..a + HEAD_SIZE] == buf[a..a + HEAD_SIZE];
      assert buf'[a + HEAD_SIZE..a + HEAD_SIZE + n] == buf[a + HEAD_SIZE..a + HEAD_SIZE + n];
      RunFrame(buf, buf', a + PackSize(n), b, ms[1..], q + 1);
    }
  }

  lemma {:induction false} RunAppend(buf: seq<Byte>, a: nat, b: nat, ms: seq<Message>, q: nat, m: Message)
    requires Run(buf, a, b, ms, q) && PacketAt(buf, b, m, q + |ms|)
    ensures Run(buf, a, b + PackSize(|m|), ms + [m], q)
    decreases |ms|
  {
    hide PacketAt, PackSize;
    if ms == [] {
      assert ms + [m] == [m];
    } else {
      RunAppend(buf, a + PackSize(|ms[0]|), b, ms[1..], q + 1, m);
      RunBounds(buf, a + PackSize(|ms[0]|), b, ms[1..], q + 1);
      assert (ms + [m])[1..] == ms[1..] + [m];
    }
  }

  /**
    Where the pending messages lie. `front` starts at `head`. When the ring is wrapped, `front` ends
    at `edge`, the rest of the buffer is filler, and `back` starts at offset 0.
   */
  datatype Layout = Layout(front: seq<Message>, back: seq<Message>, edge: nat, wrapped: bool) {
    function Pending(): seq<Message> {
      front + back
    }
  }

  /** Unused room at the end of the buffer: too short for a head, or marked by a place holder. */
  ghost predicate Filler(buf: seq<Byte>, edge: nat) {
    edge + HEAD_SIZE <= |buf| ==> U16At(buf, edge + 8) == CMD_PLACE_HOLDER
  }

  ghost predicate Laid(r: Ring, g: Layout, q: nat) {
    && r.Valid()
    && if g.wrapped then
         && r.tail < r.head <= g.edge <= r.cap
         && Run(r.buf, r.head, g.edge, g.front, q)
         && Run(r.buf, 0, r.tail, g.back, q + |g.front|)
         && (g.edge < r.cap ==> g.back != [] && Filler(r.buf, g.edge))
       else
         && g.back == []
         && Run(r.buf, r.head, r.tail, g.front, q)
  }

  /** Where the first pending packet starts. */
  function Start(r: Ring, g: Layout): nat {
    if g.front != [] then r.head else 0
  }

  /** The layout once the first pending packet was taken. */
  function Taken(r: Ring, g: Layout): Layout
    requires g.Pending() != []
  {
    if g.front == [] then Layout(g.back[1..], [], 0, false)
    else if g.wrapped && r.head + PackSize(|g.front[0]|) == r.cap then Layout(g.back, [], 0, false)
    else g.(front := g.front[1..])
  }

  /** A tail that the receiver read earlier still lies at or behind the end of the first packet. */
  ghost predicate SeenTail(r: Ring, g: Layout, tail: nat) {
    && g.Pending() != [] && r.head < r.cap && tail < r.cap && tail != r.head
    && var size := PackSize(|g.Pending()[0]|);
       if g.front != [] then AllocSize(r.cap, r.head, tail) >= size
       else tail < r.head && size <= tail
  }

  lemma FirstInFront(r: Ring, g: Layout, q: nat)
    requires Laid(r, g, q) && g.front != []
    ensures r.head + PackSize(|g.front[0]|) <= (if g.wrapped then g.edge else r.tail)
    ensures PacketAt(r.buf, r.head, g.front[0], q)
    ensures g.front[0] == g.Pending()[0]
    ensures Run(r.buf, r.head + PackSize(|g.front[0]|), if g.wrapped then g.edge else r.tail, g.front[1..], q + 1)
  {
  }

  lemma FirstInBack(r: Ring, g: Layout, q: nat)
    requires Laid(r, g, q) && g.front == [] && g.Pending() != []
    ensures g.wrapped && g.edge == r.head && Filler(r.buf, r.head)
    ensures PackSize(|g.back[0]|) <= r.tail && PacketAt(r.buf, 0, g.back[0], q)
    ensures g.back[0] == g.Pending()[0]
    ensures Run(r.buf, PackSize(|g.back[0]|), r.tail, g.back[1..], q + 1)
  {
  }

  /** The current tail is such a tail, whenever it differs from `head`. */
  lemma TailSeen(r: Ring, g: Layout, q: nat)
    requires Laid(r, g, q)
    ensures r.tail == r.head <==> g.Pending() == []
    ensures g.Pending() != [] ==> SeenTail(r, g, r.tail)
  {
  }

  /** With such a tail both halves of GetNextPack succeed, at the first pending packet. */
  lemma FirstPacket(r: Ring, g: Layout, q: nat, tail: nat)
    requires Laid(r, g, q) && SeenTail(r, g, tail)
    ensures var m := g.Pending()[0]; var p := Start(r, g);
            && PacketAt(r.buf, p, m, q)
            && Probe(r, tail) == Pack(p, 0, 0)
            && Check(r, tail, p) == Pack(p, PackSize(|m|), |m|)
  {
    hide PacketAt, Run, Filler, PackSize;
    if g.front != [] {
      FirstInFront(r, g, q);
      FrontRead(r, g, q, tail);
    } else {
      FirstInBack(r, g, q);
      BackRead(r, g, q, tail);
    }
  }

  lemma FrontRead(r: Ring, g: Layout, q: nat, tail: nat)
    requires r.Valid() && g.front != [] && PacketAt(r.buf, r.head, g.front[0], q) && SeenTail(r, g, tail)
    ensures r.head + HEAD_SIZE <= r.cap && Probe(r, tail) == Pack(r.head, 0, 0)
    ensures Check(r, tail, r.head) == Pack(r.head, PackSize(|g.front[0]|), |g.front[0]|)
  {
    hide PacketHead;
    PacketFields(r.buf, r.head, g.front[0], q);
  }

  lemma BackRead(r: Ring, g: Layout, q: nat, tail: nat)
    requires r.Valid() && g.front == [] && g.back != [] && PacketAt(r.buf, 0, g.back[0], q)
    requires Filler(r.buf, r.head) && SeenTail(r, g, tail)
    ensures Probe(r, tail) == Pack(0, 0, 0)
    ensures Check(r, tail, 0) == Pack(0, PackSize(|g.back[0]|), |g.back[0]|)
  {
    hide PacketHead;
    PacketFields(r.buf, 0, g.back[0], q);
  }

  /** Moving `head` past the first packet leaves exactly the others. */
  lemma TakeFirst(r: Ring, g: Layout, q: nat)
    requires Laid(r, g, q) && g.Pending() != []
    ensures var size := PackSize(|g.Pending()[0]|);
            && Start(r, g) + size <= r.cap
            && Laid(r.(head := Advance(r.cap, Start(r, g), size)), Taken(r, g), q + 1)
    ensures Taken(r, g).Pending() == g.Pending()[1..]
  {
    hide PackSize, Laid;
    if g.front == [] {
      TakeBack(r, g, q);
    } else if g.wrapped {
      TakeWrapped(r, g, q);
    } else {
      TakeUnwrapped(r, g, q);
    }
  }

  lemma TakeUnwrapped(r: Ring, g: Layout, q: nat)
    requires Laid(r, g, q) && g.front != [] && !g.wrapped
    ensures var size := PackSize(|g.front[0]|);
            && r.head + size <= r.cap
            && Laid(r.(head := Advance(r.cap, r.head, size)), g.(front := g.front[1..]), q + 1)
  {
    hide Run, PackSize, PacketAt;
    FirstInFront(r, g, q);
    RunBounds(r.buf, r.head + PackSize(|g.front[0]|), r.tail, g.front[1..], q + 1);
  }

  lemma TakeWrapped(r: Ring, g: Layout, q: nat)
    requires Laid(r, g, q) && g.front != [] && g.wrapped
    ensures var size := PackSize(|g.front[0]|);
            && r.head + size <= r.cap
            && Laid(r.(head := Advance(r.cap, r.head, size)), Taken(r, g), q + 1)
    ensures Taken(r, g).Pending() == g.front[1..] + g.back
  {
    hide Run, PackSize, PacketAt, Filler;
    FirstInFront(r, g, q);
    RunBounds(r.buf, r.head + PackSize(|g.front[0]|), g.edge, g.front[1..], q + 1);
  }

  lemma TakeBack(r: Ring, g: Layout, q: nat)
    requires Laid(r, g, q) && g.front == [] && g.back != []
    ensures var size := PackSize(|g.back[0]|);
            && size <= r.cap
            && Laid(r.(head := Advance(r.cap, 0, size)), Layout(g.back[1..], [], 0, false), q + 1)
  {
    hide Run, PackSize, PacketAt, Filler;
    FirstInBack(r, g, q);
    RunBounds(r.buf, PackSize(|g.back[0]|), r.tail, g.back[1..], q + 1);
  }

  /** What Decode must give: the bodies in order, numbered from `q` in 32 bits. */
  function Numbered(ms: seq<Message>, q: nat): (ds: seq<Decoded>)
    ensures |ds| == |ms|
  {
    seq(|ms|, i requires 0 <= i < |ms| => Decoded((q + i) % WORD32, ms[i]))
  }

  lemma NumberedFirst(ms: seq<Message>, q: nat)
    requires ms != []
    ensures Numbered(ms, q) == [Decoded(q % WORD32, ms[0])] + Numbered(ms[1..], q + 1)
  {
  }

  /** The receiver's reading of the bytes is the pending messages, whatever the wrap. */
  lemma {:induction false} DecodesPending(r: Ring, g: Layout, q: nat)
    requires Laid(r, g, q)
    ensures Decode(r) == Packets(Numbered(g.Pending(), q))
    decreases |g.Pending()|
  {
    hide PacketAt, PackSize, Run, SeenTail, Taken, Start, Probe, Check, Numbered, U16At, U32At, Advance, AllocSize;
    TailSeen(r, g, q);
    if g.Pending() == [] {
      assert Numbered(g.Pending(), q) == [];
    } else {
      var m, p := g.Pending()[0], Start(r, g);
      FirstPacket(r, g, q, r.tail);
      PacketFields(r.buf, p, m, q);
      TakeFirst(r, g, q);
      DecodesPending(r.(head := Advance(r.cap, p, PackSize(|m|))), Taken(r, g), q + 1);
      NumberedFirst(g.Pending(), q);
    }
  }

  // ---------- Writing, as the sender does ----------

  /** The byte at `i` belongs to a pending packet or to the filler between two of them. */
  ghost predicate Occupied(r: Ring, i: nat) {
    if r.head <= r.tail then r.head <= i < r.tail else r.head <= i || i < r.tail
  }

  datatype Placement = Full | At(pos: nat)

  /** The second half of Send's decision: behind the tail, or at offset 0 behind filler, or not at all. */
  function Place(cap: nat, head: nat, tail: nat, size: nat): Placement {
    if head <= tail && cap - tail < size then
      if head <= size then Full else At(0)
    else
      At(tail)
  }

  /** A packet of this size at `pos` stays clear of every pending packet, and its end of `head`. */
  ghost predicate Room(r: Ring, size: nat, pos: nat) {
    if pos == r.tail then
      if r.tail < r.head then r.tail + size < r.head
      else r.tail + size <= r.cap && (r.tail + size == r.cap ==> 0 < r.head)
    else
      pos == 0 && r.head <= r.tail && size < r.head
  }

  /** Both of Send's decisions together leave room, even if `head` moved between them. */
  lemma PlaceHasRoom(r: Ring, size: nat)
    requires r.Valid() && 0 < size <= FreeSize(r.cap, r.head, r.tail)
    ensures var p := Place(r.cap, r.head, r.tail, size); p.At? ==> Room(r, size, p.pos)
  {
  }

  /** There is room for a packet of this size, behind the tail or at offset 0. */
  ghost predicate HasRoom(r: Ring, size: nat) {
    Room(r, size, r.tail) || Room(r, size, 0)
  }

  /** Both of Send's decisions together are positive exactly when there is room. */
  lemma PlaceIff(r: Ring, size: nat)
    requires r.Valid() && 0 < size
    ensures size <= FreeSize(r.cap, r.head, r.tail) && Place(r.cap, r.head, r.tail, size).At? <==> HasRoom(r, size)
  {
  }

  /** A packet at `pos` fits the buffer, covers no occupied byte, and neither reaches over `head` nor ends there. */
  ghost predicate Clear(r: Ring, size: nat, pos: nat) {
    && pos + size <= r.cap && (forall i :: pos <= i < pos + size ==> !Occupied(r, i))
    && !(pos < r.head <= pos + size) && (pos + size == r.cap ==> r.head != 0)
  }

  lemma RoomIsClear(r: Ring, size: nat, pos: nat)
    requires r.Valid() && 0 < size && (pos == r.tail || pos == 0)
    ensures Room(r, size, pos) <==> Clear(r, size, pos)
  {
    assert Occupied(r, pos) || !Occupied(r, pos);
    if r.head < r.tail && pos < r.head < pos + size { assert Occupied(r, r.head); }
    if r.tail < r.head < pos + size { assert Occupied(r, r.head); }
  }

  /** The layout once a message was published at `pos`. */
  function Put(r: Ring, g: Layout, m: Message, pos: nat): Layout {
    if pos != r.tail then Layout(g.front, [m], r.tail, true)
    else if g.wrapped then g.(back := g.back + [m])
    else Layout(g.front + [m], [], r.cap, r.tail + PackSize(|m|) == r.cap)
  }

  /** Bytes outside the occupied part can be overwritten freely. */
  lemma WriteFree(r: Ring, g: Layout, q: nat, buf: seq<Byte>)
    requires Laid(r, g, q) && |buf| == |r.buf|
    requires forall i :: 0 <= i < |buf| && buf[i] != r.buf[i] ==> !Occupied(r, i)
    ensures Laid(r.(buf := buf), g, q)
  {
    hide PacketAt, PackSize;
    var end := if g.wrapped then g.edge else r.tail;
    RunBounds(r.buf, r.head, end, g.front, q);
    RunFrame(r.buf, buf, r.head, end, g.front, q);
    if g.wrapped {
      RunFrame(r.buf, buf, 0, r.tail, g.back, q + |g.front|);
    }
  }

  /** Moving the tail past a packet that was written into free room appends exactly that message. */
  lemma Publish(r: Ring, g: Layout, q: nat, m: Message, pos: nat)
    requires Laid(r, g, q) && Room(r, PackSize(|m|), pos)
    requires PacketAt(r.buf, pos, m, q + |g.Pending()|)
    requires pos != r.tail ==> Filler(r.buf, r.tail)
    ensures pos < r.cap && PackSize(|m|) <= r.cap
    ensures var r' := r.(tail := Advance(r.cap, pos, PackSize(|m|)));
            Laid(r', Put(r, g, m, pos), q) && r'.head != r'.tail
    ensures Put(r, g, m, pos).Pending() == g.Pending() + [m]
  {
    hide PackSize, PacketAt, Run, Filler;
    if pos != r.tail {
      PublishBehindFiller(r, g, q, m);
    } else if g.wrapped {
      PublishBehindBack(r, g, q, m);
    } else {
      PublishBehindFront(r, g, q, m);
    }
  }

  lemma PublishBehindFiller(r: Ring, g: Layout, q: nat, m: Message)
    requires Laid(r, g, q) && Room(r, PackSize(|m|), 0) && r.tail != 0
    requires PacketAt(r.buf, 0, m, q + |g.front|) && Filler(r.buf, r.tail)
    ensures !g.wrapped && PackSize(|m|) < r.head
    ensures Laid(r.(tail := PackSize(|m|)), Layout(g.front, [m], r.tail, true), q)
  {
    hide PackSize, PacketAt, Filler, Run;
    var size, n := PackSize(|m|), q + |g.front|;
    NoRun(r.buf, 0, n);
    RunAppend(r.buf, 0, 0, [], n, m);
    assert [] + [m] == [m];
    RunBounds(r.buf, r.head, if g.wrapped then g.edge else r.tail, g.front, q);
  }

  lemma PublishBehindBack(r: Ring, g: Layout, q: nat, m: Message)
    requires Laid(r, g, q) && g.wrapped && Room(r, PackSize(|m|), r.tail)
    requires PacketAt(r.buf, r.tail, m, q + |g.Pending()|)
    ensures r.tail + PackSize(|m|) < r.head
    ensures Laid(r.(tail := r.tail + PackSize(|m|)), g.(back := g.back + [m]), q)
  {
    hide PackSize, PacketAt, Run, Filler;
    RunAppend(r.buf, 0, r.tail, g.back, q + |g.front|, m);
  }

  lemma PublishBehindFront(r: Ring, g: Layout, q: nat, m: Message)
    requires Laid(r, g, q) && !g.wrapped && Room(r, PackSize(|m|), r.tail)
    requires PacketAt(r.buf, r.tail, m, q + |g.Pending()|)
    ensures r.tail + PackSize(|m|) <= r.cap
    ensures var r' := r.(tail := Advance(r.cap, r.tail, PackSize(|m|)));
            && Laid(r', Layout(g.front + [m], [], r.cap, r.tail + PackSize(|m|) == r.cap), q)
            && r'.head != r'.tail
  {
    hide PackSize, PacketAt, Run, Filler;
    RunBounds(r.buf, r.head, r.tail, g.front, q);
    RunAppend(r.buf, r.head, r.tail, g.front, q, m);
    NoRun(r.buf, 0, q + |g.front + [m]|);
  }

  lemma NoRun(buf: seq<Byte>, a: nat, q: nat)
    ensures Run(buf, a, a, [], q)
  {
  }

  /** What the receiver is in the middle of reading is not disturbed by a publish. */
  lemma PublishKeepsFirst(r: Ring, g: Layout, q: nat, m: Message, pos: nat, tail: nat)
    requires Laid(r, g, q) && SeenTail(r, g, tail) && Room(r, PackSize(|m|), pos) && pos < r.cap
    ensures var r' := r.(tail := Advance(r.cap, pos, PackSize(|m|))); var g' := Put(r, g, m, pos);
            && SeenTail(r', g', tail) && Start(r', g') == Start(r, g)
            && g'.Pending() != [] && g'.Pending()[0] == g.Pending()[0]
  {
  }

  /** A take never shrinks the sender's room, nor the free size it has already checked. */
  lemma TakeKeepsRoom(r: Ring, g: Layout, q: nat)
    requires Laid(r, g, q) && g.Pending() != []
    ensures Start(r, g) + PackSize(|g.Pending()[0]|) <= r.cap
    ensures var r' := r.(head := Advance(r.cap, Start(r, g), PackSize(|g.Pending()[0]|)));
            && FreeSize(r.cap, r.head, r.tail) <= FreeSize(r.cap, r'.head, r.tail)
            && forall size: nat, pos: nat :: Room(r, size, pos) ==> Room(r', size, pos)
  {
  }
}
