/**
  One ring as a queue object: CreateUnlockQueue, Send, Recv, Peek and Drop, each run to completion,
  first as functions of the ring's bytes and then as methods that update the buffer in place.
 */
module RingQueue {
  import opened Bytes
  import opened Packet
  import opened RingLayout
  import opened Wrappers

  const QUEUE_HEAD_SIZE := 580  // sizeof(UnlockQueueHead)

  datatype SendResult = SendResult(ret: Status, r: Ring)

  datatype RecvResult = RecvResult(ret: Status, r: Ring, data: seq<Byte>)

  /** memcpy(buf + at, src). */
  function Write(buf: seq<Byte>, at: nat, src: seq<Byte>): (buf': seq<Byte>)
    requires at + |src| <= |buf|
    ensures |buf'| == |buf| && buf'[at..at + |src|] == src
    ensures forall i :: 0 <= i < |buf| && (i < at || at + |src| <= i) ==> buf'[i] == buf[i]
  {
    buf[..at] + src + buf[at + |src|..]
  }

  /** Send accepts a body of this length. */
  predicate Accepts(r: Ring, len: nat)
    requires r.Valid()
  {
    && PackSize(len) <= FreeSize(r.cap, r.head, r.tail)
    && Place(r.cap, r.head, r.tail, PackSize(len)).At?
  }

  /** The buffer after Send marked the end of the buffer, if it wraps and there is room for a head. */
  function Marked(r: Ring, pos: nat): (buf: seq<Byte>)
    requires r.Valid()
    ensures |buf| == r.cap
  {
    if pos != r.tail && HEAD_SIZE <= r.cap - r.tail then Write(r.buf, r.tail, PlaceHolder()) else r.buf
  }

  function SendTo(r: Ring, data: seq<Byte>): (res: SendResult)
    requires r.Valid()
    ensures res.r.Valid() && res.r.cap == r.cap
    ensures res.ret == (if Accepts(r, |data|) then Ok else ChanFull)
    ensures res.ret == (if HasRoom(r, PackSize(|data|)) then Ok else ChanFull)
  {
    var size := PackSize(|data|);
    PlaceIff(r, size);
    if !Accepts(r, |data|) then SendResult(ChanFull, r)
    else
      PlaceHasRoom(r, size);
      var pos := Place(r.cap, r.head, r.tail, size).pos;
      var buf := Write(Marked(r, pos), pos, PacketBytes(data, r.seqno));
      SendResult(Ok, r.(tail := Advance(r.cap, pos, size), seqno := U32(r.seqno + 1), buf := buf))
  }

  /** The two outcomes of Send, with the room that an accepted packet has. */
  lemma SendCases(r: Ring, data: seq<Byte>)
    requires r.Valid()
    ensures !Accepts(r, |data|) ==> SendTo(r, data) == SendResult(ChanFull, r)
    ensures Accepts(r, |data|) ==>
              var pos := Place(r.cap, r.head, r.tail, PackSize(|data|)).pos;
              && pos < r.cap && pos + PackSize(|data|) <= r.cap
              && SendTo(r, data).ret == Ok
              && SendTo(r, data).r == Ring(r.cap, r.head, Advance(r.cap, pos, PackSize(|data|)), U32(r.seqno + 1),
                                           Write(Marked(r, pos), pos, PacketBytes(data, r.seqno)))
  {
    hide PackSize, PacketBytes, Write, Marked;
    if Accepts(r, |data|) { PlaceHasRoom(r, PackSize(|data|)); }
  }

  /** Recv into `space` bytes. A length field that points past the buffer is not modelled further. */
  function RecvFrom(r: Ring, space: nat): (res: RecvResult)
    requires r.Valid()
    ensures res.r.Valid() && res.r.cap == r.cap
  {
    var p := NextPack(r);
    if !p.Pack? then RecvResult(Failed(p), r, [])
    else if space < p.len || r.cap < p.start + HEAD_SIZE + p.len then RecvResult(RecvSpaceLimit, r, [])
    else
      var b := p.start + HEAD_SIZE;
      RecvResult(Ok, r.(head := Advance(r.cap, p.start, p.size)), r.buf[b..b + p.len])
  }

  function DropFrom(r: Ring): (res: RecvResult)
    requires r.Valid()
    ensures res.r.Valid() && res.r.cap == r.cap
  {
    var p := NextPack(r);
    if !p.Pack? then RecvResult(Failed(p), r, [])
    else RecvResult(Ok, r.(head := Advance(r.cap, p.start, p.size)), [])
  }

  // ---------- The queue that these functions keep ----------

  /** A ring whose pending messages, in order, are `ms`. */
  ghost predicate Holds(r: Ring, ms: seq<Message>) {
    exists g: Layout, q: nat :: Laid(r, g, q) && ms == g.Pending() && r.seqno == (q + |ms|) % WORD32
  }

  lemma MarkedIsFiller(r: Ring, pos: nat)
    requires r.Valid() && pos != r.tail
    ensures Filler(Marked(r, pos), r.tail)
  {
  }

  lemma FillerKept(buf: seq<Byte>, buf': seq<Byte>, edge: nat)
    requires Filler(buf, edge) && |buf| == |buf'| && forall i :: edge <= i < |buf| ==> buf'[i] == buf[i]
    ensures Filler(buf', edge)
  {
  }

  /** The buffer that Send leaves: the packet in place, the pending packets untouched. */
  lemma WrittenBuffer(r: Ring, g: Layout, q: nat, m: Message, pos: nat)
    requires Laid(r, g, q) && Room(r, PackSize(|m|), pos)
    ensures pos + HEAD_SIZE + |m| <= r.cap
    ensures var buf := Write(Marked(r, pos), pos, PacketBytes(m, r.seqno));
            && Laid(r.(buf := buf), g, q) && PacketAt(buf, pos, m, r.seqno)
            && (pos != r.tail ==> Filler(buf, r.tail))
  {
    hide Run, PacketBytes, PlaceHolder, PackSize, PacketHead, Write, Filler;
    var buf := Write(Marked(r, pos), pos, PacketBytes(m, r.seqno));
    PacketWritten(buf, pos, m, r.seqno);
    WriteFree(r, g, q, buf);
    if pos != r.tail {
      MarkedIsFiller(r, pos);
      FillerKept(Marked(r, pos), buf, r.tail);
    }
  }

  /** An accepted Send appends its message; a refused one changes nothing. */
  lemma SendAppends(r: Ring, ms: seq<Message>, m: Message)
    requires Holds(r, ms)
    ensures var res := SendTo(r, m); Holds(res.r, if res.ret.Ok? then ms + [m] else ms)
  {
    hide Run, PackSize, Filler, Put, PacketAt, PacketBytes, Write, Marked, SendTo, HasRoom;
    SendCases(r, m);
    if Accepts(r, |m|) {
      var g: Layout, q: nat :| Laid(r, g, q) && ms == g.Pending() && r.seqno == (q + |ms|) % WORD32;
      PlaceHasRoom(r, PackSize(|m|));
      var pos := Place(r.cap, r.head, r.tail, PackSize(|m|)).pos;
      var buf := Write(Marked(r, pos), pos, PacketBytes(m, r.seqno));
      WrittenBuffer(r, g, q, m, pos);
      Renumber(buf, pos, m, q + |ms|);
      Publish(r.(buf := buf), g, q, m, pos);
      var g' := Put(r.(buf := buf), g, m, pos);
      assert Laid(SendTo(r, m).r, g', q);
      assert U32(r.seqno + 1) == (q + |ms| + 1) % WORD32;
    }
  }

  lemma Renumber(buf: seq<Byte>, pos: nat, m: Message, n: nat)
    requires PacketAt(buf, pos, m, n % WORD32)
    ensures PacketAt(buf, pos, m, n)
  {
    hide PacketHead;
    SameHead(|m|, n);
  }

  /** Recv returns the first pending message and removes exactly it. */
  lemma RecvTakesFirst(r: Ring, ms: seq<Message>, space: nat)
    requires Holds(r, ms)
    ensures var res := RecvFrom(r, space);
            if ms == [] then res == RecvResult(ChanEmpty, r, [])
            else if space < |ms[0]| then res == RecvResult(RecvSpaceLimit, r, [])
            else res.ret == Ok && res.data == ms[0] && Holds(res.r, ms[1..])
  {
    hide Run, PackSize, SeenTail, Probe, Check, Taken, PacketHead;
    var g: Layout, q: nat :| Laid(r, g, q) && ms == g.Pending() && r.seqno == (q + |ms|) % WORD32;
    TailSeen(r, g, q);
    if ms != [] {
      FirstPacket(r, g, q, r.tail);
      TakeFirst(r, g, q);
      assert r.seqno == (q + 1 + |ms[1..]|) % WORD32;
    }
  }

  /** Peek shows what Recv would copy, and Drop leaves what Recv would leave. */
  lemma PeekThenDropIsRecv(r: Ring, space: nat)
    requires r.Valid() && RecvFrom(r, space).ret.Ok?
    ensures NextPack(r).Pack? && DropFrom(r).ret == Ok && DropFrom(r).r == RecvFrom(r, space).r
    ensures RecvFrom(r, space).data == DecodedAt(r, NextPack(r).start, NextPack(r).len).body
  {
  }

  // ---------- What Send refuses ----------

  /** Send accepts exactly when the packet fits clear of all pending bytes and of `head`, behind the tail or at 0. */
  lemma AcceptsIff(r: Ring, data: seq<Byte>)
    requires r.Valid()
    ensures SendTo(r, data).ret == Ok <==> Clear(r, PackSize(|data|), r.tail) || Clear(r, PackSize(|data|), 0)
  {
    hide PackSize, Clear;
    RoomIsClear(r, PackSize(|data|), r.tail);
    RoomIsClear(r, PackSize(|data|), 0);
  }

  /** Send refuses only when the occupied bytes and twice the packet exceed the capacity. */
  lemma RefusesOnlyWhenTight(r: Ring, len: nat)
    requires r.Valid() && !Accepts(r, len)
    ensures AllocSize(r.cap, r.head, r.tail) + 2 * PackSize(len) > r.cap
  {
  }

  /** An empty queue with both ends at `p`: send one packet of this size and receive it. */
  function Round(cap: nat, p: nat, size: nat): (p': int)
    requires p < cap
    ensures p' < cap
  {
    var place := Place(cap, p, p, size);
    if cap - 1 < size || place.Full? then -1 else Advance(cap, place.pos, size)
  }

  /** Where both ends are after `n` such rounds from a reset queue; -1 once a Send is refused. */
  function Rounds(cap: nat, size: nat, n: nat): (p: int)
    requires 0 < cap
    ensures p < cap
  {
    if n == 0 then 0
    else
      var p := Rounds(cap, size, n - 1);
      if p < 0 then -1 else Round(cap, p, size)
  }

  /** The ring after sending this message and receiving it, or nothing if either fails. */
  function SendRecv(r: Ring, m: Message): (res: Option<Ring>)
    requires r.Valid()
    ensures res.Some? ==> res.value.Valid() && res.value.cap == r.cap
  {
    var sent := SendTo(r, m);
    var back := RecvFrom(sent.r, |m|);
    if sent.ret == Ok && back.ret == Ok && back.data == m then Some(back.r) else None
  }

  /** A round in positions is a Send and a Recv on the ring, which is empty again afterwards. */
  lemma RoundOnRing(r: Ring, m: Message)
    requires Holds(r, [])
    ensures r.Valid() && r.head == r.tail
    ensures var p := Round(r.cap, r.head, PackSize(|m|)); var res := SendRecv(r, m);
            && SendTo(r, m).ret == (if p < 0 then ChanFull else Ok)
            && (res.Some? <==> p >= 0)
            && (res.Some? ==> Holds(res.value, []) && res.value.head == p)
  {
    hide Holds, PackSize, PacketBytes, Write, Marked, NextPack;
    EmptyEnds(r);
    SendAppends(r, [], m);
    if Accepts(r, |m|) {
      assert [] + [m] == [m] && [m][1..] == [];
      RecvTakesFirst(SendTo(r, m).r, [m], |m|);
      EmptyEnds(RecvFrom(SendTo(r, m).r, |m|).r);
    }
  }

  lemma EmptyEnds(r: Ring)
    requires Holds(r, [])
    ensures r.Valid() && r.head == r.tail
  {
  }

  /** The ring after `n` times sending this message and receiving it, or nothing once either fails. */
  function RoundsOn(r: Ring, m: Message, n: nat): (res: Option<Ring>)
    requires r.Valid()
    ensures res.Some? ==> res.value.Valid() && res.value.cap == r.cap
  {
    if n == 0 then Some(r)
    else
      var before := RoundsOn(r, m, n - 1);
      if before.None? then None else SendRecv(before.value, m)
  }

  /** Rounds on the ring succeed exactly as long as rounds of positions do. */
  lemma {:induction false} RoundsOnRing(r: Ring, m: Message, n: nat)
    requires Holds(r, []) && r.head == 0
    ensures r.Valid()
    ensures var p := Rounds(r.cap, PackSize(|m|), n); var res := RoundsOn(r, m, n);
            && (res.Some? <==> p >= 0)
            && (res.Some? ==> Holds(res.value, []) && res.value.head == p)
  {
    hide Holds, PackSize, SendTo, SendRecv, Round;
    EmptyEnds(r);
    if n > 0 {
      RoundsOnRing(r, m, n - 1);
      var before := RoundsOn(r, m, n - 1);
      if before.Some? { RoundOnRing(before.value, m); }
    }
  }

  lemma ResetHolds(r: Ring)
    requires r.Valid() && r.head == r.tail == r.seqno == 0
    ensures Holds(r, [])
  {
    assert Laid(r, Layout([], [], 0, false), 0);
  }

  /**
    A message passes a reset queue any number of times, sent and received in turn, exactly when twice its
    packet fits the buffer. Otherwise an empty queue ends up refusing what it accepted before.
   */
  lemma PassesForeverIff(r: Ring, m: Message)
    requires r.Valid() && r.head == r.tail == r.seqno == 0
    ensures (forall n: nat :: RoundsOn(r, m, n).Some?) <==> 2 * PackSize(|m|) <= r.cap
  {
    hide PackSize, RoundsOn, Round, Holds;
    ResetHolds(r);
    var size := PackSize(|m|);
    forall n: nat ensures RoundsOn(r, m, n).Some? <==> Rounds(r.cap, size, n) >= 0 { RoundsOnRing(r, m, n); }
    if 2 * size <= r.cap {
      forall n: nat ensures RoundsOn(r, m, n).Some? { PassesRounds(r.cap, size, n); }
    } else {
      StopsAtTwo(r.cap, size);
      assert !RoundsOn(r, m, 2).Some?;
    }
  }

  lemma StopsAtTwo(cap: nat, size: nat)
    requires 0 < cap < 2 * size
    ensures Rounds(cap, size, 2) < 0
  {
    assert Rounds(cap, size, 0) == 0;
    assert Rounds(cap, size, 1) < 0 || Rounds(cap, size, 1) == size;
  }

  lemma {:induction false} PassesRounds(cap: nat, size: nat, n: nat)
    requires 0 < 2 * size <= cap
    ensures Rounds(cap, size, n) >= 0
  {
    if n > 0 { PassesRounds(cap, size, n - 1); }
  }

  // ---------- How long a body may be ----------

  /**
    A reset queue hands a body back and is empty again exactly when the body has at most 65528 bytes:
    beyond that a length field is cut to 16 bits, and the receiver stops inside the packet.
   */
  lemma HandsBackIff(r: Ring, data: seq<Byte>)
    requires r.Valid() && r.head == r.tail == r.seqno == 0 && Accepts(r, |data|)
    ensures var r' := SendTo(r, data).r; var res := RecvFrom(r', |data|);
            (res.ret == Ok && res.data == data && res.r.head == res.r.tail) <==> |data| <= MAX_BODY
  {
    hide PackSize, SendTo, U16At;
    FirstOfReset(r, data);
    LengthsFit(|data|);
  }

  /** What the first Send leaves at offset 0. */
  lemma FirstOfReset(r: Ring, data: seq<Byte>)
    requires r.Valid() && r.head == r.tail == r.seqno == 0 && Accepts(r, |data|)
    ensures var r' := SendTo(r, data).r; var size := PackSize(|data|);
            && r'.head == 0 && r'.tail == size < r.cap
            && r'.buf[HEAD_SIZE..HEAD_SIZE + |data|] == data
            && U16At(r'.buf, 4) == |data| % WORD16 && U16At(r'.buf, 6) == (size - HEAD_SIZE) % WORD16
            && U16At(r'.buf, 8) == CMD_TRANSFER
  {
    hide PackSize, Head, Write, SendTo, U16At, U32At;
    SendCases(r, data);
    var buf := SendTo(r, data).r.buf;
    assert buf[0..HEAD_SIZE + |data|] == PacketBytes(data, 0);
    assert buf[0..HEAD_SIZE] == PacketHead(|data|, 0);
    HeadFields(buf, 0, |data| % WORD16, (PackSize(|data|) - HEAD_SIZE) % WORD16, CMD_TRANSFER, 0);
  }

  // ---------- The queue object ----------

  /** The fields of UnlockQueueHead that the queue uses. */
  datatype QueueHead = QueueHead(capacity: nat, head: nat, tail: nat, seqno: nat) {
    /** Set up for a buffer of this length. */
    predicate Fits(length: nat) {
      capacity == length && HEAD_SIZE < capacity <= 0x8000_0000 && head < capacity && tail < capacity
    }

    function On(buf: seq<Byte>): Ring {
      Ring(capacity, head, tail, seqno, buf)
    }
  }

  class UnlockQueue {
    const cap: nat
    const buf: array<Byte>
    var head: nat
    var tail: nat
    var seqno: nat

    ghost function Value(): Ring
      reads this, buf
    {
      Ring(cap, head, tail, seqno, buf[..])
    }

    ghost predicate Valid()
      reads this, buf
    {
      Value().Valid()
    }

    /** The queue of the head that lies in front of `mem`, once Init accepted the capacity. */
    constructor (mem: array<Byte>, h: QueueHead)
      requires h.Fits(mem.Length)
      ensures Valid() && buf == mem && Value() == h.On(mem[..])
    {
      cap, buf := h.capacity, mem;
      head, tail, seqno := h.head, h.tail, h.seqno;
    }

    method CopyIn(at: nat, src: seq<Byte>)
      requires at + |src| <= buf.Length
      modifies buf
      ensures buf[..] == Write(old(buf[..]), at, src)
    {
      hide Write;
      for k := 0 to |src|
        invariant forall i :: 0 <= i < k ==> buf[at + i] == src[i]
        invariant forall i :: 0 <= i < buf.Length && (i < at || at + k <= i) ==> buf[i] == old(buf[i])
      {
        buf[at + k] := src[k];
      }
      ghost var w := Write(old(buf[..]), at, src);
      forall i | 0 <= i < buf.Length ensures buf[i] == w[i] {
        if at <= i < at + |src| { assert w[i] == w[at..at + |src|][i - at]; }
      }
    }

    /** Send: both checks, the place holder where the packet must wrap, the copy, then the publish. */
    method Send(data: seq<Byte>) returns (ret: Status)
      requires Valid() && |data| + HEAD_SIZE + 8 < WORD32
      modifies this, buf
      ensures Valid()
      ensures SendResult(ret, Value()) == SendTo(old(Value()), data)
    {
      hide PackSize, PacketBytes, Write, PlaceHolder, SendTo, FreeSize, Advance, U32;
      var size := PackSize(|data|);
      ghost var r := Value();
      if size % 8 != 0 || size < HEAD_SIZE + |data| {
        assert false;
      }
      SizesInCode(cap, head, tail, 0, 0);
      SendCases(r, data);
      if U32(cap - tail - 1 + head) % cap < size { return ChanFull; }
      var curTail, curHead := tail, head;
      if curTail >= curHead {
        if cap - curTail < size {
          if curHead <= size { return ChanFull; }
          if cap - curTail >= HEAD_SIZE { CopyIn(curTail, PlaceHolder()); }
          curTail := 0;
        }
      }
      assert buf[..] == Marked(r, curTail);
      CopyIn(curTail, PacketBytes(data, seqno));
      SizesInCode(cap, head, tail, curTail, size);
      tail := U32(curTail + size) % cap;
      seqno := U32(seqno + 1);
      ret := Ok;
    }

    method GetNextPack() returns (p: Next)
      requires Valid()
      ensures p == NextPack(Value())
    {
      hide U16At, U32, AllocSize;
      if tail == head { return Empty; }
      var start := head;
      SizesInCode(cap, head, tail, 0, 0);
      var alloc, room := U32(tail + cap - head) % cap, cap - head;
      if room < HEAD_SIZE {
        if alloc < room { return PackInvalid; }
        start := 0;
      } else if U16At(buf[..], head + 8) == CMD_PLACE_HOLDER {
        if alloc < room { return PackInvalid; }
        start := 0;
      }
      assert Probe(Value(), tail) == Pack(start, 0, 0);
      hide Probe;
      SizesInCode(cap, start, tail, 0, 0);
      alloc := U32(tail + cap - start) % cap;
      var size := HEAD_SIZE + U16At(buf[..], start + 6);
      if U16At(buf[..], start + 8) != CMD_TRANSFER { return Next.Unexpect; }
      if size > alloc { return PackInvalid; }
      p := Pack(start, size, U16At(buf[..], start + 4));
    }

    method Recv(space: nat) returns (ret: Status, data: seq<Byte>)
      requires Valid()
      modifies this
      ensures Valid() && RecvResult(ret, Value(), data) == RecvFrom(old(Value()), space)
    {
      hide NextPack;
      var p := GetNextPack();
      if !p.Pack? { return Failed(p), []; }
      if space < p.len || cap < p.start + HEAD_SIZE + p.len { return RecvSpaceLimit, []; }
      data := buf[p.start + HEAD_SIZE..p.start + HEAD_SIZE + p.len];
      SizesInCode(cap, head, tail, p.start, p.size);
      head := U32(p.start + p.size) % cap;
      ret := Ok;
    }

    /** Peek hands out where the body lies and how long it is. */
    method Peek() returns (ret: Status, at: nat, len: nat)
      requires Valid()
      ensures var p := NextPack(Value());
              ret == Failed(p) && (p.Pack? ==> at == p.start + HEAD_SIZE && len == p.len)
    {
      var p := GetNextPack();
      if p.Pack? { return Ok, p.start + HEAD_SIZE, p.len; }
      ret, at, len := Failed(p), 0, 0;
    }

    method Drop() returns (ret: Status)
      requires Valid()
      modifies this
      ensures Valid() && RecvResult(ret, Value(), []) == DropFrom(old(Value()))
    {
      hide NextPack;
      var p := GetNextPack();
      if !p.Pack? { return Failed(p); }
      SizesInCode(cap, head, tail, p.start, p.size);
      head := U32(p.start + p.size) % cap;
      ret := Ok;
    }
  }

  /**
    CreateUnlockQueue: memory that cannot hold the queue's head and one packet head is refused. `mem` is the
    part of the memory behind the queue's head, and `h` is the head as the memory holds it. Without reset the
    queue goes on with that head, which must have been set up for this memory; IsValid checks nothing.
   */
  method CreateUnlockQueue(mem: array<Byte>, capacity: nat, h: QueueHead, reset: bool)
    returns (ret: Status, q: UnlockQueue?)
    requires capacity <= 0x8000_0000
    requires mem.Length == if capacity < QUEUE_HEAD_SIZE then 0 else capacity - QUEUE_HEAD_SIZE
    requires !reset && QUEUE_HEAD_SIZE + HEAD_SIZE < capacity ==> h.Fits(mem.Length)
    ensures ret == if capacity <= QUEUE_HEAD_SIZE + HEAD_SIZE then Arg else Ok
    ensures ret.Ok? <==> q != null
    ensures q != null ==> q.Valid() && q.buf == mem
    ensures q != null && reset ==> Holds(q.Value(), [])
    ensures q != null && !reset ==> q.Value() == h.On(mem[..])
  {
    var head := if reset then QueueHead(U32(capacity - QUEUE_HEAD_SIZE), 0, 0, 0) else h;
    if capacity <= QUEUE_HEAD_SIZE + HEAD_SIZE { return Arg, null; }
    q := new UnlockQueue(mem, head);
    if reset { ResetHolds(q.Value()); }
    ret := Ok;
  }
}
