/**
  The ring as two threads use it: one step per access to shared memory, in any interleaving.
  `sent` and `taken` record what Send published and what Recv copied out (or Drop skipped); no
  step reads them. Memory is sequentially consistent.
 */
module RingProtocol {
  import opened Bytes
  import opened Packet
  import opened RingLayout

  /** Where the sender is inside Send. */
  datatype Sender =
    | SIdle
    | SCheck(m: Message)                         // about to read head for free_size
    | SPlace(m: Message)                         // about to read head again
    | SHold(m: Message, done: nat)               // copying the place holder
    | SCopy(m: Message, pos: nat, done: nat)     // copying the packet
    | SCount                                     // tail is published, seq is not yet counted up

  datatype Op = Recv(space: nat) | Peek | Drop

  /** Where the receiver is inside Recv, Peek or Drop. */
  datatype Receiver =
    | RIdle
    | RLook(op: Op)                                    // about to read tail
    | RProbe(op: Op, tail: nat)                        // about to look for filler at head
    | RSize(op: Op, tail: nat, start: nat)             // about to read align_body_len
    | RCmd(op: Op, tail: nat, start: nat, size: nat)   // about to read cmd
    | RLen(op: Op, start: nat, size: nat)              // about to read body_len
    | RAgain(start: nat, size: nat)                    // about to read body_len for the copy
    | RCopy(start: nat, size: nat, len: nat, out: seq<Byte>)
    | RTell(start: nat, size: nat, out: seq<Byte>)     // about to read body_len for the caller
    | RMove(start: nat, size: nat, out: seq<Byte>)     // about to write head
    | RDrop(start: nat, size: nat)                     // about to write head

  /** `peeked` is where the last Peek found a body, and its length. */
  datatype State = State(
    r: Ring, s: Sender, c: Receiver,
    sendRet: Status, recvRet: Status, peeked: (nat, nat),
    sent: seq<Message>, taken: seq<seq<Byte>>)

  datatype Event = BeginSend(m: Message) | SenderStep | BeginRead(op: Op) | ReceiverStep

  /** A reset queue: the head is zeroed, the buffer holds anything. */
  ghost predicate Fresh(st: State) {
    && st.r.Valid() && st.r.head == st.r.tail == st.r.seqno == 0
    && st.s.SIdle? && st.c.RIdle? && st.sendRet.Ok? && st.recvRet.Ok? && st.sent == [] && st.taken == []
  }

  /** One access of Send. Steps that the protocol never takes leave the state alone. */
  function SendStep(st: State): (st': State)
    requires st.r.Valid()
    ensures st'.c == st.c && st'.taken == st.taken && st'.r.head == st.r.head
  {
    var r := st.r;
    match st.s
    case SIdle => st
    case SCheck(m) =>
      if FreeSize(r.cap, r.head, r.tail) < PackSize(|m|) then st.(s := SIdle, sendRet := ChanFull)
      else st.(s := SPlace(m))
    case SPlace(m) =>
      var p := Place(r.cap, r.head, r.tail, PackSize(|m|));
      if p.Full? then st.(s := SIdle, sendRet := ChanFull)
      else if p.pos != r.tail && HEAD_SIZE <= r.cap - r.tail then st.(s := SHold(m, 0))
      else st.(s := SCopy(m, p.pos, 0))
    case SHold(m, k) =>
      if k < HEAD_SIZE && r.tail + k < r.cap then
        st.(r := r.(buf := r.buf[r.tail + k := PlaceHolder()[k]]), s := SHold(m, k + 1))
      else st.(s := SCopy(m, 0, 0))
    case SCopy(m, pos, k) =>
      if k < HEAD_SIZE + |m| && pos + k < r.cap then
        st.(r := r.(buf := r.buf[pos + k := PacketBytes(m, r.seqno)[k]]), s := SCopy(m, pos, k + 1))
      else if pos < r.cap && PackSize(|m|) <= r.cap then
        st.(r := r.(tail := Advance(r.cap, pos, PackSize(|m|))), s := SCount, sendRet := Ok, sent := st.sent + [m])
      else st
    case SCount => st.(r := r.(seqno := U32(r.seqno + 1)), s := SIdle)
  }

  /** One access of Recv, Peek or Drop. */
  function RecvStep(st: State): (st': State)
    requires st.r.Valid()
  {
    var r := st.r;
    match st.c
    case RIdle => st
    case RLook(op) =>
      if r.tail == r.head then st.(c := RIdle, recvRet := ChanEmpty) else st.(c := RProbe(op, r.tail))
    case RProbe(op, tail) =>
      if r.cap <= tail then st
      else
        var p := Probe(r, tail);
        if p.Pack? then st.(c := RSize(op, tail, p.start)) else st.(c := RIdle, recvRet := ChanPackInvalid)
    case RSize(op, tail, start) =>
      if r.cap < start + HEAD_SIZE then st
      else st.(c := RCmd(op, tail, start, HEAD_SIZE + U16At(r.buf, start + 6)))
    case RCmd(op, tail, start, size) =>
      if r.cap <= tail || r.cap < start + HEAD_SIZE then st
      else if U16At(r.buf, start + 8) != CMD_TRANSFER then st.(c := RIdle, recvRet := Status.Unexpect)
      else if size > AllocSize(r.cap, start, tail) then st.(c := RIdle, recvRet := ChanPackInvalid)
      else st.(c := if op.Drop? then RDrop(start, size) else RLen(op, start, size))
    case RLen(op, start, size) =>
      if r.cap < start + HEAD_SIZE then st
      else
        var len := U16At(r.buf, start + 4);
        if op.Recv? && op.space < len then st.(c := RIdle, recvRet := RecvSpaceLimit)
        else if op.Recv? then st.(c := RAgain(start, size))
        else st.(c := RIdle, recvRet := Ok, peeked := (start + HEAD_SIZE, len))
    case RAgain(start, size) =>
      if r.cap < start + HEAD_SIZE then st else st.(c := RCopy(start, size, U16At(r.buf, start + 4), []))
    case RCopy(start, size, len, out) =>
      if |out| < len && start + HEAD_SIZE + |out| < r.cap then
        st.(c := RCopy(start, size, len, out + [r.buf[start + HEAD_SIZE + |out|]]))
      else st.(c := RTell(start, size, out))
    case RTell(start, size, out) =>
      if r.cap < start + HEAD_SIZE then st
      else
        var len := U16At(r.buf, start + 4);
        st.(c := RMove(start, size, if len < |out| then out[..len] else out))
    case RMove(start, size, out) => Move(st, start, size, out)
    case RDrop(start, size) => Move(st, start, size, Skipped(r, start))
  }

  /** What Drop skips, for the record only. */
  function Skipped(r: Ring, start: nat): seq<Byte>
    requires r.Valid()
  {
    if r.cap < start + HEAD_SIZE || r.cap < start + HEAD_SIZE + U16At(r.buf, start + 4) then []
    else r.buf[start + HEAD_SIZE..start + HEAD_SIZE + U16At(r.buf, start + 4)]
  }

  /** The write of `head` that ends Recv and Drop. */
  function Move(st: State, start: nat, size: nat, out: seq<Byte>): State
    requires st.r.Valid()
  {
    if start < st.r.cap && size <= st.r.cap then
      st.(r := st.r.(head := Advance(st.r.cap, start, size)), c := RIdle, recvRet := Ok, taken := st.taken + [out])
    else st
  }

  function Step(st: State, e: Event): (st': State)
    requires st.r.Valid()
    ensures st'.r.Valid() && st'.r.cap == st.r.cap
  {
    match e
    case BeginSend(m) => if st.s.SIdle? then st.(s := SCheck(m)) else st
    case SenderStep => SendStep(st)
    case BeginRead(op) => if st.c.RIdle? then st.(c := RLook(op)) else st
    case ReceiverStep => RecvStep(st)
  }

  /** Any interleaving is a sequence of events. */
  function Steps(st: State, es: seq<Event>): (st': State)
    requires st.r.Valid()
    ensures st'.r.Valid() && st'.r.cap == st.r.cap
    decreases |es|
  {
    if es == [] then st else Step(Steps(st, es[..|es| - 1]), es[|es| - 1])
  }

  // ---------- The invariant ----------

  ghost predicate SenderInv(st: State)
    requires st.r.Valid()
  {
    var r := st.r;
    match st.s
    case SIdle => true
    case SCheck(m) => true
    case SPlace(m) => PackSize(|m|) <= FreeSize(r.cap, r.head, r.tail)
    case SHold(m, k) =>
      && Room(r, PackSize(|m|), 0) && r.tail != 0 && r.tail + HEAD_SIZE <= r.cap
      && k <= HEAD_SIZE && r.buf[r.tail..r.tail + k] == PlaceHolder()[..k]
    case SCopy(m, pos, k) =>
      && Room(r, PackSize(|m|), pos) && (pos != r.tail ==> Filler(r.buf, r.tail))
      && k <= HEAD_SIZE + |m| && r.buf[pos..pos + k] == PacketBytes(m, r.seqno)[..k]
    case SCount => true
  }

  ghost predicate ReceiverInv(st: State, g: Layout) {
    var r := st.r;
    match st.c
    case RIdle => true
    case RLook(_) => true
    case RProbe(_, tail) => SeenTail(r, g, tail)
    case RSize(_, tail, start) => SeenTail(r, g, tail) && start == Start(r, g)
    case RCmd(_, tail, start, size) => SeenTail(r, g, tail) && AtFirst(r, g, start, size)
    case RLen(_, start, size) => AtFirst(r, g, start, size)
    case RAgain(start, size) => AtFirst(r, g, start, size)
    case RCopy(start, size, len, out) =>
      AtFirst(r, g, start, size) && len == |g.Pending()[0]| && |out| <= len && out == g.Pending()[0][..|out|]
    case RTell(start, size, out) => AtFirst(r, g, start, size) && out == g.Pending()[0]
    case RMove(start, size, out) => AtFirst(r, g, start, size) && out == g.Pending()[0]
    case RDrop(start, size) => AtFirst(r, g, start, size)
  }

  ghost predicate AtFirst(r: Ring, g: Layout, start: nat, size: nat) {
    g.Pending() != [] && start == Start(r, g) && size == PackSize(|g.Pending()[0]|)
  }

  ghost predicate Inv(st: State, g: Layout) {
    && Laid(st.r, g, |st.taken|)
    && st.sent == st.taken + g.Pending()
    && st.r.seqno == (if st.s.SCount? then |st.sent| - 1 else |st.sent|) % WORD32
    && (st.s.SCount? ==> st.sent != [])
    && SenderInv(st) && ReceiverInv(st, g)
    && !st.recvRet.ChanPackInvalid? && !st.recvRet.Unexpect?
  }

  lemma FreshInv(st: State)
    requires Fresh(st)
    ensures Inv(st, Layout([], [], 0, false))
  {
  }

  /** Copying one byte into room that is clear of all pending packets. */
  lemma CopyByte(r: Ring, g: Layout, q: nat, i: nat, b: Byte)
    requires Laid(r, g, q) && i < r.cap && !Occupied(r, i)
    ensures Laid(r.(buf := r.buf[i := b]), g, q)
  {
    WriteFree(r, g, q, r.buf[i := b]);
  }

  /** The first pending packet is the same message at the same place. */
  ghost predicate SameFirst(r: Ring, g: Layout, r': Ring, g': Layout)
    requires g.Pending() != []
  {
    r'.head == r.head && g'.Pending() != [] && g'.Pending()[0] == g.Pending()[0] && Start(r', g') == Start(r, g)
  }

  /** One more byte of `src` in place. */
  lemma CopiedPrefix(buf: seq<Byte>, p: nat, src: seq<Byte>, k: nat)
    requires k < |src| && p + k < |buf| && buf[p..p + k] == src[..k]
    ensures var buf' := buf[p + k := src[k]]; buf'[p..p + k + 1] == src[..k + 1]
  {
    var buf' := buf[p + k := src[k]];
    assert buf'[p..p + k + 1] == buf[p..p + k] + [src[k]];
  }

  /** The receiver's part speaks of `head` and the layout only. */
  lemma ReceiverUnmoved(st: State, st': State, g: Layout)
    requires ReceiverInv(st, g) && st'.c == st.c && st'.r.head == st.r.head && st'.r.cap == st.r.cap
    ensures ReceiverInv(st', g)
  {
  }

  lemma HoldIsFiller(buf: seq<Byte>, p: nat)
    requires p + HEAD_SIZE <= |buf| && buf[p..p + HEAD_SIZE] == PlaceHolder()[..HEAD_SIZE]
    ensures Filler(buf, p)
  {
  }

  lemma FillerKept(buf: seq<Byte>, edge: nat, i: nat, b: Byte)
    requires Filler(buf, edge) && i < edge && i < |buf|
    ensures Filler(buf[i := b], edge)
  {
  }

  lemma HoldStep(st: State, g: Layout)
    requires Inv(st, g) && st.s.SHold?
    ensures Inv(SendStep(st), g)
  {
    hide Run, PackSize, PlaceHolder, ReceiverInv, PacketBytes, Filler;
    var r, k := st.r, st.s.done;
    ReceiverUnmoved(st, SendStep(st), g);
    if k < HEAD_SIZE {
      CopyByte(r, g, |st.taken|, r.tail + k, PlaceHolder()[k]);
      CopiedPrefix(r.buf, r.tail, PlaceHolder(), k);
    } else {
      HoldIsFiller(r.buf, r.tail);
    }
  }

  lemma CopyKeepsSender(st: State)
    requires st.r.Valid() && SenderInv(st) && st.s.SCopy? && st.s.done < HEAD_SIZE + |st.s.m|
    ensures st.s.pos + st.s.done < st.r.cap && !Occupied(st.r, st.s.pos + st.s.done)
    ensures SenderInv(SendStep(st))
  {
    hide PackSize, PacketBytes, PlaceHolder, Filler;
    var r, m, pos, k := st.r, st.s.m, st.s.pos, st.s.done;
    CopiedPrefix(r.buf, pos, PacketBytes(m, r.seqno), k);
    if pos != r.tail { FillerKept(r.buf, r.tail, pos + k, PacketBytes(m, r.seqno)[k]); }
  }

  lemma CopyStep(st: State, g: Layout)
    requires Inv(st, g) && st.s.SCopy? && st.s.done < HEAD_SIZE + |st.s.m|
    ensures Inv(SendStep(st), g)
  {
    hide Run, PackSize, ReceiverInv, SenderInv, PacketBytes, PlaceHolder, Filler;
    CopyKeepsSender(st);
    ReceiverUnmoved(st, SendStep(st), g);
    CopyByte(st.r, g, |st.taken|, st.s.pos + st.s.done, PacketBytes(st.s.m, st.r.seqno)[st.s.done]);
  }

  /** The receiver, wherever it stands, does not notice the publish. */
  lemma PublishUnnoticed(st: State, g: Layout, m: Message, pos: nat)
    requires Inv(st, g) && Room(st.r, PackSize(|m|), pos) && pos < st.r.cap && PackSize(|m|) <= st.r.cap
    ensures var g' := Put(st.r, g, m, pos);
            var st' := st.(r := st.r.(tail := Advance(st.r.cap, pos, PackSize(|m|))));
            ReceiverInv(st', g') && (g.Pending() != [] ==> SameFirst(st.r, g, st'.r, g'))
  {
    hide Run, PackSize, SenderInv, Put, Room, SeenTail, Start, Filler;
    if g.Pending() != [] {
      var tail := if st.c.RProbe? || st.c.RSize? || st.c.RCmd? then st.c.tail else st.r.tail;
      TailSeen(st.r, g, |st.taken|);
      PublishKeepsFirst(st.r, g, |st.taken|, m, pos, tail);
    } else {
      NothingSeen(st, g);
    }
  }

  lemma NothingSeen(st: State, g: Layout)
    requires ReceiverInv(st, g) && g.Pending() == []
    ensures st.c.RIdle? || st.c.RLook?
  {
  }

  lemma PublishStep(st: State, g: Layout) returns (g': Layout)
    requires Inv(st, g) && st.s.SCopy? && st.s.done == HEAD_SIZE + |st.s.m|
    ensures Inv(SendStep(st), g')
    ensures SendStep(st).r.head != SendStep(st).r.tail
    ensures g.Pending() != [] ==> SameFirst(st.r, g, SendStep(st).r, g')
  {
    hide Run, PackSize, Filler, Put, PacketBytes, PacketHead, ReceiverInv, Start;
    var r, m, pos := st.r, st.s.m, st.s.pos;
    g' := Put(r, g, m, pos);
    assert PacketBytes(m, r.seqno)[..st.s.done] == PacketBytes(m, r.seqno);
    PacketWritten(r.buf, pos, m, r.seqno);
    SameHead(|m|, |st.sent|);
    Publish(r, g, |st.taken|, m, pos);
    PublishUnnoticed(st, g, m, pos);
    ReceiverUnmoved(st.(r := SendStep(st).r), SendStep(st), g');
  }

  /** The steps of Send that write at most the sequence number. */
  lemma DecideStep(st: State, g: Layout)
    requires Inv(st, g) && !st.s.SHold? && !st.s.SCopy?
    ensures Inv(SendStep(st), g) && SendStep(st).r.head == st.r.head
  {
    hide Run, PackSize, ReceiverInv, PacketBytes, PlaceHolder;
    ReceiverUnmoved(st, SendStep(st), g);
    match st.s
    case SPlace(m) => PlaceHasRoom(st.r, PackSize(|m|));
    case SCount => assert U32((|st.sent| - 1) % WORD32 + 1) == |st.sent| % WORD32;
    case _ =>
  }

  /** Every step of Send keeps the invariant. */
  lemma SenderKeeps(st: State, g: Layout) returns (g': Layout)
    requires Inv(st, g)
    ensures Inv(SendStep(st), g')
    ensures g.Pending() != [] ==> SameFirst(st.r, g, SendStep(st).r, g')
  {
    hide Run, PackSize, ReceiverInv, PacketBytes, PlaceHolder, Room, Filler;
    g' := g;
    if st.s.SHold? {
      HoldStep(st, g);
    } else if st.s.SCopy? {
      if st.s.done < HEAD_SIZE + |st.s.m| { CopyStep(st, g); } else { g' := PublishStep(st, g); }
    } else {
      DecideStep(st, g);
    }
  }

  /** The sender's part speaks of the ring only. */
  lemma SenderUnmoved(st: State, st': State)
    requires st.r.Valid() && SenderInv(st) && st'.s == st.s && st'.r == st.r
    ensures SenderInv(st')
  {
    hide PackSize, PacketBytes, PlaceHolder, Filler, Room, FreeSize;
  }

  /** The sender's part survives a move of `head`. */
  lemma MoveKeepsSender(st: State, g: Layout, st': State)
    requires Laid(st.r, g, |st.taken|) && g.Pending() != [] && SenderInv(st) && st'.s == st.s
    requires var size := PackSize(|g.Pending()[0]|);
             Start(st.r, g) + size <= st.r.cap && st'.r == st.r.(head := Advance(st.r.cap, Start(st.r, g), size))
    ensures SenderInv(st')
  {
    hide Run, PackSize, Start, PacketBytes, PlaceHolder, Filler, Room, FreeSize;
    TakeKeepsRoom(st.r, g, |st.taken|);
  }

  lemma TakeStep(st: State, g: Layout, start: nat, size: nat, out: seq<Byte>) returns (g': Layout)
    requires Inv(st, g) && AtFirst(st.r, g, start, size) && out == g.Pending()[0]
    ensures Inv(Move(st, start, size, out), g')
  {
    hide Run, PackSize, Start, Taken, SenderInv;
    g' := Taken(st.r, g);
    TakeFirst(st.r, g, |st.taken|);
    assert st.taken + [out] + g.Pending()[1..] == st.taken + g.Pending();
    MoveKeepsSender(st, g, Move(st, start, size, out));
  }

  /** What a reader finds where the first pending packet starts. */
  lemma FirstFields(r: Ring, g: Layout, q: nat)
    requires Laid(r, g, q) && g.Pending() != []
    ensures var m := g.Pending()[0]; var p := Start(r, g); var b := p + HEAD_SIZE;
            && b + |m| <= r.cap && r.buf[b..b + |m|] == m && U16At(r.buf, p + 4) == |m|
            && HEAD_SIZE + U16At(r.buf, p + 6) == PackSize(|m|) && U16At(r.buf, p + 8) == CMD_TRANSFER
  {
    hide Run, PackSize, SeenTail, Start, PacketHead;
    TailSeen(r, g, q);
    FirstPacket(r, g, q, r.tail);
    PacketFields(r.buf, Start(r, g), g.Pending()[0], q);
  }

  /** The reads of tail and of the first command succeed, however old the tail they use. */
  lemma LookStep(st: State, g: Layout)
    requires Inv(st, g) && (st.c.RIdle? || st.c.RLook? || st.c.RProbe?)
    ensures Inv(RecvStep(st), g)
  {
    hide Run, PackSize, SenderInv, Probe, SeenTail, Start;
    SenderUnmoved(st, RecvStep(st));
    match st.c
    case RIdle =>
    case RLook(_) => TailSeen(st.r, g, |st.taken|);
    case RProbe(_, tail) => SeenInRange(st.r, g, tail); FirstPacket(st.r, g, |st.taken|, tail);
  }

  /** So do the checks on the packet's head. */
  lemma CheckStep(st: State, g: Layout)
    requires Inv(st, g) && (st.c.RSize? || st.c.RCmd?)
    ensures Inv(RecvStep(st), g)
  {
    hide Run, PackSize, SenderInv, Probe, Check, SeenTail, Start, U16At, AllocSize;
    SenderUnmoved(st, RecvStep(st));
    SeenInRange(st.r, g, st.c.tail);
    FirstFields(st.r, g, |st.taken|);
    if st.c.RCmd? { FirstPacket(st.r, g, |st.taken|, st.c.tail); }
  }

  /** Each read of body_len gives the length of the first message. */
  lemma LengthStep(st: State, g: Layout)
    requires Inv(st, g) && (st.c.RLen? || st.c.RAgain? || st.c.RTell?)
    ensures Inv(RecvStep(st), g)
  {
    hide Run, PackSize, SenderInv, Start, U16At;
    SenderUnmoved(st, RecvStep(st));
    FirstFields(st.r, g, |st.taken|);
  }

  lemma CopyOutStep(st: State, g: Layout)
    requires Inv(st, g) && st.c.RCopy?
    ensures Inv(RecvStep(st), g)
  {
    hide Run, PackSize, SenderInv, Start, U16At;
    SenderUnmoved(st, RecvStep(st));
    FirstFields(st.r, g, |st.taken|);
    var m, out := g.Pending()[0], st.c.out;
    if |out| < st.c.len {
      assert m[..|out| + 1] == m[..|out|] + [m[|out|]];
      assert m[|out|] == st.r.buf[st.c.start + HEAD_SIZE + |out|];
    }
  }

  /** Every step of Recv, Peek and Drop keeps the invariant. */
  lemma ReceiverKeeps(st: State, g: Layout) returns (g': Layout)
    requires Inv(st, g)
    ensures Inv(RecvStep(st), g')
  {
    hide Laid, PackSize, SenderInv, Start, Move, U16At;
    g' := g;
    match st.c
    case RMove(start, size, out) => g' := TakeStep(st, g, start, size, out);
    case RDrop(start, size) =>
      FirstFields(st.r, g, |st.taken|);
      g' := TakeStep(st, g, start, size, g.Pending()[0]);
    case RCopy(_, _, _, _) => CopyOutStep(st, g);
    case RSize(_, _, _) => CheckStep(st, g);
    case RCmd(_, _, _, _) => CheckStep(st, g);
    case RLen(_, _, _) => LengthStep(st, g);
    case RAgain(_, _) => LengthStep(st, g);
    case RTell(_, _, _) => LengthStep(st, g);
    case _ => LookStep(st, g);
  }

  lemma SeenInRange(r: Ring, g: Layout, tail: nat)
    requires SeenTail(r, g, tail)
    ensures g.Pending() != [] && tail < r.cap
  {
  }

  lemma {:induction false} InvInEveryRun(st: State, g: Layout, es: seq<Event>) returns (g': Layout)
    requires Inv(st, g)
    ensures Inv(Steps(st, es), g')
    decreases |es|
  {
    hide Run, SenderInv, ReceiverInv, SendStep, RecvStep;
    g' := g;
    if es != [] {
      var last := es[|es| - 1];
      var pre := Steps(st, es[..|es| - 1]);
      g' := InvInEveryRun(st, g, es[..|es| - 1]);
      match last
      case SenderStep => g' := SenderKeeps(pre, g');
      case ReceiverStep => g' := ReceiverKeeps(pre, g');
      case BeginSend(_) => BeginKeeps(pre, g', last);
      case BeginRead(_) => BeginKeeps(pre, g', last);
    }
  }

  lemma BeginKeeps(st: State, g: Layout, e: Event)
    requires Inv(st, g) && (e.BeginSend? || e.BeginRead?)
    ensures Inv(Step(st, e), g)
  {
    hide Run;
  }

  // ---------- What holds in every run of a reset queue ----------

  /**
    The ring is a FIFO queue in every interleaving: what was taken is a prefix of what was sent, byte
    for byte, and the rest is what the bytes from head to tail decode to, numbered consecutively.
   */
  lemma FifoInEveryRun(st: State, es: seq<Event>)
    requires Fresh(st)
    ensures var st' := Steps(st, es);
            && st'.taken <= st'.sent
            && Decode(st'.r) == Packets(Numbered(st'.sent[|st'.taken|..], |st'.taken|))
  {
    hide Run, SenderInv, ReceiverInv;
    FreshInv(st);
    var st' := Steps(st, es);
    var g := InvInEveryRun(st, Layout([], [], 0, false), es);
    DecodesPending(st'.r, g, |st'.taken|);
    assert st'.sent[|st'.taken|..] == g.Pending();
  }

  /** GetNextPack never reports a broken packet, across both ways of wrapping and every capacity. */
  lemma NeverBroken(st: State, es: seq<Event>)
    requires Fresh(st)
    ensures !Steps(st, es).recvRet.ChanPackInvalid? && !Steps(st, es).recvRet.Unexpect?
  {
    FreshInv(st);
    var g := InvInEveryRun(st, Layout([], [], 0, false), es);
  }

  /**
    No step of Send writes a byte of a pending packet, moves `head`, or makes a ring with pending
    packets look empty, although `head` is read twice and may move in between.
   */
  lemma SendSparesPending(st: State, es: seq<Event>)
    requires Fresh(st)
    ensures var pre := Steps(st, es); var post := Step(pre, SenderStep);
            && (forall i :: 0 <= i < pre.r.cap && post.r.buf[i] != pre.r.buf[i] ==> !Occupied(pre.r, i))
            && post.r.head == pre.r.head
            && (pre.r.head != pre.r.tail ==> post.r.head != post.r.tail)
            && (|post.sent| > |pre.sent| ==> post.r.head != post.r.tail)
  {
    hide Run, ReceiverInv, PacketBytes, PlaceHolder, PackSize, Filler;
    FreshInv(st);
    var pre := Steps(st, es);
    var g := InvInEveryRun(st, Layout([], [], 0, false), es);
    if pre.s.SCopy? && pre.s.done == HEAD_SIZE + |pre.s.m| {
      var g' := PublishStep(pre, g);
    }
  }

  ghost predicate SenderOnly(es: seq<Event>) {
    forall e <- es :: e.BeginSend? || e.SenderStep?
  }

  lemma {:induction false} FirstStays(st: State, g: Layout, es: seq<Event>) returns (g': Layout)
    requires Inv(st, g) && g.Pending() != [] && SenderOnly(es)
    ensures Inv(Steps(st, es), g') && SameFirst(st.r, g, Steps(st, es).r, g')
    ensures Steps(st, es).taken == st.taken
    decreases |es|
  {
    hide Run, SenderInv, ReceiverInv, SendStep, RecvStep, Start, Filler;
    g' := g;
    if es != [] {
      var last := es[|es| - 1];
      var pre := Steps(st, es[..|es| - 1]);
      g' := FirstStays(st, g, es[..|es| - 1]);
      if last.SenderStep? { g' := SenderKeeps(pre, g'); } else { BeginKeeps(pre, g', last); }
    }
  }

  /** GetNextPack finds the first pending packet, and its body there. */
  lemma FirstFound(r: Ring, g: Layout, q: nat)
    requires Laid(r, g, q) && g.Pending() != []
    ensures var m := g.Pending()[0]; var p := NextPack(r);
            && p == Pack(Start(r, g), PackSize(|m|), |m|)
            && p.start + HEAD_SIZE + p.len <= r.cap && DecodedAt(r, p.start, p.len).body == m
  {
    hide Run, SeenTail, Probe, Check, PackSize, PacketAt, U16At, U32At;
    TailSeen(r, g, q);
    FirstPacket(r, g, q, r.tail);
    FirstFields(r, g, q);
  }

  /**
    A peeked packet stays what it was, at the same place and with the same bytes, through any number
    of Sends, so the Drop that follows removes exactly the packet that was peeked.
   */
  lemma PeekedPacketStays(st: State, es: seq<Event>, sends: seq<Event>)
    requires Fresh(st) && SenderOnly(sends)
    requires Steps(st, es).r.head != Steps(st, es).r.tail
    ensures var pre := Steps(st, es); var post := Steps(pre, sends); var p := NextPack(pre.r);
            && |pre.taken| < |pre.sent|
            && p.Pack? && NextPack(post.r) == p
            && p.start + HEAD_SIZE + p.len <= pre.r.cap
            && DecodedAt(pre.r, p.start, p.len).body == DecodedAt(post.r, p.start, p.len).body == pre.sent[|pre.taken|]
  {
    FreshInv(st);
    hide Run, SenderInv, ReceiverInv, NextPack, PackSize, DecodedAt, Start, Fresh;
    var pre := Steps(st, es);
    var g := InvInEveryRun(st, Layout([], [], 0, false), es);
    TailSeen(pre.r, g, |pre.taken|);
    hide Laid;
    var post := Steps(pre, sends);
    var g' := FirstStays(pre, g, sends);
    FirstFound(pre.r, g, |pre.taken|);
    FirstFound(post.r, g', |post.taken|);
  }

  // ---------- When Send is accepted ----------

  /** A step that refuses a packet finds no room for it. */
  lemma RefusedWithoutRoom(st: State, g: Layout)
    requires Inv(st, g) && (st.s.SCheck? || st.s.SPlace?) && SendStep(st).s.SIdle?
    ensures SendStep(st).sendRet == ChanFull && !HasRoom(st.r, PackSize(|st.s.m|))
  {
    hide Run, ReceiverInv, PackSize, PacketBytes, PlaceHolder, HasRoom;
    PlaceIff(st.r, PackSize(|st.s.m|));
  }

  /** The sender has this message before it, with room for it, or has begun to write it. */
  ghost predicate OnItsWay(st: State, m: Message) {
    match st.s
    case SCheck(m') => m' == m && HasRoom(st.r, PackSize(|m|))
    case SPlace(m') => m' == m && HasRoom(st.r, PackSize(|m|))
    case SHold(m', _) => m' == m
    case SCopy(m', _, _) => m' == m
    case _ => false
  }

  lemma SendOnItsWay(st: State, g: Layout, m: Message)
    requires Inv(st, g) && OnItsWay(st, m)
    ensures (OnItsWay(SendStep(st), m) && SendStep(st).sent == st.sent) || SendStep(st).sent == st.sent + [m]
  {
    hide Run, ReceiverInv, PackSize, PacketBytes, PlaceHolder, HasRoom;
    PlaceIff(st.r, PackSize(|m|));
  }

  lemma RecvOnItsWay(st: State, g: Layout, m: Message)
    requires Inv(st, g) && OnItsWay(st, m)
    ensures OnItsWay(RecvStep(st), m) && RecvStep(st).sent == st.sent
  {
    hide Run, SenderInv, PackSize, Room, Start, Probe, U16At, AllocSize, FreeSize, Advance;
    RecvMovesHead(st);
    if st.c.RMove? || st.c.RDrop? { TakeKeepsRoom(st.r, g, |st.taken|); }
  }

  /**
    A Send that begins with room is never refused, in any interleaving, although it reads `head` twice: its
    message is on its way until it is published.
   */
  lemma {:induction false} AcceptedWithRoom(st: State, g: Layout, m: Message, es: seq<Event>) returns (g': Layout)
    requires Inv(st, g) && OnItsWay(st, m)
    ensures Inv(Steps(st, es), g')
    ensures var st' := Steps(st, es); (OnItsWay(st', m) && st'.sent == st.sent) || st.sent + [m] <= st'.sent
    decreases |es|
  {
    hide SendStep, RecvStep, OnItsWay, Run, SenderInv, ReceiverInv;
    g' := InvInEveryRun(st, g, es);
    if es != [] {
      var pre, last := Steps(st, es[..|es| - 1]), es[|es| - 1];
      var gp := AcceptedWithRoom(st, g, m, es[..|es| - 1]);
      SentGrows(pre, last);
      if OnItsWay(pre, m) && pre.sent == st.sent {
        match last
        case SenderStep => SendOnItsWay(pre, gp, m);
        case ReceiverStep => RecvOnItsWay(pre, gp, m);
        case _ => BeginOnItsWay(pre, last, m);
      } else {
        assert pre.sent == Steps(st, es).sent[..|pre.sent|];
      }
    }
  }

  lemma BeginOnItsWay(st: State, e: Event, m: Message)
    requires st.r.Valid() && OnItsWay(st, m) && (e.BeginSend? || e.BeginRead?)
    ensures OnItsWay(Step(st, e), m) && Step(st, e).sent == st.sent
  {
  }

  lemma SentGrows(st: State, e: Event)
    requires st.r.Valid()
    ensures st.sent <= Step(st, e).sent
  {
    hide PackSize, PacketBytes, PlaceHolder, Probe, U16At;
  }

  ghost predicate SendsOnly(es: seq<Event>, size: nat) {
    forall e <- es :: e.BeginSend? ==> PackSize(|e.m|) == size
  }

  /** An empty ring that refuses a packet size refuses it for ever, whatever both sides try. */
  lemma {:induction false} RefusedForever(st: State, es: seq<Event>, size: nat)
    requires st.r.Valid() && st.r.head == st.r.tail && st.s.SIdle? && st.c.RIdle?
    requires FreeSize(st.r.cap, st.r.head, st.r.tail) < size || Place(st.r.cap, st.r.head, st.r.tail, size).Full?
    requires SendsOnly(es, size)
    ensures var st' := Steps(st, es);
            && st'.r == st.r && st'.sent == st.sent && st'.taken == st.taken
            && (st'.c.RIdle? || st'.c.RLook?)
            && (st'.s.SIdle? || ((st'.s.SCheck? || st'.s.SPlace?) && PackSize(|st'.s.m|) == size))
            && (st'.s.SPlace? ==> size <= FreeSize(st.r.cap, st.r.head, st.r.tail))
    decreases |es|
  {
    hide PackSize, PacketBytes, PlaceHolder;
    if es != [] {
      assert es[|es| - 1] in es;
      RefusedForever(st, es[..|es| - 1], size);
    }
  }

  /** The most that happens while both sides try a size of which two do not fit: one packet passes. */
  ghost predicate OneAtMost(st: State, size: nat) {
    && (if st.sent == [] then st.r.head == st.r.tail == 0
        else |st.sent| == 1 && st.r.tail == size < st.r.cap && st.r.head == if st.taken == [] then 0 else size)
    && match st.s
       case SIdle => true
       case SCheck(m) => PackSize(|m|) == size
       case SPlace(m) => PackSize(|m|) == size < st.r.cap
       case SHold(_, _) => false
       case SCopy(m, pos, _) => PackSize(|m|) == size < st.r.cap && st.sent == [] && pos == 0
       case SCount => true
  }

  lemma SendOneAtMost(st: State, size: nat)
    requires st.r.Valid() && OneAtMost(st, size) && st.r.cap < 2 * size && (st.sent == [] ==> st.taken == [])
    ensures OneAtMost(SendStep(st), size)
  {
    hide PackSize, PacketBytes, PlaceHolder;
  }

  /** Either the ring stays as it is, or `head` moves and one packet more is taken. */
  lemma RecvMovesHead(st: State)
    requires st.r.Valid()
    ensures var st' := RecvStep(st);
            && st'.s == st.s && st'.sent == st.sent && st'.r == st.r.(head := st'.r.head)
            && ((st'.taken == st.taken && st'.r.head == st.r.head) || |st'.taken| == |st.taken| + 1)
  {
    hide Probe, U16At, AllocSize;
  }

  lemma RecvOneAtMost(st: State, g: Layout, g': Layout, size: nat)
    requires Inv(st, g) && Inv(RecvStep(st), g') && OneAtMost(st, size)
    ensures OneAtMost(RecvStep(st), size)
  {
    hide RecvStep, PackSize, Run, SenderInv, ReceiverInv;
    RecvMovesHead(st);
    TailSeen(RecvStep(st).r, g', |RecvStep(st).taken|);
  }

  /** From a reset queue of less than twice its size, a packet is sent once at most, in every interleaving. */
  lemma {:induction false} SentAtMostOnce(st: State, es: seq<Event>, size: nat)
    requires Fresh(st) && SendsOnly(es, size) && st.r.cap < 2 * size
    ensures OneAtMost(Steps(st, es), size) && |Steps(st, es).sent| <= 1
    decreases |es|
  {
    hide SendStep, RecvStep, PackSize, Run, SenderInv, ReceiverInv;
    if es != [] {
      var pre, last := Steps(st, es[..|es| - 1]), es[|es| - 1];
      assert last in es;
      SentAtMostOnce(st, es[..|es| - 1], size);
      FreshInv(st);
      var g := InvInEveryRun(st, Layout([], [], 0, false), es[..|es| - 1]);
      var g' := InvInEveryRun(st, Layout([], [], 0, false), es);
      hide Laid;
      if last.SenderStep? { SendOneAtMost(pre, size); }
      else if last.ReceiverStep? { RecvOneAtMost(pre, g, g', size); }
    }
  }
}
