/**
  The two views of a ring together. An operation whose thread runs alone, step by step, does what the
  functions of RingQueue say; so runs of the step system can be built from whole operations.
 */
module RingRuns {
  import opened Bytes
  import opened Packet
  import opened RingLayout
  import opened RingProtocol
  import opened RingQueue
  import opened Wrappers

  function Times(e: Event, n: nat): (es: seq<Event>)
    ensures |es| == n && forall x <- es :: x == e
  {
    seq(n, _ => e)
  }

  lemma {:induction false} StepsThen(st: State, es: seq<Event>, fs: seq<Event>)
    requires st.r.Valid()
    ensures Steps(st, es + fs) == Steps(Steps(st, es), fs)
    decreases |fs|
  {
    hide Step;
    if fs == [] {
      assert es + fs == es;
    } else {
      StepsThen(st, es, fs[..|fs| - 1]);
      assert (es + fs)[..|es + fs| - 1] == es + fs[..|fs| - 1];
    }
  }

  /** Some number of these steps, with nothing in between, leads from one state to the other. */
  ghost predicate Alone(e: Event, st: State, st': State) {
    st.r.Valid() && exists n: nat :: Steps(st, Times(e, n)) == st'
  }

  lemma AloneStep(e: Event, st: State)
    requires st.r.Valid()
    ensures Alone(e, st, Step(st, e))
  {
    hide Step;
    assert Times(e, 1)[..0] == Times(e, 0);
    assert Steps(st, Times(e, 1)) == Step(st, e);
  }

  lemma AloneStays(e: Event, st: State)
    requires st.r.Valid()
    ensures Alone(e, st, st)
  {
    assert Steps(st, Times(e, 0)) == st;
  }

  lemma AloneThen(e: Event, a: State, b: State, c: State)
    requires Alone(e, a, b) && Alone(e, b, c)
    ensures Alone(e, a, c)
  {
    hide Steps;
    var n: nat :| Steps(a, Times(e, n)) == b;
    var k: nat :| Steps(b, Times(e, k)) == c;
    StepsThen(a, Times(e, n), Times(e, k));
    assert Times(e, n) + Times(e, k) == Times(e, n + k);
  }

  /** One step, then the rest. */
  lemma AloneFrom(e: Event, a: State, b: State, c: State)
    requires a.r.Valid() && b == Step(a, e) && Alone(e, b, c)
    ensures Alone(e, a, c)
  {
    hide Alone, Step;
    AloneStep(e, a);
    AloneThen(e, a, b, c);
  }

  // ---------- Send ----------

  lemma WriteFirst(buf: seq<Byte>, at: nat, src: seq<Byte>)
    requires src != [] && at + |src| <= |buf|
    ensures Write(buf[at := src[0]], at + 1, src[1..]) == Write(buf, at, src)
  {
  }

  lemma WriteNothing(buf: seq<Byte>, at: nat)
    requires at <= |buf|
    ensures Write(buf, at, []) == buf
  {
  }

  function CopiedFrom(st: State, m: Message, pos: nat, k: nat): State
    requires k <= HEAD_SIZE + |m| && pos + HEAD_SIZE + |m| <= |st.r.buf|
  {
    var bytes := PacketBytes(m, st.r.seqno);
    st.(r := st.r.(buf := Write(st.r.buf, pos + k, bytes[k..])), s := SCopy(m, pos, |bytes|))
  }

  lemma {:induction false} CopyAlone(st: State, m: Message, pos: nat, k: nat)
    requires st.r.Valid() && st.s == SCopy(m, pos, k) && k <= HEAD_SIZE + |m| && pos + HEAD_SIZE + |m| <= st.r.cap
    ensures Alone(SenderStep, st, CopiedFrom(st, m, pos, k))
    decreases HEAD_SIZE + |m| - k
  {
    hide Alone, PacketBytes, Write, PackSize, PlaceHolder;
    var bytes := PacketBytes(m, st.r.seqno);
    if k == |bytes| {
      assert bytes[k..] == [];
      WriteNothing(st.r.buf, pos + k);
      AloneStays(SenderStep, st);
    } else {
      var st1 := SendStep(st);
      CopyAlone(st1, m, pos, k + 1);
      assert bytes[k..][0] == bytes[k] && bytes[k..][1..] == bytes[k + 1..];
      WriteFirst(st.r.buf, pos + k, bytes[k..]);
      AloneFrom(SenderStep, st, st1, CopiedFrom(st, m, pos, k));
    }
  }

  lemma {:induction false} HoldAlone(st: State, m: Message, k: nat)
    requires st.r.Valid() && st.s == SHold(m, k) && k <= HEAD_SIZE && st.r.tail + HEAD_SIZE <= st.r.cap
    ensures var buf := Write(st.r.buf, st.r.tail + k, PlaceHolder()[k..]);
            Alone(SenderStep, st, st.(r := st.r.(buf := buf), s := SCopy(m, 0, 0)))
    decreases HEAD_SIZE - k
  {
    hide Alone, PacketBytes, Write, PackSize, PlaceHolder;
    var bytes := PlaceHolder();
    var st1 := SendStep(st);
    if k == HEAD_SIZE {
      assert bytes[k..] == [];
      WriteNothing(st.r.buf, st.r.tail + k);
      AloneStep(SenderStep, st);
    } else {
      HoldAlone(st1, m, k + 1);
      assert bytes[k..][0] == bytes[k] && bytes[k..][1..] == bytes[k + 1..];
      WriteFirst(st.r.buf, st.r.tail + k, bytes[k..]);
      var buf := Write(st.r.buf, st.r.tail + k, bytes[k..]);
      AloneFrom(SenderStep, st, st1, st.(r := st.r.(buf := buf), s := SCopy(m, 0, 0)));
    }
  }

  /** The state once Send has run to its end. */
  function AfterSend(st: State, m: Message): State
    requires st.r.Valid()
  {
    var res := SendTo(st.r, m);
    st.(r := res.r, s := SIdle, sendRet := res.ret, sent := if res.ret == Ok then st.sent + [m] else st.sent)
  }

  /** From the copy on: the packet, the tail, the sequence number. */
  lemma PublishAlone(st: State, m: Message, pos: nat)
    requires st.r.Valid() && st.s == SCopy(m, pos, 0) && pos < st.r.cap && pos + PackSize(|m|) <= st.r.cap
    ensures var buf := Write(st.r.buf, pos, PacketBytes(m, st.r.seqno));
            var r := st.r.(tail := Advance(st.r.cap, pos, PackSize(|m|)), seqno := U32(st.r.seqno + 1), buf := buf);
            Alone(SenderStep, st, st.(r := r, s := SIdle, sendRet := Ok, sent := st.sent + [m]))
  {
    hide Alone, PacketBytes, Write, PackSize, PlaceHolder;
    var bytes := PacketBytes(m, st.r.seqno);
    assert bytes[0..] == bytes;
    CopyAlone(st, m, pos, 0);
    var st1 := CopiedFrom(st, m, pos, 0);
    var st2 := SendStep(st1);
    AloneStep(SenderStep, st2);
    AloneFrom(SenderStep, st1, st2, SendStep(st2));
    AloneThen(SenderStep, st, st1, SendStep(st2));
  }

  /** The place holder, if there is one to write. */
  lemma MarkAlone(st: State, m: Message)
    requires st.r.Valid() && st.s == SPlace(m) && Accepts(st.r, |m|)
    ensures var pos := Place(st.r.cap, st.r.head, st.r.tail, PackSize(|m|)).pos;
            Alone(SenderStep, st, st.(r := st.r.(buf := Marked(st.r, pos)), s := SCopy(m, pos, 0)))
  {
    hide Alone, PacketBytes, Write, PackSize, PlaceHolder;
    var st1 := SendStep(st);
    if st1.s.SHold? {
      HoldAlone(st1, m, 0);
      assert PlaceHolder()[0..] == PlaceHolder();
      AloneFrom(SenderStep, st, st1, st.(r := st.r.(buf := Marked(st.r, 0)), s := SCopy(m, 0, 0)));
    } else {
      AloneStep(SenderStep, st);
    }
  }

  /** Send, run alone, is SendTo, and is accepted exactly when there is room. */
  lemma SendAlone(st: State, m: Message)
    requires st.r.Valid() && st.s.SIdle?
    ensures Alone(SenderStep, Step(st, BeginSend(m)), AfterSend(st, m))
    ensures AfterSend(st, m).sendRet == if HasRoom(st.r, PackSize(|m|)) then Ok else ChanFull
  {
    hide Alone, PacketBytes, Write, PackSize, PlaceHolder, SendTo, Marked;
    SendCases(st.r, m);
    var st0, size := Step(st, BeginSend(m)), PackSize(|m|);
    var st1 := SendStep(st0);
    AloneStep(SenderStep, st0);
    if size <= FreeSize(st.r.cap, st.r.head, st.r.tail) {
      if !Accepts(st.r, |m|) {
        AloneStep(SenderStep, st1);
        AloneFrom(SenderStep, st0, st1, SendStep(st1));
      } else {
        var pos := Place(st.r.cap, st.r.head, st.r.tail, size).pos;
        MarkAlone(st1, m);
        var st2 := st1.(r := st.r.(buf := Marked(st.r, pos)), s := SCopy(m, pos, 0));
        PublishAlone(st2, m, pos);
        AloneThen(SenderStep, st1, st2, AfterSend(st, m));
        AloneFrom(SenderStep, st0, st1, AfterSend(st, m));
      }
    }
  }

  // ---------- Recv, Peek and Drop ----------

  /** Where GetNextPack leaves the receiver. */
  function Checked(st: State, op: Op, p: Next): State {
    if !p.Pack? then st.(c := RIdle, recvRet := Failed(p))
    else if op.Drop? then st.(c := RDrop(p.start, p.size))
    else st.(c := RLen(op, p.start, p.size))
  }

  /** The checks on a packet's head, run alone. */
  lemma HeadAlone(st: State, op: Op, tail: nat, start: nat)
    requires st.r.Valid() && st.c == RSize(op, tail, start) && tail < st.r.cap && start + HEAD_SIZE <= st.r.cap
    ensures Alone(ReceiverStep, st, Checked(st, op, Check(st.r, tail, start)))
  {
    hide Alone, U16At, AllocSize, Probe;
    var st1 := RecvStep(st);
    AloneStep(ReceiverStep, st1);
    AloneFrom(ReceiverStep, st, st1, RecvStep(st1));
  }

  /** GetNextPack, run alone. */
  lemma CheckAlone(st: State, op: Op)
    requires st.r.Valid()
    ensures Alone(ReceiverStep, st.(c := RLook(op)), Checked(st, op, NextPack(st.r)))
  {
    hide Alone, Check, U16At, AllocSize;
    var st0 := st.(c := RLook(op));
    var st1 := RecvStep(st0);
    AloneStep(ReceiverStep, st0);
    if st.r.head != st.r.tail {
      var st2 := RecvStep(st1);
      AloneStep(ReceiverStep, st1);
      AloneThen(ReceiverStep, st0, st1, st2);
      var p := Probe(st.r, st.r.tail);
      if p.Pack? {
        HeadAlone(st2, op, st.r.tail, p.start);
        AloneThen(ReceiverStep, st0, st2, Checked(st, op, NextPack(st.r)));
      }
    }
  }

  lemma {:induction false} CopyOutAlone(st: State, start: nat, size: nat, len: nat, out: seq<Byte>)
    requires st.r.Valid() && st.c == RCopy(start, size, len, out) && |out| <= len && start + HEAD_SIZE + len <= st.r.cap
    ensures var b := start + HEAD_SIZE;
            Alone(ReceiverStep, st, st.(c := RTell(start, size, out + st.r.buf[b + |out|..b + len])))
    decreases len - |out|
  {
    hide Alone;
    var b := start + HEAD_SIZE;
    var st1 := RecvStep(st);
    if |out| == len {
      assert out + st.r.buf[b + |out|..b + len] == out;
      AloneStep(ReceiverStep, st);
    } else {
      var out' := out + [st.r.buf[b + |out|]];
      CopyOutAlone(st1, start, size, len, out');
      assert out' + st.r.buf[b + |out| + 1..b + len] == out + st.r.buf[b + |out|..b + len];
      AloneFrom(ReceiverStep, st, st1, st.(c := RTell(start, size, out + st.r.buf[b + |out|..b + len])));
    }
  }

  /** The state once a receiver's operation has run to its end. */
  function AfterRead(st: State, op: Op): State
    requires st.r.Valid()
  {
    match op
    case Recv(space) =>
      var res := RecvFrom(st.r, space);
      st.(r := res.r, recvRet := res.ret, taken := if res.ret == Ok then st.taken + [res.data] else st.taken)
    case Peek =>
      var p := NextPack(st.r);
      st.(recvRet := Failed(p), peeked := if p.Pack? then (p.start + HEAD_SIZE, p.len) else st.peeked)
    case Drop =>
      var res := DropFrom(st.r);
      st.(r := res.r, recvRet := res.ret,
          taken := if res.ret == Ok then st.taken + [Skipped(st.r, NextPack(st.r).start)] else st.taken)
  }

  /** Recv behind GetNextPack: the three reads of the length, the copy, the move of `head`. */
  lemma TakeAlone(st: State, space: nat, p: Next)
    requires st.r.Valid() && p == NextPack(st.r) && p.Pack? && p.start + HEAD_SIZE + p.len <= st.r.cap
    requires st.c == RLen(Recv(space), p.start, p.size) && p.len <= space
    ensures var b := p.start + HEAD_SIZE;
            Alone(ReceiverStep, st, Move(st, p.start, p.size, st.r.buf[b..b + p.len]))
  {
    hide Alone, Probe, AllocSize, U16At, Move;
    assert U16At(st.r.buf, p.start + 4) == p.len;
    hide NextPack;
    var body := st.r.buf[p.start + HEAD_SIZE..p.start + HEAD_SIZE + p.len];
    var st1 := RecvStep(st);
    var st2 := RecvStep(st1);
    AloneStep(ReceiverStep, st1);
    AloneFrom(ReceiverStep, st, st1, st2);
    CopyOutAlone(st2, p.start, p.size, p.len, []);
    assert [] + body == body && body[..p.len] == body;
    var st3 := st2.(c := RTell(p.start, p.size, body));
    AloneThen(ReceiverStep, st, st2, st3);
    var st4 := RecvStep(st3);
    AloneStep(ReceiverStep, st4);
    AloneFrom(ReceiverStep, st3, st4, RecvStep(st4));
    AloneThen(ReceiverStep, st, st3, RecvStep(st4));
    MoveFrom(st4, st, p.start, p.size, body);
  }

  /** Where the receiver stands does not matter to its last write. */
  lemma MoveFrom(st: State, st': State, start: nat, size: nat, out: seq<Byte>)
    requires st.r.Valid() && st == st'.(c := st.c) && start < st.r.cap && size <= st.r.cap
    ensures Move(st, start, size, out) == Move(st', start, size, out)
  {
  }

  /** Recv, Peek and Drop, run alone, are RecvFrom, the answer of Peek and DropFrom. */
  lemma ReadAlone(st: State, op: Op)
    requires st.r.Valid() && st.c.RIdle?
    requires var p := NextPack(st.r); p.Pack? ==> p.start + HEAD_SIZE + p.len <= st.r.cap
    ensures Alone(ReceiverStep, Step(st, BeginRead(op)), AfterRead(st, op))
  {
    hide Alone, Probe, U16At, Skipped;
    CheckAlone(st, op);
    var p, st0 := NextPack(st.r), Step(st, BeginRead(op));
    if p.Pack? {
      var st1 := st.(c := if op.Drop? then RDrop(p.start, p.size) else RLen(op, p.start, p.size));
      if op.Recv? && p.len <= op.space {
        TakeAlone(st1, op.space, p);
      } else {
        AloneStep(ReceiverStep, st1);
      }
      AloneThen(ReceiverStep, st0, st1, AfterRead(st, op));
    }
  }

  // ---------- How much passes ----------

  /** An operation as events: its call, then steps of its thread. */
  lemma Whole(st: State, begin: Event, e: Event, st': State) returns (es: seq<Event>)
    requires st.r.Valid() && Alone(e, Step(st, begin), st') && !e.BeginSend?
    ensures Steps(st, es) == st' && forall x <- es :: x == begin || x == e
  {
    hide Step;
    var n: nat :| Steps(Step(st, begin), Times(e, n)) == st';
    es := [begin] + Times(e, n);
    assert [begin][..0] == [] && Steps(st, [begin]) == Step(st, begin);
    StepsThen(st, [begin], Times(e, n));
  }

  /** One message sent and received, as events. */
  lemma RoundAsSteps(st: State, m: Message) returns (es: seq<Event>)
    requires st.r.Valid() && st.s.SIdle? && st.c.RIdle? && SendRecv(st.r, m).Some?
    ensures SendsOnly(es, PackSize(|m|))
    ensures var st' := Steps(st, es);
            st'.s.SIdle? && st'.c.RIdle? && st'.r == SendRecv(st.r, m).value && st'.sent == st.sent + [m]
  {
    hide Alone, SendTo, NextPack, PackSize, Step, Steps;
    SendAlone(st, m);
    var es1 := Whole(st, BeginSend(m), SenderStep, AfterSend(st, m));
    var mid := AfterSend(st, m);
    ReadAlone(mid, Recv(|m|));
    var es2 := Whole(mid, BeginRead(Recv(|m|)), ReceiverStep, AfterRead(mid, Recv(|m|)));
    StepsThen(st, es1, es2);
    es := es1 + es2;
  }

  lemma {:induction false} RoundsAsSteps(st: State, m: Message, n: nat) returns (es: seq<Event>)
    requires Fresh(st) && RoundsOn(st.r, m, n).Some?
    ensures SendsOnly(es, PackSize(|m|)) && |Steps(st, es).sent| == n
    ensures var st' := Steps(st, es); st'.s.SIdle? && st'.c.RIdle? && st'.r == RoundsOn(st.r, m, n).value
  {
    hide PackSize, SendRecv, Step, SendsOnly;
    if n == 0 {
      es := [];
      NoSends(PackSize(|m|));
    } else {
      var es1 := RoundsAsSteps(st, m, n - 1);
      var es2 := RoundAsSteps(Steps(st, es1), m);
      StepsThen(st, es1, es2);
      es := es1 + es2;
      BothSend(es1, es2, PackSize(|m|));
    }
  }

  lemma NoSends(size: nat)
    ensures SendsOnly([], size)
  {
  }

  lemma BothSend(es: seq<Event>, fs: seq<Event>, size: nat)
    requires SendsOnly(es, size) && SendsOnly(fs, size)
    ensures SendsOnly(es + fs, size)
  {
  }

  /** Some interleaving gets at least this many packets of this size accepted. */
  ghost predicate CanSend(st: State, size: nat, n: nat)
    requires st.r.Valid()
  {
    exists es :: SendsOnly(es, size) && |Steps(st, es).sent| >= n
  }

  /**
    From a reset queue any number of packets of one size can be sent, in some interleaving, exactly when two
    of them fit the buffer; otherwise no interleaving sends more than one.
   */
  lemma AnyNumberIff(st: State, m: Message)
    requires Fresh(st)
    ensures (forall n: nat :: CanSend(st, PackSize(|m|), n)) <==> 2 * PackSize(|m|) <= st.r.cap
    ensures st.r.cap < 2 * PackSize(|m|) ==> !CanSend(st, PackSize(|m|), 2)
  {
    hide PackSize, SendsOnly, Steps, RoundsOn;
    var size := PackSize(|m|);
    PassesForeverIff(st.r, m);
    if 2 * size <= st.r.cap {
      forall n: nat ensures CanSend(st, size, n) {
        var es := RoundsAsSteps(st, m, n);
      }
    } else {
      forall es | SendsOnly(es, size) ensures |Steps(st, es).sent| <= 1 { SentAtMostOnce(st, es, size); }
      assert !CanSend(st, size, 2);
    }
  }

  /** One packet of more than half the buffer, sent and received, leaves an empty ring that refuses it for ever. */
  lemma StuckAfterOne(st: State, m: Message) returns (es: seq<Event>)
    requires Fresh(st) && PackSize(|m|) < st.r.cap < 2 * PackSize(|m|)
    ensures SendsOnly(es, PackSize(|m|)) && |Steps(st, es).sent| == 1 && Steps(st, es).r.head == Steps(st, es).r.tail
    ensures forall fs :: SendsOnly(fs, PackSize(|m|)) ==>
              var st' := Steps(Steps(st, es), fs); st'.r == Steps(st, es).r && |st'.sent| == 1
  {
    hide PackSize, SendsOnly, Steps, RoundsOn, Holds;
    var size := PackSize(|m|);
    ResetHolds(st.r);
    RoundsOnRing(st.r, m, 1);
    assert Rounds(st.r.cap, size, 0) == 0;
    es := RoundsAsSteps(st, m, 1);
    var mid := Steps(st, es);
    EmptyEnds(mid.r);
    forall fs | SendsOnly(fs, size) ensures Steps(mid, fs).r == mid.r && |Steps(mid, fs).sent| == 1 {
      RefusedForever(mid, fs, size);
    }
  }
}
