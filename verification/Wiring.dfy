/**
  The table of channels on one machine and how processes connect from it: GlobalConfig::Create,
  GetChansByProcId and CChannel::Init with its mirrored configuration. Shared segments are named by
  ids that the system hands out once; whether it grants one is a parameter.
 */
module Wiring {
  import opened Bytes
  import opened Packet

  const MAX_CHANNELS := 2000
  const MIN_SIZE := 628  // sizeof(UnlockQueueHead) + sizeof(ChannelPackHead)

  type ProcId = nat
  type ShmId = nat

  datatype ChanConfig = ChanConfig(
    peer0: ProcId, peer1: ProcId, sendId: ShmId, recvId: ShmId, sendSize: nat, recvSize: nat)

  /** The same two peers, in either order. */
  predicate SamePair(a: ChanConfig, b: ChanConfig) {
    (a.peer0 == b.peer0 && a.peer1 == b.peer1) || (a.peer0 == b.peer1 && a.peer1 == b.peer0)
  }

  /** Unordered peer pairs are unique, and so are segment ids. */
  ghost predicate TableOk(table: seq<ChanConfig>, nextId: ShmId) {
    && |table| <= MAX_CHANNELS
    && (forall i, j :: 0 <= i < j < |table| ==> !SamePair(table[i], table[j]))
    && (forall i :: 0 <= i < |table| ==> table[i].sendId < nextId && table[i].recvId < nextId)
    && (forall i, j :: 0 <= i < |table| && 0 <= j < |table| ==> table[i].sendId != table[j].recvId)
    && (forall i, j :: 0 <= i < j < |table| ==>
          table[i].sendId != table[j].sendId && table[i].recvId != table[j].recvId)
  }

  class GlobalConfig {
    var table: seq<ChanConfig>
    var nextId: ShmId

    constructor ()
      ensures table == [] && TableOk(table, nextId)
    {
      table, nextId := [], 0;
    }

    /** AddChannel; `sendOk` and `recvOk` say whether the system grants the two segments. */
    method AddChannel(c: ChanConfig, sendOk: bool, recvOk: bool) returns (ok: bool)
      requires TableOk(table, nextId) && forall i :: 0 <= i < |table| ==> !SamePair(c, table[i])
      modifies this
      ensures TableOk(table, nextId) && nextId >= old(nextId)
      ensures ok <==> |old(table)| < MAX_CHANNELS && sendOk && recvOk
      ensures !ok ==> table == old(table)
      ensures ok ==> table == old(table) + [c.(sendId := old(nextId), recvId := old(nextId) + 1)]
    {
      if |table| >= MAX_CHANNELS { return false; }
      if !sendOk { return false; }
      var sendId := nextId;
      nextId := nextId + 1;
      if !recvOk { return false; }
      var recvId := nextId;
      nextId := nextId + 1;
      table := table + [c.(sendId := sendId, recvId := recvId)];
      ok := true;
    }

    /** Create, on a new table or on one that is there already: every pair is added once. */
    method Create(channels: seq<ChanConfig>, grants: seq<(bool, bool)>)
      requires TableOk(table, nextId) && |grants| == |channels|
      modifies this
      ensures TableOk(table, nextId) && old(table) <= table
      ensures forall i :: |old(table)| <= i < |table| ==> FromList(table[i], channels)
      ensures |table| < MAX_CHANNELS ==>
                forall k :: 0 <= k < |channels| && grants[k] == (true, true) ==> HasPair(table, channels[k])
    {
      for idx := 0 to |channels|
        invariant TableOk(table, nextId) && old(table) <= table
        invariant forall i :: |old(table)| <= i < |table| ==> FromList(table[i], channels)
        invariant |table| < MAX_CHANNELS ==>
                    forall k :: 0 <= k < idx && grants[k] == (true, true) ==> HasPair(table, channels[k])
      {
        var c := channels[idx];
        var exist := false;
        for i := 0 to |table|
          invariant !exist && forall k :: 0 <= k < i ==> !SamePair(c, table[k])
        {
          if SamePair(c, table[i]) {
            exist := true;
            break;
          }
        }
        if !exist {
          ghost var before := table;
          var ok := AddChannel(c, grants[idx].0, grants[idx].1);
          assert c in channels;
          if ok {
            assert SamePair(c, table[|before|]);
            assert forall k :: 0 <= k < |before| ==> table[k] == before[k];
          }
        }
      }
    }

    method GetChansByProcId(proc: ProcId) returns (r: seq<ChanConfig>)
      ensures r == Rows(table, proc)
    {
      r := [];
      for i := 0 to |table|
        invariant r == Rows(table[..i], proc)
      {
        assert table[..i + 1][..i] == table[..i];
        if table[i].peer0 == proc || table[i].peer1 == proc { r := r + [table[i]]; }
      }
      assert table[..|table|] == table;
    }
  }

  predicate HasPair(table: seq<ChanConfig>, c: ChanConfig) {
    exists i :: 0 <= i < |table| && SamePair(c, table[i])
  }

  predicate FromList(row: ChanConfig, channels: seq<ChanConfig>) {
    exists c :: c in channels && row == c.(sendId := row.sendId, recvId := row.recvId)
  }

  /** The rows that name this process, in the order of the table. */
  function Rows(table: seq<ChanConfig>, proc: ProcId): seq<ChanConfig> {
    if table == [] then []
    else
      var row := table[|table| - 1];
      Rows(table[..|table| - 1], proc) + if row.peer0 == proc || row.peer1 == proc then [row] else []
  }

  // ---------- CChannel::Init ----------

  /** One process's end of a channel: what it receives from, what it sends to, and the peer it reports. */
  datatype End = End(recvId: ShmId, recvSize: nat, sendId: ShmId, sendSize: nat, reported: nat)

  datatype Connection = Connected(ends: map<ProcId, End>) | Unexpect | DuplicateChan | NoSegment | Arg

  predicate Names(row: ChanConfig, proc: ProcId) {
    row.peer0 == proc || row.peer1 == proc
  }

  function PeerOf(row: ChanConfig, proc: ProcId): ProcId {
    if proc == row.peer1 then row.peer0 else row.peer1
  }

  /** The configuration as it is for peer 0, mirrored for peer 1. The stored peer id has 32 bits. */
  function EndOf(row: ChanConfig, proc: ProcId): End {
    if proc == row.peer1 then End(row.sendId, row.sendSize, row.recvId, row.recvSize, row.peer0 % WORD32)
    else End(row.recvId, row.recvSize, row.sendId, row.sendSize, row.peer1 % WORD32)
  }

  predicate Roomy(row: ChanConfig) {
    MIN_SIZE < row.recvSize && MIN_SIZE < row.sendSize
  }

  /** The system attaches both segments. */
  predicate Attaches(row: ChanConfig, gone: set<ShmId>) {
    row.sendId !in gone && row.recvId !in gone
  }

  /** What Init makes of its rows when the system refuses to attach the segments in `gone`. */
  function Connect(rows: seq<ChanConfig>, proc: ProcId, gone: set<ShmId>): Connection {
    if rows == [] then Connected(map[])
    else
      var before := Connect(rows[..|rows| - 1], proc, gone);
      var row := rows[|rows| - 1];
      if !before.Connected? then before
      else if !Names(row, proc) then Unexpect
      else if PeerOf(row, proc) in before.ends then DuplicateChan
      else if !Attaches(row, gone) then NoSegment
      else if !Roomy(row) then Arg
      else Connected(before.ends[PeerOf(row, proc) := EndOf(row, proc)])
  }

  method Init(config: GlobalConfig, proc: ProcId, gone: set<ShmId>) returns (r: Connection)
    ensures r == Connect(Rows(config.table, proc), proc, gone)
  {
    var rows := config.GetChansByProcId(proc);
    var ends: map<ProcId, End> := map[];
    for i := 0 to |rows|
      invariant Connect(rows[..i], proc, gone) == Connected(ends)
    {
      var row := rows[i];
      assert rows[..i + 1][..i] == rows[..i];
      FailsForGood(rows, proc, gone, i + 1);
      var peer, end := row.peer1, End(row.recvId, row.recvSize, row.sendId, row.sendSize, row.peer1 % WORD32);
      if proc == row.peer1 {
        peer, end := row.peer0, End(row.sendId, row.sendSize, row.recvId, row.recvSize, row.peer0 % WORD32);
      } else if proc != row.peer0 {
        return Unexpect;
      }
      if peer in ends { return DuplicateChan; }
      if end.sendId in gone { return NoSegment; }
      if end.recvId in gone { return NoSegment; }
      if end.recvSize <= MIN_SIZE { return Arg; }
      if end.sendSize <= MIN_SIZE { return Arg; }
      ends := ends[peer := end];
    }
    assert rows[..|rows|] == rows;
    r := Connected(ends);
  }

  lemma {:induction false} FailsForGood(rows: seq<ChanConfig>, proc: ProcId, gone: set<ShmId>, i: nat)
    requires i <= |rows|
    ensures !Connect(rows[..i], proc, gone).Connected? ==> Connect(rows, proc, gone) == Connect(rows[..i], proc, gone)
    decreases |rows|
  {
    if i < |rows| {
      FailsForGood(rows[..|rows| - 1], proc, gone, i);
      assert rows[..|rows| - 1][..i] == rows[..i];
    } else {
      assert rows[..i] == rows;
    }
  }

  /** The ends that a process holds are its rows of the table, one for each. */
  ghost predicate EndsOf(table: seq<ChanConfig>, proc: ProcId, ends: map<ProcId, End>) {
    && (forall i :: 0 <= i < |table| && Names(table[i], proc) ==>
          PeerOf(table[i], proc) in ends && ends[PeerOf(table[i], proc)] == EndOf(table[i], proc))
    && (forall p :: p in ends ==> exists i :: 0 <= i < |table| && Names(table[i], proc) && PeerOf(table[i], proc) == p)
  }

  /** The peers of two rows of one process differ. */
  lemma NotTaken(table: seq<ChanConfig>, nextId: ShmId, proc: ProcId, ends: map<ProcId, End>)
    requires TableOk(table, nextId) && table != []
    requires var n := |table| - 1; EndsOf(table[..n], proc, ends) && Names(table[n], proc)
    ensures PeerOf(table[|table| - 1], proc) !in ends
  {
  }

  lemma OneMoreEnd(table: seq<ChanConfig>, proc: ProcId, ends: map<ProcId, End>)
    requires table != []
    requires var n := |table| - 1;
             EndsOf(table[..n], proc, ends) && (Names(table[n], proc) ==> PeerOf(table[n], proc) !in ends)
    ensures var row := table[|table| - 1];
            EndsOf(table, proc, if Names(row, proc) then ends[PeerOf(row, proc) := EndOf(row, proc)] else ends)
  {
  }

  /** Both segments of each of its rows are attached and large enough. */
  ghost predicate AllUsable(table: seq<ChanConfig>, proc: ProcId, gone: set<ShmId>) {
    forall i :: 0 <= i < |table| && Names(table[i], proc) ==> Usable(table[i], gone)
  }

  /** The i-th row is the first that cannot be used, and `r` says why. */
  ghost predicate FailsAt(table: seq<ChanConfig>, proc: ProcId, gone: set<ShmId>, i: nat, r: Connection) {
    && i < |table| && Names(table[i], proc) && !Usable(table[i], gone)
    && r == (if Attaches(table[i], gone) then Arg else NoSegment)
    && forall j :: 0 <= j < i && Names(table[j], proc) ==> Usable(table[j], gone)
  }

  predicate Usable(row: ChanConfig, gone: set<ShmId>) {
    Attaches(row, gone) && Roomy(row)
  }

  lemma UsablePrefix(table: seq<ChanConfig>, nextId: ShmId, proc: ProcId, gone: set<ShmId>)
    requires table != [] && TableOk(table, nextId)
    ensures var n := |table| - 1;
            && TableOk(table[..n], nextId)
            && (AllUsable(table, proc, gone) <==>
                  AllUsable(table[..n], proc, gone) && (Names(table[n], proc) ==> Usable(table[n], gone)))
  {
  }

  /**
    From a table without repeated pairs Init never meets a duplicate channel or a row that is not its own.
    It fails exactly when a segment is not attached or too small for a queue, with the error of the first such
    row; else it holds one end for each of its rows.
   */
  lemma {:induction false} InitConnects(table: seq<ChanConfig>, nextId: ShmId, proc: ProcId, gone: set<ShmId>)
    requires TableOk(table, nextId)
    ensures var r := Connect(Rows(table, proc), proc, gone);
            if AllUsable(table, proc, gone) then r.Connected? && EndsOf(table, proc, r.ends)
            else exists i: nat :: FailsAt(table, proc, gone, i, r)
    decreases |table|
  {
    hide TableOk, EndsOf, AllUsable, FailsAt, PeerOf, EndOf, Names, Roomy, Attaches;
    if table == [] {
      EmptyTable(proc, gone);
    } else {
      var n := |table| - 1;
      var row, rows := table[n], Rows(table[..n], proc);
      UsablePrefix(table, nextId, proc, gone);
      InitConnects(table[..n], nextId, proc, gone);
      RowsEnd(table, proc);
      var before := Connect(rows, proc, gone);
      assert (rows + [row])[..|rows|] == rows && rows + [] == rows;
      if before.Connected? && AllUsable(table[..n], proc, gone) {
        if Names(row, proc) { NotTaken(table, nextId, proc, before.ends); }
        OneMoreEnd(table, proc, before.ends);
        if !AllUsable(table, proc, gone) {
          LastFails(table, proc, gone);
          assert FailsAt(table, proc, gone, n, Connect(Rows(table, proc), proc, gone));
        }
      } else {
        var i: nat :| FailsAt(table[..n], proc, gone, i, before);
        StillFails(table, proc, gone, i, before);
        assert Connect(Rows(table, proc), proc, gone) == before;
      }
    }
  }

  lemma LastFails(table: seq<ChanConfig>, proc: ProcId, gone: set<ShmId>)
    requires table != [] && AllUsable(table[..|table| - 1], proc, gone) && !AllUsable(table, proc, gone)
    ensures var row := table[|table| - 1];
            FailsAt(table, proc, gone, |table| - 1, if Attaches(row, gone) then Arg else NoSegment)
  {
    var n := |table| - 1;
    assert forall j :: 0 <= j < n ==> table[..n][j] == table[j];
  }

  lemma StillFails(table: seq<ChanConfig>, proc: ProcId, gone: set<ShmId>, i: nat, r: Connection)
    requires table != [] && FailsAt(table[..|table| - 1], proc, gone, i, r)
    ensures FailsAt(table, proc, gone, i, r) && !r.Connected?
  {
  }

  lemma EmptyTable(proc: ProcId, gone: set<ShmId>)
    ensures AllUsable([], proc, gone) && EndsOf([], proc, map[])
  {
  }

  lemma RowsEnd(table: seq<ChanConfig>, proc: ProcId)
    requires table != []
    ensures var row := table[|table| - 1];
            Rows(table, proc) == Rows(table[..|table| - 1], proc) + if Names(row, proc) then [row] else []
  {
  }

  // ---------- Who talks to whom ----------

  /** The process connected from this table and holds these ends. */
  ghost predicate Connects(table: seq<ChanConfig>, nextId: ShmId, a: ProcId, ends: map<ProcId, End>) {
    TableOk(table, nextId) && exists gone :: Connect(Rows(table, a), a, gone) == Connected(ends)
  }

  lemma RowFor(table: seq<ChanConfig>, nextId: ShmId, a: ProcId, ends: map<ProcId, End>, b: ProcId) returns (i: nat)
    requires Connects(table, nextId, a, ends) && b in ends
    ensures i < |table| && Names(table[i], a) && PeerOf(table[i], a) == b && ends[b] == EndOf(table[i], a)
  {
    var gone :| Connect(Rows(table, a), a, gone) == Connected(ends);
    InitConnects(table, nextId, a, gone);
    i :| 0 <= i < |table| && Names(table[i], a) && PeerOf(table[i], a) == b;
  }

  lemma EndFor(table: seq<ChanConfig>, nextId: ShmId, a: ProcId, ends: map<ProcId, End>, i: nat)
    requires Connects(table, nextId, a, ends) && i < |table| && Names(table[i], a)
    ensures PeerOf(table[i], a) in ends && ends[PeerOf(table[i], a)] == EndOf(table[i], a)
  {
    var gone :| Connect(Rows(table, a), a, gone) == Connected(ends);
    InitConnects(table, nextId, a, gone);
  }

  /** What one sends to is what the other receives from, in both directions and with the same sizes. */
  predicate Crossed(x: End, y: End) {
    && x.sendId == y.recvId && x.sendSize == y.recvSize
    && x.recvId == y.sendId && x.recvSize == y.sendSize
  }

  lemma RowCrossed(table: seq<ChanConfig>, nextId: ShmId, i: nat, a: ProcId)
    requires TableOk(table, nextId) && i < |table| && Names(table[i], a)
    ensures var b := PeerOf(table[i], a);
            && Names(table[i], b) && PeerOf(table[i], b) == a
            && (Crossed(EndOf(table[i], a), EndOf(table[i], b)) <==> a != b)
            && EndOf(table[i], b).reported == a % WORD32
  {
  }

  /**
    Two processes hold ends of the same channel or neither does, and the ends are crossed exactly when they
    are two: a channel to oneself is not. The peer is reported as it is exactly when its id has 32 bits.
   */
  lemma CrossConnected(
    table: seq<ChanConfig>, nextId: ShmId, a: ProcId, b: ProcId, endsA: map<ProcId, End>, endsB: map<ProcId, End>)
    requires Connects(table, nextId, a, endsA) && Connects(table, nextId, b, endsB)
    ensures b in endsA <==> a in endsB
    ensures b in endsA ==> (Crossed(endsA[b], endsB[a]) <==> a != b) && (endsB[a].reported == a <==> a < WORD32)
  {
    hide Connect, Rows, EndOf, PeerOf, Crossed;
    if b in endsA {
      var i := RowFor(table, nextId, a, endsA, b);
      RowCrossed(table, nextId, i, a);
      EndFor(table, nextId, b, endsB, i);
    } else if a in endsB {
      var i := RowFor(table, nextId, b, endsB, a);
      RowCrossed(table, nextId, i, b);
      EndFor(table, nextId, a, endsA, i);
    }
  }

  /**
    Peer 0 sends to the segment of send_size and peer 1 receives from it; the other way they use the segment of
    recv_size.
   */
  lemma RowEnds(
    table: seq<ChanConfig>, nextId: ShmId, i: nat, ends0: map<ProcId, End>, ends1: map<ProcId, End>)
    requires i < |table| && table[i].peer0 != table[i].peer1
    requires Connects(table, nextId, table[i].peer0, ends0) && Connects(table, nextId, table[i].peer1, ends1)
    ensures var row := table[i];
            && row.peer1 in ends0 && row.peer0 in ends1
            && (ends0[row.peer1].sendId, ends0[row.peer1].sendSize) == (row.sendId, row.sendSize)
            && (ends1[row.peer0].recvId, ends1[row.peer0].recvSize) == (row.sendId, row.sendSize)
            && (ends1[row.peer0].sendId, ends1[row.peer0].sendSize) == (row.recvId, row.recvSize)
            && (ends0[row.peer1].recvId, ends0[row.peer1].recvSize) == (row.recvId, row.recvSize)
  {
    hide Connects;
    EndFor(table, nextId, table[i].peer0, ends0, i);
    EndFor(table, nextId, table[i].peer1, ends1, i);
  }

  /** A segment has one sender and one receiver. */
  lemma OneSender(
    table: seq<ChanConfig>, nextId: ShmId, a: ProcId, b: ProcId, c: ProcId, d: ProcId, endsA: map<ProcId, End>,
    endsC: map<ProcId, End>)
    requires Connects(table, nextId, a, endsA) && Connects(table, nextId, c, endsC) && b in endsA && d in endsC
    ensures endsA[b].sendId == endsC[d].sendId <==> a == c && b == d
    ensures endsA[b].recvId == endsC[d].recvId <==> a == c && b == d
  {
    var i := RowFor(table, nextId, a, endsA, b);
    var j := RowFor(table, nextId, c, endsC, d);
    assert i != j ==> !SamePair(table[if i < j then i else j], table[if i < j then j else i]);
  }

  // ---------- End to end ----------

  /** All rings of the machine, what each process sent to each, and what each heard under which reported id. */
  datatype World = World(
    rings: map<ShmId, seq<Message>>, sent: map<(ProcId, ProcId), seq<Message>>, heard: map<(nat, ProcId), seq<Message>>)

  datatype Event = Send(src: ProcId, dst: ProcId, m: Message) | Recv(dst: ProcId)

  type Machine = map<ProcId, map<ProcId, End>>

  function At<K, V>(m: map<K, seq<V>>, k: K): seq<V> {
    if k in m then m[k] else []
  }

  ghost predicate Pair(ends: Machine, a: ProcId, b: ProcId) {
    a in ends && b in ends[a]
  }

  /** An accepted Send: one more message in the ring of the sender's end. */
  function Sent(ends: Machine, w: World, a: ProcId, b: ProcId, m: Message): World
    requires a in ends && b in ends[a]
  {
    var id := ends[a][b].sendId;
    w.(rings := w.rings[id := At(w.rings, id) + [m]], sent := w.sent[(a, b) := At(w.sent, (a, b)) + [m]])
  }

  /** A Recv of `b` that stops at its end for the peer `p` gives that end's first message and its reported id. */
  function Heard(ends: Machine, w: World, b: ProcId, p: ProcId): World
    requires b in ends && p in ends[b] && At(w.rings, ends[b][p].recvId) != []
  {
    var end := ends[b][p];
    var q, key := At(w.rings, end.recvId), (end.reported, b);
    w.(rings := w.rings[end.recvId := q[1..]], heard := w.heard[key := At(w.heard, key) + [q[0]]])
  }

  /** `b` receives from this peer: some end of its own that is filled (Channel.RecvOutcome says which). */
  ghost predicate HearsFrom(ends: Machine, w: World, b: ProcId, p: ProcId, w': World) {
    Pair(ends, b, p) && At(w.rings, ends[b][p].recvId) != [] && w' == Heard(ends, w, b, p)
  }

  /** Any call may be refused or find nothing; the receiver does not say whom it hears. */
  ghost predicate Happens(ends: Machine, w: World, e: Event, w': World) {
    || w' == w
    || match e
       case Send(a, b, m) => Pair(ends, a, b) && w' == Sent(ends, w, a, b, m)
       case Recv(b) => exists p :: HearsFrom(ends, w, b, p, w')
  }

  /** The world is reached from empty rings by these calls, in this order. */
  ghost predicate Reaches(ends: Machine, es: seq<Event>, w: World)
    decreases |es|
  {
    if es == [] then w == World(map[], map[], map[])
    else
      var earlier, last := es[..|es| - 1], es[|es| - 1];
      exists v :: Reaches(ends, earlier, v) && Happens(ends, v, last, w)
  }

  /** Every process of `ends` connected from this one table, and so did each of its peers. */
  ghost predicate AllConnected(table: seq<ChanConfig>, nextId: ShmId, ends: Machine) {
    && (forall a :: a in ends ==> Connects(table, nextId, a, ends[a]))
    && (forall a, b :: a in ends && b in ends[a] ==> b in ends)
  }

  /** Nobody else uses the ring from `a` to `b`, and its two ends are the ones that `a` and `b` hold. */
  ghost predicate OwnRing(ends: Machine, a: ProcId, b: ProcId) {
    && Pair(ends, a, b) && Pair(ends, b, a) && ends[b][a].recvId == ends[a][b].sendId
    && (forall c, d :: Pair(ends, c, d) && ends[c][d].sendId == ends[a][b].sendId ==> c == a && d == b)
    && (forall c, d :: Pair(ends, d, c) && ends[d][c].recvId == ends[a][b].sendId ==> c == a && d == b)
  }

  lemma EveryRingOwn(table: seq<ChanConfig>, nextId: ShmId, ends: Machine, a: ProcId, b: ProcId)
    requires AllConnected(table, nextId, ends) && Pair(ends, a, b) && a != b
    ensures OwnRing(ends, a, b) && ends[b][a].reported == a % WORD32
  {
    hide Connects;
    CrossConnected(table, nextId, a, b, ends[a], ends[b]);
    forall c, d | Pair(ends, c, d) && ends[c][d].sendId == ends[a][b].sendId ensures c == a && d == b {
      OneSender(table, nextId, a, b, c, d, ends[a], ends[c]);
    }
    forall c, d | Pair(ends, d, c) && ends[d][c].recvId == ends[b][a].recvId ensures c == a && d == b {
      OneSender(table, nextId, b, a, d, c, ends[b], ends[d]);
    }
    Reported(table, nextId, ends, b, a);
  }

  lemma Reported(table: seq<ChanConfig>, nextId: ShmId, ends: Machine, b: ProcId, a: ProcId)
    requires AllConnected(table, nextId, ends) && Pair(ends, b, a)
    ensures ends[b][a].reported == a % WORD32
  {
    hide Connects;
    var i := RowFor(table, nextId, b, ends[b], a);
  }

  /** What `b` heard under the id of `a`, then what is in their ring, is what `a` sent to `b`. */
  ghost predicate Delivered(ends: Machine, w: World, a: ProcId, b: ProcId)
    requires Pair(ends, a, b)
  {
    At(w.sent, (a, b)) == At(w.heard, (a, b)) + At(w.rings, ends[a][b].sendId)
  }

  /** The id of `a` has 32 bits, and no third process that is a peer of `b` has the same low 32 bits. */
  ghost predicate ToldApart(ends: Machine, a: ProcId, b: ProcId)
    requires b in ends
  {
    a < WORD32 && forall p :: p in ends[b] && p != b && p % WORD32 == a ==> p == a
  }

  lemma SendDelivers(ends: Machine, w: World, c: ProcId, d: ProcId, m: Message, a: ProcId, b: ProcId)
    requires OwnRing(ends, a, b) && Delivered(ends, w, a, b) && Pair(ends, c, d)
    ensures Delivered(ends, Sent(ends, w, c, d, m), a, b)
  {
    assert (c, d) != (a, b) ==> ends[c][d].sendId != ends[a][b].sendId;
  }

  lemma RecvDelivers(ends: Machine, w: World, d: ProcId, p: ProcId, a: ProcId, b: ProcId)
    requires OwnRing(ends, a, b) && Delivered(ends, w, a, b)
    requires Pair(ends, d, p) && At(w.rings, ends[d][p].recvId) != []
    requires (ends[d][p].reported, d) == (a, b) <==> (p, d) == (a, b)
    ensures Delivered(ends, Heard(ends, w, d, p), a, b)
  {
    assert (p, d) != (a, b) ==> ends[d][p].recvId != ends[a][b].sendId;
  }

  /** Nobody sends to the ring that a process with a channel to itself receives from. */
  lemma SelfRingUnused(table: seq<ChanConfig>, nextId: ShmId, ends: Machine, b: ProcId, c: ProcId, d: ProcId)
    requires AllConnected(table, nextId, ends) && Pair(ends, b, b) && Pair(ends, c, d)
    ensures ends[c][d].sendId != ends[b][b].recvId
  {
    hide Connects;
    var i := RowFor(table, nextId, c, ends[c], d);
    var j := RowFor(table, nextId, b, ends[b], b);
    ConnectsTable(table, nextId, b, ends[b]);
  }

  lemma ConnectsTable(table: seq<ChanConfig>, nextId: ShmId, a: ProcId, ends: map<ProcId, End>)
    requires Connects(table, nextId, a, ends)
    ensures TableOk(table, nextId)
  {
  }

  lemma {:induction false} SelfRingEmpty(
    table: seq<ChanConfig>, nextId: ShmId, ends: Machine, es: seq<Event>, w: World, b: ProcId)
    requires AllConnected(table, nextId, ends) && Pair(ends, b, b) && Reaches(ends, es, w)
    ensures At(w.rings, ends[b][b].recvId) == []
    decreases |es|
  {
    hide AllConnected;
    if es != [] {
      var e := es[|es| - 1];
      var v :| Reaches(ends, es[..|es| - 1], v) && Happens(ends, v, e, w);
      SelfRingEmpty(table, nextId, ends, es[..|es| - 1], v, b);
      if e.Send? && Pair(ends, e.src, e.dst) { SelfRingUnused(table, nextId, ends, b, e.src, e.dst); }
    }
  }

  lemma StepDelivers(
    table: seq<ChanConfig>, nextId: ShmId, ends: Machine, w: World, e: Event, w': World, a: ProcId, b: ProcId)
    requires AllConnected(table, nextId, ends) && Pair(ends, a, b) && a != b && b in ends && ToldApart(ends, a, b)
    requires b in ends[b] ==> At(w.rings, ends[b][b].recvId) == []
    requires Delivered(ends, w, a, b) && Happens(ends, w, e, w')
    ensures Delivered(ends, w', a, b)
  {
    hide AllConnected, OwnRing, Delivered, Sent, Heard;
    EveryRingOwn(table, nextId, ends, a, b);
    if w' != w {
      match e
      case Send(c, d, m) => SendDelivers(ends, w, c, d, m, a, b);
      case Recv(d) =>
        var p :| HearsFrom(ends, w, d, p, w');
        Reported(table, nextId, ends, d, p);
        RecvDelivers(ends, w, d, p, a, b);
    }
  }

  lemma {:induction false} DeliveredInOrder(
    table: seq<ChanConfig>, nextId: ShmId, ends: Machine, es: seq<Event>, w: World, a: ProcId, b: ProcId)
    requires AllConnected(table, nextId, ends) && Pair(ends, a, b) && a != b && Reaches(ends, es, w)
    requires b in ends && ToldApart(ends, a, b)
    ensures Delivered(ends, w, a, b)
    decreases |es|
  {
    hide AllConnected, Delivered, Happens, ToldApart;
    if es == [] {
      NothingYet(ends, a, b);
    } else {
      var v :| Reaches(ends, es[..|es| - 1], v) && Happens(ends, v, es[|es| - 1], w);
      DeliveredInOrder(table, nextId, ends, es[..|es| - 1], v, a, b);
      if b in ends[b] { SelfRingEmpty(table, nextId, ends, es[..|es| - 1], v, b); }
      StepDelivers(table, nextId, ends, v, es[|es| - 1], w, a, b);
    }
  }

  lemma NothingYet(ends: Machine, a: ProcId, b: ProcId)
    requires Pair(ends, a, b)
    ensures Delivered(ends, World(map[], map[], map[]), a, b)
  {
  }

  lemma HearingHappens(ends: Machine, w: World, b: ProcId, p: ProcId, w': World)
    requires HearsFrom(ends, w, b, p, w')
    ensures Happens(ends, w, Recv(b), w')
  {
  }

  lemma Snoc(ends: Machine, es: seq<Event>, w: World, e: Event, w': World)
    requires Reaches(ends, es, w) && Happens(ends, w, e, w')
    ensures Reaches(ends, es + [e], w')
  {
    assert (es + [e])[..|es|] == es;
  }

  /** The peer `p` sends one message to `b`, who hears it under the id that its end reports. */
  lemma OneMessage(ends: Machine, p: ProcId, b: ProcId, m: Message) returns (es: seq<Event>, w: World)
    requires OwnRing(ends, p, b)
    ensures Reaches(ends, es, w)
    ensures w.sent == map[(p, b) := [m]] && w.heard == map[(ends[b][p].reported, b) := [m]]
    ensures w.rings == map[ends[p][b].sendId := []]
  {
    hide Sent, Heard, Reaches, HearsFrom, OwnRing;
    var w0 := World(map[], map[], map[]);
    OneHeard(ends, p, b, m);
    var w1 := Sent(ends, w0, p, b, m);
    w := Heard(ends, w1, b, p);
    HearingHappens(ends, w1, b, p, w);
    NothingReached(ends);
    Snoc(ends, [], w0, Send(p, b, m), w1);
    Snoc(ends, [] + [Send(p, b, m)], w1, Recv(b), w);
    es := [] + [Send(p, b, m)] + [Recv(b)];
  }

  lemma NothingReached(ends: Machine)
    ensures Reaches(ends, [], World(map[], map[], map[]))
  {
  }

  lemma OneHeard(ends: Machine, p: ProcId, b: ProcId, m: Message)
    requires OwnRing(ends, p, b)
    ensures Pair(ends, p, b) && Pair(ends, b, p)
    ensures var w1 := Sent(ends, World(map[], map[], map[]), p, b, m); var w := World(
              map[ends[p][b].sendId := []], map[(p, b) := [m]], map[(ends[b][p].reported, b) := [m]]);
            && At(w1.rings, ends[b][p].recvId) != [] && Heard(ends, w1, b, p) == w && HearsFrom(ends, w1, b, p, w)
  {
    assert [] + [m] == [m] && [m][1..] == [];
  }

  ghost predicate AlwaysDelivered(ends: Machine, a: ProcId, b: ProcId)
    requires Pair(ends, a, b)
  {
    forall es: seq<Event>, w: World :: Reaches(ends, es, w) ==> Delivered(ends, w, a, b)
  }

  /** One message of `p` spoils delivery if it is heard under the id of `a`, or `p` is `a` and it is not. */
  lemma Spoils(ends: Machine, a: ProcId, b: ProcId, p: ProcId)
    requires OwnRing(ends, a, b) && OwnRing(ends, p, b) && (ends[b][p].reported == a <==> p != a)
    ensures !AlwaysDelivered(ends, a, b)
  {
    var es, w := OneMessage(ends, p, b, [0]);
    assert !Delivered(ends, w, a, b);
  }

  /**
    In every run `b` hears under the id of its peer `a` what `a` sent to it, in order and the rest still in
    their ring, exactly when the id of `a` has 32 bits and no third peer of `b` shares them.
   */
  lemma DeliveredIff(table: seq<ChanConfig>, nextId: ShmId, ends: Machine, a: ProcId, b: ProcId)
    requires AllConnected(table, nextId, ends) && Pair(ends, a, b) && a != b
    ensures b in ends && (AlwaysDelivered(ends, a, b) <==> ToldApart(ends, a, b))
  {
    EveryRingOwn(table, nextId, ends, a, b);
    hide Reaches, AllConnected;
    if ToldApart(ends, a, b) {
      forall es, w | Reaches(ends, es, w) ensures Delivered(ends, w, a, b) {
        DeliveredInOrder(table, nextId, ends, es, w, a, b);
      }
    } else {
      var p := a;
      if a < WORD32 { p :| p in ends[b] && p != b && p % WORD32 == a && p != a; }
      EveryRingOwn(table, nextId, ends, b, p);
      EveryRingOwn(table, nextId, ends, p, b);
      hide AlwaysDelivered;
      Spoils(ends, a, b, p);
    }
  }

  /** Two peers of process 3 whose ids agree in their low 32 bits. */
  function SharedTable(): seq<ChanConfig> {
    [ChanConfig(1, 3, 0, 1, 1000, 1000), ChanConfig(WORD32 + 1, 3, 2, 3, 1000, 1000)]
  }

  lemma SharedOk(proc: ProcId)
    ensures TableOk(SharedTable(), 4) && AllUsable(SharedTable(), proc, {})
  {
    var table := SharedTable();
    assert |table| == 2 && !SamePair(table[0], table[1]) && Usable(table[0], {}) && Usable(table[1], {});
    assert table[0].sendId == 0 && table[0].recvId == 1 && table[1].sendId == 2 && table[1].recvId == 3;
    hide SamePair, Usable, SharedTable;
  }

  lemma SharedPeers(proc: ProcId, ends: map<ProcId, End>)
    requires proc in {1, 3, WORD32 + 1} && EndsOf(SharedTable(), proc, ends)
    ensures ends.Keys == if proc == 3 then {1, WORD32 + 1} else {3}
  {
    hide EndOf;
    var table := SharedTable();
    assert Names(table[0], proc) <==> proc != WORD32 + 1;
    assert Names(table[1], proc) <==> proc != 1;
  }

  lemma SharedEnds(proc: ProcId) returns (ends: map<ProcId, End>)
    requires proc in {1, 3, WORD32 + 1}
    ensures Connects(SharedTable(), 4, proc, ends)
    ensures ends.Keys == if proc == 3 then {1, WORD32 + 1} else {3}
  {
    hide Connect, Rows, EndsOf, TableOk, AllUsable, SharedTable;
    SharedOk(proc);
    InitConnects(SharedTable(), 4, proc, {});
    ends := Connect(Rows(SharedTable(), proc), proc, {}).ends;
    SharedPeers(proc, ends);
  }

  /** Such peers are mixed up: process 3 hears the messages of both under one id. */
  lemma MixedUp() returns (ends: Machine)
    ensures AllConnected(SharedTable(), 4, ends) && Pair(ends, 1, 3) && Pair(ends, WORD32 + 1, 3)
    ensures !AlwaysDelivered(ends, 1, 3)
  {
    hide Connects, SharedTable, AlwaysDelivered;
    var a := SharedEnds(1);
    var b := SharedEnds(WORD32 + 1);
    var c := SharedEnds(3);
    ends := map[1 := a, WORD32 + 1 := b, 3 := c];
    DeliveredIff(SharedTable(), 4, ends, 1, 3);
  }
}
