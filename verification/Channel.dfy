/**
  CChannel: one process receiving from several rings in turn. A ring is the queue of messages that it
  holds (RingQueue shows that it is one). Peers may publish at any time, so what arrives just before
  each visit of Recv's loop is a parameter.
 */
module Channel {
  import opened Bytes
  import opened Packet

  const QUOTA := 10  // kMaxQueueRecvPkgCount

  /** The messages that arrive in each queue before one visit. */
  type Arrival = seq<seq<Message>>

  datatype Result = Got(src: nat, m: Message) | NothingThere | TooSmall(src: nat)

  /** The queues in the order of the map, the one Recv stands at, and how many it gave in a row. */
  datatype Chan = Chan(queues: seq<seq<Message>>, cur: nat, count: nat) {
    predicate Valid() {
      cur < |queues| && count <= QUOTA
    }
  }

  function NextOf(n: nat, i: nat): (r: nat)
    requires i < n
    ensures r < n
  {
    if i + 1 == n then 0 else i + 1
  }

  /** MoveToNextQueue. */
  function Move(ch: Chan): (r: Chan)
    requires ch.Valid()
    ensures r.Valid() && r.queues == ch.queues
  {
    ch.(cur := NextOf(|ch.queues|, ch.cur), count := 0)
  }

  predicate Fits(ch: Chan, arrivals: seq<Arrival>) {
    |arrivals| == |ch.queues| && forall v :: 0 <= v < |arrivals| ==> |arrivals[v]| == |ch.queues|
  }

  function Deliver(queues: seq<seq<Message>>, a: Arrival): (r: seq<seq<Message>>)
    requires |a| == |queues|
    ensures |r| == |queues|
    ensures forall q :: 0 <= q < |r| ==> r[q] == queues[q] + a[q]
  {
    seq(|queues|, q requires 0 <= q < |queues| => queues[q] + a[q])
  }

  /** Recv's loop from its v-th visit on. */
  function Visits(ch: Chan, arrivals: seq<Arrival>, space: nat, v: nat): (r: (Chan, Result))
    requires ch.Valid() && ch.count < QUOTA && Fits(ch, arrivals) && v < |arrivals|
    ensures r.0.Valid() && |r.0.queues| == |ch.queues|
    decreases |arrivals| - v
  {
    var here := ch.(queues := Deliver(ch.queues, arrivals[v]));
    var q := here.queues[ch.cur];
    if q == [] then
      if v + 1 < |arrivals| then Visits(Move(here), arrivals, space, v + 1) else (Move(here), NothingThere)
    else if space < |q[0]| then (Move(here), TooSmall(ch.cur))
    else (here.(queues := here.queues[ch.cur := q[1..]], count := ch.count + 1), Got(ch.cur, q[0]))
  }

  /** Where the loop starts: a queue that used up its quota is left. */
  function Begin(ch: Chan): (r: Chan)
    requires ch.Valid()
    ensures r.Valid() && r.queues == ch.queues && r.count < QUOTA
  {
    if ch.count >= QUOTA then Move(ch) else ch
  }

  function Recv(ch: Chan, arrivals: seq<Arrival>, space: nat): (r: (Chan, Result))
    requires ch.Valid() && Fits(ch, arrivals)
    ensures r.0.Valid() && |r.0.queues| == |ch.queues|
  {
    Visits(Begin(ch), arrivals, space, 0)
  }

  /** One visit, and what is left to do. */
  lemma VisitOnce(ch: Chan, arrivals: seq<Arrival>, space: nat, v: nat)
    requires ch.Valid() && ch.count < QUOTA && Fits(ch, arrivals) && v < |arrivals|
    ensures var here := ch.(queues := Deliver(ch.queues, arrivals[v])); var q := here.queues[ch.cur];
            && here.Valid() && Fits(here, arrivals) && Fits(Move(here), arrivals)
            && Visits(ch, arrivals, space, v) ==
               if q == [] then
                 if v + 1 < |arrivals| then Visits(Move(here), arrivals, space, v + 1) else (Move(here), NothingThere)
               else if space < |q[0]| then (Move(here), TooSmall(ch.cur))
               else (here.(queues := here.queues[ch.cur := q[1..]], count := ch.count + 1), Got(ch.cur, q[0]))
  {
    hide Deliver, NextOf;
  }

  class CChannel {
    var queues: seq<seq<Message>>
    var cur: nat
    var count: nat

    ghost function Value(): Chan
      reads this
    {
      Chan(queues, cur, count)
    }

    constructor (n: nat)
      requires 0 < n
      ensures Value().Valid() && Value() == Chan(seq(n, _ => []), 0, 0)
    {
      queues, cur, count := seq(n, _ => []), 0, 0;
    }

    method MoveToNextQueue()
      requires Value().Valid()
      modifies this`cur, this`count
      ensures Value() == Move(old(Value()))
    {
      cur := cur + 1;
      if cur == |queues| { cur := 0; }
      count := 0;
    }

    method Receive(space: nat, arrivals: seq<Arrival>) returns (r: Result)
      requires Value().Valid() && Fits(Value(), arrivals)
      modifies this
      ensures (Value(), r) == Recv(old(Value()), arrivals, space)
    {
      hide Deliver, NextOf, Visits;
      if count >= QUOTA { MoveToNextQueue(); }
      var loopCount := 0;
      while true
        invariant Value().Valid() && count < QUOTA && Fits(Value(), arrivals) && loopCount < |arrivals|
        invariant Visits(Value(), arrivals, space, loopCount) == Recv(old(Value()), arrivals, space)
        decreases |arrivals| - loopCount
      {
        VisitOnce(Value(), arrivals, space, loopCount);
        queues := Deliver(queues, arrivals[loopCount]);
        var q := queues[cur];
        if q != [] {
          if |q[0]| <= space {
            queues, count := queues[cur := q[1..]], count + 1;
            return Got(cur, q[0]);
          }
          var src := cur;
          MoveToNextQueue();
          return TooSmall(src);
        }
        MoveToNextQueue();
        loopCount := loopCount + 1;
        if loopCount >= |queues| { return NothingThere; }
      }
    }
  }

  // ---------- What one Recv does ----------

  /** The queue at the v-th visit of a loop that starts at `start`. */
  function Visited(n: nat, start: nat, v: nat): (r: nat)
    requires start < n && v < n
    ensures r < n
  {
    if start + v < n then start + v else start + v - n
  }

  /** The queues at the v-th visit, if nothing was taken before: everything that arrived so far. */
  function Queues(queues: seq<seq<Message>>, arrivals: seq<Arrival>, v: nat): (r: seq<seq<Message>>)
    requires v < |arrivals| && forall w :: 0 <= w < |arrivals| ==> |arrivals[w]| == |queues|
    ensures |r| == |queues|
  {
    Deliver(if v == 0 then queues else Queues(queues, arrivals, v - 1), arrivals[v])
  }

  /** Nobody is visited twice, and n visits reach everybody. */
  lemma VisitedOnce(n: nat, start: nat, q: nat)
    requires start < n && q < n
    ensures var v := if start <= q then q - start else q + n - start;
            v < n && Visited(n, start, v) == q && forall w :: 0 <= w < n && Visited(n, start, w) == q ==> w == v
  {
  }

  /** The v-th visit finds its queue empty. */
  ghost predicate EmptyAt(ch: Chan, arrivals: seq<Arrival>, v: nat)
    requires ch.Valid() && Fits(ch, arrivals) && v < |arrivals|
  {
    Queues(ch.queues, arrivals, v)[Visited(|arrivals|, ch.cur, v)] == []
  }

  /** What a loop that stops at its v-th visit answers, in terms of the queues as that visit finds them. */
  ghost predicate Outcome(ch: Chan, arrivals: seq<Arrival>, space: nat, v: nat, r: (Chan, Result))
    requires ch.Valid() && Fits(ch, arrivals) && v < |arrivals|
  {
    var q := Visited(|arrivals|, ch.cur, v);
    var qs := Queues(ch.queues, arrivals, v);
    && |r.0.queues| == |qs|
    && match r.1
       case NothingThere => v + 1 == |arrivals| && qs[q] == [] && r.0 == Chan(qs, ch.cur, 0)
       case TooSmall(src) =>
         && src == q && qs[q] != [] && space < |qs[q][0]|
         && r.0 == Chan(qs, if q + 1 == |qs| then 0 else q + 1, 0)
       case Got(src, m) =>
         && src == q && qs[q] == [m] + r.0.queues[q] && |m| <= space && r.0.queues == qs[q := r.0.queues[q]]
         && r.0.cur == q && r.0.count == 1 + if v == 0 then ch.count else 0
  }

  lemma VisitSees(ch: Chan, mid: Chan, arrivals: seq<Arrival>, v: nat)
    requires ch.Valid() && Fits(ch, arrivals) && v < |arrivals|
    requires mid.queues == if v == 0 then ch.queues else Queues(ch.queues, arrivals, v - 1)
    ensures |mid.queues| == |ch.queues| && Queues(ch.queues, arrivals, v) == Deliver(mid.queues, arrivals[v])
  {
  }

  lemma {:induction false} VisitsOutcome(ch: Chan, mid: Chan, arrivals: seq<Arrival>, space: nat, v: nat)
    returns (last: nat)
    requires ch.Valid() && Fits(ch, arrivals) && v < |arrivals|
    requires mid.Valid() && mid.count < QUOTA && |mid.queues| == |ch.queues|
    requires mid.cur == Visited(|arrivals|, ch.cur, v) && mid.count == if v == 0 then ch.count else 0
    requires mid.queues == if v == 0 then ch.queues else Queues(ch.queues, arrivals, v - 1)
    requires forall w :: 0 <= w < v ==> EmptyAt(ch, arrivals, w)
    ensures v <= last < |arrivals| && forall w :: 0 <= w < last ==> EmptyAt(ch, arrivals, w)
    ensures Outcome(ch, arrivals, space, last, Visits(mid, arrivals, space, v))
    decreases |arrivals| - v
  {
    hide Queues, Deliver;
    VisitSees(ch, mid, arrivals, v);
    var here := mid.(queues := Deliver(mid.queues, arrivals[v]));
    last := v;
    if here.queues[mid.cur] == [] && v + 1 < |arrivals| {
      last := VisitsOutcome(ch, Move(here), arrivals, space, v + 1);
    }
  }

  /**
    Recv stops at the first visit that does not find its queue empty, takes the first message there and
    changes no other queue, or leaves that queue for the next one if the message does not fit; it gives up
    exactly when each queue was visited once and found empty.
   */
  lemma RecvOutcome(ch: Chan, arrivals: seq<Arrival>, space: nat) returns (last: nat)
    requires ch.Valid() && Fits(ch, arrivals)
    ensures last < |arrivals| && (forall v :: 0 <= v < last ==> EmptyAt(Begin(ch), arrivals, v))
    ensures Outcome(Begin(ch), arrivals, space, last, Recv(ch, arrivals, space))
    ensures Recv(ch, arrivals, space).1 == NothingThere <==>
              forall v :: 0 <= v < |arrivals| ==> EmptyAt(Begin(ch), arrivals, v)
  {
    hide Queues;
    FirstVisit(Begin(ch), arrivals);
    last := VisitsOutcome(Begin(ch), Begin(ch), arrivals, space, 0);
    assert Recv(ch, arrivals, space).1 != NothingThere ==> !EmptyAt(Begin(ch), arrivals, last);
  }

  lemma FirstVisit(ch: Chan, arrivals: seq<Arrival>)
    requires ch.Valid() && Fits(ch, arrivals)
    ensures Visited(|arrivals|, ch.cur, 0) == ch.cur
  {
  }

  // ---------- Fairness ----------

  /** How many steps forward from queue `a` to queue `b`. */
  function Ahead(n: nat, a: nat, b: nat): nat
    requires a < n && b < n
  {
    if a <= b then b - a else b + n - a
  }

  /** How many messages of other queues may still come before one of queue `j`. */
  function Credit(ch: Chan, j: nat): nat
    requires ch.Valid() && j < |ch.queues|
  {
    var c := Begin(ch);
    var d := Ahead(|ch.queues|, c.cur, j);
    if d == 0 then 0 else QUOTA - c.count + QUOTA * (d - 1)
  }

  /** A loop that starts no further than one round before a filled queue serves it, or uses up credit. */
  lemma {:induction false} VisitsSpend(ch: Chan, arrivals: seq<Arrival>, space: nat, v: nat, j: nat)
    requires ch.Valid() && ch.count < QUOTA && Fits(ch, arrivals) && v < |arrivals|
    requires j < |ch.queues| && ch.queues[j] != [] && |ch.queues[j][0]| <= space
    requires v + Ahead(|ch.queues|, ch.cur, j) < |arrivals|
    ensures var r := Visits(ch, arrivals, space, v);
            || r.1 == Got(j, ch.queues[j][0])
            || (Other(r.1, j) && Credit(r.0, j) < Credit(ch, j)
                && r.0.queues[j] != [] && r.0.queues[j][0] == ch.queues[j][0])
    decreases |arrivals| - v
  {
    hide Deliver;
    var here := ch.(queues := Deliver(ch.queues, arrivals[v]));
    if here.queues[ch.cur] == [] {
      VisitsSpend(Move(here), arrivals, space, v + 1, j);
    }
  }

  /** A message of another queue, given or found too long. */
  predicate Other(r: Result, j: nat) {
    !r.NothingThere? && r.src != j
  }

  datatype Call = Call(arrivals: seq<Arrival>, space: nat)

  /** Calls on n queues. */
  predicate ForQueues(n: nat, cs: seq<Call>) {
    forall i :: 0 <= i < |cs| ==> |cs[i].arrivals| == n && forall v :: 0 <= v < n ==> |cs[i].arrivals[v]| == n
  }

  function Calls(ch: Chan, cs: seq<Call>): (r: (Chan, seq<Result>))
    requires ch.Valid() && ForQueues(|ch.queues|, cs)
    ensures r.0.Valid() && |r.0.queues| == |ch.queues| && |r.1| == |cs|
    decreases |cs|
  {
    if cs == [] then (ch, [])
    else
      var (ch1, r) := Recv(ch, cs[0].arrivals, cs[0].space);
      var (ch2, rs) := Calls(ch1, cs[1..]);
      (ch2, [r] + rs)
  }

  /**
    While the first message of a queue fits the buffers of all calls and is not received, every call answers a
    message of another queue, given or too long for its buffer, and there are at most 10 * (n - 1) such calls,
    whatever arrives and wherever Recv stands.
   */
  lemma {:induction false} Fairness(ch: Chan, cs: seq<Call>, j: nat)
    requires ch.Valid() && ForQueues(|ch.queues|, cs) && j < |ch.queues| && ch.queues[j] != []
    requires forall i :: 0 <= i < |cs| ==> |ch.queues[j][0]| <= cs[i].space
    requires Got(j, ch.queues[j][0]) !in Calls(ch, cs).1
    ensures forall r <- Calls(ch, cs).1 :: Other(r, j)
    ensures |cs| <= Credit(ch, j) <= QUOTA * (|ch.queues| - 1)
    decreases |cs|
  {
    if cs != [] {
      var (ch1, r) := Recv(ch, cs[0].arrivals, cs[0].space);
      VisitsSpend(Begin(ch), cs[0].arrivals, cs[0].space, 0, j);
      assert Calls(ch, cs).1 == [r] + Calls(ch1, cs[1..]).1;
      assert r in Calls(ch, cs).1;
      assert forall x <- Calls(ch1, cs[1..]).1 :: x in Calls(ch, cs).1;
      Fairness(ch1, cs[1..], j);
    }
  }

  // ---------- Taking turns ----------

  /** The queue that the k-th call from here serves while all queues are filled. */
  function Turn(ch: Chan, k: nat): nat
    requires ch.Valid()
  {
    (ch.cur + (ch.count + k) / QUOTA) % |ch.queues|
  }

  lemma InRange(x: nat, n: nat)
    requires x < n
    ensures x % n == x
  {
  }

  lemma NextTurn(ch: Chan, ch1: Chan, k: nat)
    requires ch.Valid() && ch1.Valid() && |ch1.queues| == |ch.queues|
    requires ch1.cur == Begin(ch).cur && ch1.count == Begin(ch).count + 1
    ensures Turn(ch, 0) == Begin(ch).cur && Turn(ch1, k) == Turn(ch, k + 1)
  {
    var n := |ch.queues|;
    InRange(Begin(ch).cur, n);
    if ch.count == QUOTA {
      NextResidue(0, n);
      assert (ch.count + k + 1) / QUOTA == 1 + (1 + k) / QUOTA;
      if ch.cur + 1 == n { NextResidue((1 + k) / QUOTA, n); }
    }
  }

  /**
    While no queue runs out and every message fits, the queues are served in cyclic order, ten messages of
    each in a row.
   */
  lemma {:induction false} TakesTurns(ch: Chan, cs: seq<Call>, k: nat)
    requires ch.Valid() && ForQueues(|ch.queues|, cs) && k < |cs|
    requires forall q :: 0 <= q < |ch.queues| ==> |cs| <= |ch.queues[q]|
    requires forall i :: 0 <= i < |cs| ==> MAX_BODY <= cs[i].space
    ensures var r := Calls(ch, cs).1[k]; r.Got? && r.src == Turn(ch, k)
    decreases |cs|
  {
    hide Turn, Deliver;
    var (ch1, r) := Recv(ch, cs[0].arrivals, cs[0].space);
    assert Calls(ch, cs).1 == [r] + Calls(ch1, cs[1..]).1;
    FilledFirst(ch, cs[0].arrivals, cs[0].space);
    if k == 0 {
      NextTurn(ch, ch1, 0);
    } else {
      NextTurn(ch, ch1, k - 1);
      TakesTurns(ch1, cs[1..], k - 1);
    }
  }

  lemma FilledFirst(ch: Chan, arrivals: seq<Arrival>, space: nat)
    requires ch.Valid() && Fits(ch, arrivals) && MAX_BODY <= space
    requires forall q :: 0 <= q < |ch.queues| ==> ch.queues[q] != []
    ensures var (ch1, r) := Recv(ch, arrivals, space);
            && r.Got? && r.src == Begin(ch).cur && ch1.cur == Begin(ch).cur && ch1.count == Begin(ch).count + 1
            && forall q :: 0 <= q < |ch.queues| ==> |ch1.queues[q]| >= |ch.queues[q]| - 1
  {
  }
}
