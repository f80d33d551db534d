/**
  What the calls of the main thread return, in every interleaving with the workers: Process hands a request to
  the first free worker or refuses it, HandleBusyThread fetches one response or none.
 */
module ThreadPoolCalls {
  import opened Bytes
  import opened ThreadPool

  ghost predicate SameAccepted(p: Pool, p': Pool) {
    |p'.workers| == |p.workers| && forall w :: 0 <= w < |p.workers| ==> p'.workers[w].accepted == p.workers[w].accepted
  }

  ghost predicate SameCollected(p: Pool, p': Pool) {
    && |p'.workers| == |p.workers|
    && forall w :: 0 <= w < |p.workers| ==> p'.workers[w].collected == p.workers[w].collected
  }

  /** Worker `w`, and no other, has one request more. */
  ghost predicate Took(p: Pool, p': Pool, w: nat, data: Data) {
    && |p'.workers| == |p.workers| && w < |p.workers|
    && p'.workers[w].accepted == p.workers[w].accepted + [data]
    && forall x :: 0 <= x < |p.workers| && x != w ==> p'.workers[x].accepted == p.workers[x].accepted
  }

  /** One response more was fetched, from worker `w` and from no other. */
  ghost predicate Gave(p: Pool, p': Pool, w: nat, out: Data) {
    && |p'.workers| == |p.workers| && w < |p.workers|
    && p'.workers[w].collected == p.workers[w].collected + [out]
    && forall x :: 0 <= x < |p.workers| && x != w ==> p'.workers[x].collected == p.workers[x].collected
  }

  /** The turns of workers change neither record. */
  lemma WorkerRecords(work: Data -> Data, p: Pool, w: nat)
    ensures var p' := Step(work, p, WorkerStep(w)); SameAccepted(p, p') && SameCollected(p, p')
  {
  }

  /**
    On every event of every reachable pool: a response is recorded as fetched exactly when a call of the main
    thread ends by returning it, and it is that worker's next one.
   */
  lemma FetchIsAnswer(work: Data -> Data, p: Pool, e: Event)
    requires Inv(work, p)
    ensures var p' := Step(work, p, e); var ends := !p.main.Idle? && p'.main.Idle?;
            && (ends && p'.ret.Response? <==> Fetched(p, p'))
            && (ends && p'.ret.Response? ==> exists w :: Gave(p, p', w, p'.ret.out))
            && (!Fetched(p, p') ==> SameCollected(p, p'))
  {
    hide WorkerInv, Partition, RolesInv, WakeInv, NewWorker, Overwrite;
    var p' := Step(work, p, e);
    if e.WorkerStep? {
      WorkerRecords(work, p, e.w);
    } else if e.MainStep? && p.main.ClearOut? {
      assert Gave(p, p', p.busy[p.main.i], p.main.out);
    }
  }

  /** The main thread is inside one call: no other call begins, the workers go on. */
  ghost predicate NoCalls(es: seq<Event>) {
    forall e <- es :: e.MainStep? || e.WorkerStep?
  }

  /** Where a Poll stands that began in `p`, and what it has returned if it is over. */
  ghost predicate PollUnderway(p: Pool, p': Pool) {
    && SameAccepted(p, p')
    && match p'.main
       case Scan(_, _) => SameCollected(p, p') && p'.busy == p.busy && p'.free == p.free
       case Fits(_, _) => SameCollected(p, p') && p'.busy == p.busy && p'.free == p.free
       case Any(_, _) => SameCollected(p, p') && p'.busy == p.busy && p'.free == p.free
       case CopyOut(_) => SameCollected(p, p') && p'.busy == p.busy && p'.free == p.free
       case ClearOut(_, _) => SameCollected(p, p') && p'.busy == p.busy && p'.free == p.free
       case Idle =>
         || (p'.ret == NoResponse && SameCollected(p, p') && p'.busy == p.busy && p'.free == p.free)
         || (p'.ret.Response? && exists i :: 0 <= i < |p.busy| && FetchedAt(p, p', i, p'.ret.out))
       case _ => false
  }

  /** The response of the i-th busy worker, which is free now. */
  ghost predicate FetchedAt(p: Pool, p': Pool, i: nat, out: Data)
    requires i < |p.busy|
  {
    Gave(p, p', p.busy[i], out) && p'.busy == p.busy[..i] + p.busy[i + 1..] && p'.free == p.free + [p.busy[i]]
  }

  lemma PollMainStep(work: Data -> Data, p: Pool, q: Pool)
    requires PollUnderway(p, q) && Inv(work, q)
    ensures PollUnderway(p, MainTurn(q))
  {
    hide WorkerInv, Partition, RolesInv, WakeInv, NewWorker, Overwrite;
    if q.main.ClearOut? {
      assert FetchedAt(p, MainTurn(q), q.main.i, q.main.out);
    }
  }

  lemma PollWorkerStep(work: Data -> Data, p: Pool, q: Pool, w: nat)
    requires PollUnderway(p, q)
    ensures PollUnderway(p, Step(work, q, WorkerStep(w)))
  {
    hide Turn;
    WorkerRecords(work, q, w);
    var q' := Step(work, q, WorkerStep(w));
    if q.main.Idle? && q.ret.Response? {
      var i :| 0 <= i < |p.busy| && FetchedAt(p, q, i, q.ret.out);
      assert FetchedAt(p, q', i, q.ret.out);
    }
  }

  lemma {:induction false} PollRuns(work: Data -> Data, p: Pool, space: nat, es: seq<Event>)
    requires Inv(work, p) && GoodWork(work) && p.main.Idle? && NoCalls(es)
    ensures var p' := Steps(work, Step(work, p, Poll(space)), es); Inv(work, p') && PollUnderway(p, p')
    decreases |es|
  {
    hide Inv, MainTurn, Turn;
    if es == [] {
      StepKeeps(work, p, Poll(space));
    } else {
      var q, e := Steps(work, Step(work, p, Poll(space)), es[..|es| - 1]), es[|es| - 1];
      PollRuns(work, p, space, es[..|es| - 1]);
      assert e in es;
      StepKeeps(work, q, e);
      if e.MainStep? { PollMainStep(work, p, q); } else { PollWorkerStep(work, p, q, e.w); }
    }
  }

  /**
    In every run a Poll that is over has answered NoResponse and fetched nothing, or has answered the response
    to the last request of the one worker that it fetched from.
   */
  lemma PollAnswers(work: Data -> Data, p: Pool, space: nat, es: seq<Event>)
    requires Inv(work, p) && GoodWork(work) && p.main.Idle? && NoCalls(es)
    requires Steps(work, Step(work, p, Poll(space)), es).main.Idle?
    ensures var p' := Steps(work, Step(work, p, Poll(space)), es);
            && (p'.ret == NoResponse || p'.ret.Response?)
            && (p'.ret == NoResponse <==> SameCollected(p, p'))
            && (p'.ret.Response? ==>
                  exists w: nat ::
                    && w in p.busy && w < |p.workers| && Gave(p, p', w, p'.ret.out) && p.workers[w].accepted != []
                    && p'.ret.out == work(p.workers[w].accepted[|p.workers[w].accepted| - 1]))
  {
    hide WakeInv, MainInv, Partition, Step;
    PollRuns(work, p, space, es);
    var p' := Steps(work, Step(work, p, Poll(space)), es);
    if p'.ret.Response? {
      var i :| 0 <= i < |p.busy| && FetchedAt(p, p', i, p'.ret.out);
      RightResponse(work, p, p', p.busy[i], p'.ret.out);
    }
  }

  /**
    In every run a Poll that begins while the `j`-th busy worker's response can be fetched, and fits the caller's
    buffer, is over after at most 3 * j + 5 accesses of the main thread, and has returned a response.
   */
  lemma PollReturns(work: Data -> Data, p: Pool, space: nat, j: nat, es: seq<Event>)
    requires Inv(work, p) && GoodWork(work) && p.main.Idle? && NoCalls(es)
    requires j < |p.busy| && p.busy[j] < |p.workers| && Fetchable(p.workers[p.busy[j]], space)
    requires MainTurns(es) >= 3 * j + 5
    ensures var p' := Steps(work, Step(work, p, Poll(space)), es); p'.main.Idle? && p'.ret.Response?
  {
    hide Inv, Ready, MainTurn;
    var p0 := Step(work, p, Poll(space));
    StepKeeps(work, p, Poll(space));
    assert forall e <- es :: Fair(e);
    PollFetches(work, p0, j, es);
    PollRuns(work, p, space, es);
  }

  lemma RightResponse(work: Data -> Data, p: Pool, p': Pool, w: nat, out: Data)
    requires SameAccepted(p, p') && Gave(p, p', w, out) && Owing(p.workers[w]) && WorkerInv(work, p'.workers[w])
    ensures p.workers[w].accepted != [] && out == work(p.workers[w].accepted[|p.workers[w].accepted| - 1])
  {
  }

  /** The response can be fetched into a buffer of this size. */
  predicate Fetchable(k: Worker, space: nat) {
    Ready(k) && k.outLen <= space
  }

  /** A call alone: the main thread runs and all workers stand still. */
  function MainAlone(p: Pool, n: nat): Pool
    decreases n
  {
    if n == 0 then p else MainAlone(MainTurn(p), n - 1)
  }

  /** The first worker from the i-th on whose response can be fetched. */
  function FirstReady(p: Pool, i: nat, space: nat): (j: nat)
    ensures i <= |p.busy| ==> i <= j <= |p.busy|
    decreases |p.busy| - i
  {
    if |p.busy| <= i || Fetchable(Busy(p, i), space) then i else FirstReady(p, i + 1, space)
  }

  function PollResult(p: Pool, j: nat): Pool {
    if |p.busy| <= j || |p.workers| <= p.busy[j] || |Busy(p, j).outbox| < Busy(p, j).outLen then
      p.(main := Idle, ret := NoResponse)
    else
      var w := p.busy[j];
      var out := p.workers[w].outbox[..p.workers[w].outLen];
      p.(workers := p.workers[w := p.workers[w].(outLen := 0, collected := p.workers[w].collected + [out])],
         busy := p.busy[..j] + p.busy[j + 1..], free := p.free + [w], main := Idle, ret := Response(out))
  }

  lemma {:induction false} IdleAlone(p: Pool, n: nat)
    requires p.main.Idle?
    ensures MainAlone(p, n) == p
  {
    if n > 0 { IdleAlone(p, n - 1); }
  }

  lemma FetchAlone(work: Data -> Data, p: Pool, i: nat, space: nat, n: nat)
    requires Inv(work, p) && p.main == Scan(i, space) && i < |p.busy| && Fetchable(Busy(p, i), space) && n >= 5
    ensures MainAlone(p, n) == PollResult(p, i)
  {
    hide Partition, RolesInv, WakeInv, NewWorker, Overwrite;
    var w := p.busy[i];
    assert w < |p.workers| by { BusyInRange(work, p, i); }
    assert WorkerInv(work, p.workers[w]);
    var p1 := p.(main := Fits(i, space));
    var p2 := p.(main := Any(i, space));
    var p3 := p.(main := CopyOut(i));
    var p4 := p.(main := ClearOut(i, p.workers[w].outbox[..p.workers[w].outLen]));
    assert MainTurn(p) == p1 && MainTurn(p1) == p2 && MainTurn(p2) == p3 && MainTurn(p3) == p4;
    var p5 := MainTurn(p4);
    assert p5 == PollResult(p, i);
    IdleAlone(p5, n - 5);
    assert MainAlone(p4, n - 4) == MainAlone(p5, n - 5);
    assert MainAlone(p3, n - 3) == MainAlone(p4, n - 4);
    assert MainAlone(p2, n - 2) == MainAlone(p3, n - 3);
    assert MainAlone(p1, n - 1) == MainAlone(p2, n - 2);
  }

  lemma BusyInRange(work: Data -> Data, p: Pool, i: nat)
    requires Inv(work, p) && i < |p.busy|
    ensures p.busy[i] < |p.workers|
  {
  }

  /** A worker that is busy, has nothing, or has too much is passed over. */
  lemma SkipAlone(p: Pool, i: nat, space: nat, n: nat) returns (k: nat)
    requires p.main == Scan(i, space) && i < |p.busy| && !Fetchable(Busy(p, i), space) && n >= 3
    ensures 1 <= k <= 3 && MainAlone(p, n) == MainAlone(p.(main := Scan(i + 1, space)), n - k)
  {
    hide NewWorker, Overwrite;
    var next := p.(main := Scan(i + 1, space));
    var p1, p2 := p.(main := Fits(i, space)), p.(main := Any(i, space));
    k := if Busy(p, i).busy then 1 else if space < Busy(p, i).outLen then 2 else 3;
    if Busy(p, i).busy {
      assert MainTurn(p) == next;
      assert MainAlone(p, n) == MainAlone(next, n - 1);
    } else if space < Busy(p, i).outLen {
      assert MainTurn(p) == p1 && MainTurn(p1) == next;
      assert MainAlone(p, n) == MainAlone(p1, n - 1);
      assert MainAlone(p1, n - 1) == MainAlone(next, n - 2);
    } else {
      assert MainTurn(p) == p1 && MainTurn(p1) == p2 && MainTurn(p2) == next;
      assert MainAlone(p, n) == MainAlone(p1, n - 1);
      assert MainAlone(p1, n - 1) == MainAlone(p2, n - 2);
      assert MainAlone(p2, n - 2) == MainAlone(next, n - 3);
    }
  }

  lemma {:induction false} ScanAlone(work: Data -> Data, p: Pool, i: nat, space: nat, n: nat)
    requires Inv(work, p) && p.main == Scan(i, space) && i <= |p.busy| && n >= 3 * (|p.busy| - i) + 5
    ensures MainAlone(p, n) == PollResult(p, FirstReady(p, i, space))
    decreases |p.busy| - i
  {
    hide WorkerInv, Partition, RolesInv, WakeInv, MainAlone, PollResult, NewWorker, Fetchable, Busy;
    if i == |p.busy| {
      EndAlone(p, i, space, n);
    } else if Fetchable(Busy(p, i), space) {
      FetchAlone(work, p, i, space, n);
    } else {
      var next := p.(main := Scan(i + 1, space));
      var k := SkipAlone(p, i, space, n);
      ScanOnInv(work, p, next);
      ScanAlone(work, next, i + 1, space, n - k);
      SameReady(p, next, i + 1, space);
    }
  }

  lemma ScanOnInv(work: Data -> Data, p: Pool, q: Pool)
    requires Inv(work, p) && p.main.Scan? && q.main.Scan? && q == p.(main := q.main)
    ensures Inv(work, q)
  {
    hide WorkerInv, Partition;
  }

  lemma EndAlone(p: Pool, i: nat, space: nat, n: nat)
    requires p.main == Scan(i, space) && i == |p.busy| && n > 0
    ensures MainAlone(p, n) == PollResult(p, i)
  {
    IdleAlone(MainTurn(p), n - 1);
  }

  lemma {:induction false} SameReady(p: Pool, q: Pool, i: nat, space: nat)
    requires q == p.(main := q.main)
    ensures FirstReady(q, i, space) == FirstReady(p, i, space)
    ensures PollResult(q, FirstReady(q, i, space)) == PollResult(p, FirstReady(p, i, space))
    decreases |p.busy| - i
  {
    if i < |p.busy| && !Fetchable(Busy(p, i), space) { SameReady(p, q, i + 1, space); }
  }

  /**
    With the workers standing still, HandleBusyThread returns the response of the first worker in the busy
    list that is not busy and has one that fits the buffer, and nothing exactly when there is none.
   */
  lemma PollAlone(work: Data -> Data, p: Pool, space: nat, n: nat)
    requires Inv(work, p) && GoodWork(work) && p.main.Idle? && n >= 3 * |p.busy| + 5
    ensures MainAlone(Step(work, p, Poll(space)), n) == PollResult(p, FirstReady(p, 0, space))
    ensures PollResult(p, FirstReady(p, 0, space)).ret.Response? <==>
              exists i :: 0 <= i < |p.busy| && p.busy[i] < |p.workers| && Fetchable(p.workers[p.busy[i]], space)
  {
    hide WorkerInv, Partition, RolesInv, WakeInv, MainAlone, PollResult, NewWorker, Fetchable, Busy, FirstReady;
    var p0 := Step(work, p, Poll(space));
    StepKeeps(work, p, Poll(space));
    ScanAlone(work, p0, 0, space, n);
    SameReady(p, p0, 0, space);
    ReadyFound(work, p, 0, space);
  }

  lemma {:induction false} ReadyFound(work: Data -> Data, p: Pool, i: nat, space: nat)
    requires Inv(work, p) && i <= |p.busy|
    ensures PollResult(p, FirstReady(p, i, space)).ret.Response? <==>
              exists j :: i <= j < |p.busy| && p.busy[j] < |p.workers| && Fetchable(p.workers[p.busy[j]], space)
    decreases |p.busy| - i
  {
    hide Partition, RolesInv, WakeInv, MainInv, NewWorker;
    if i < |p.busy| {
      BusyInRange(work, p, i);
      assert WorkerInv(work, p.workers[p.busy[i]]);
      if !Fetchable(Busy(p, i), space) { ReadyFound(work, p, i + 1, space); }
    }
  }

  // ---------- Submit ----------

  /** Where a Submit stands that began in `p`, and what it has returned if it is over. */
  ghost predicate SubmitUnderway(p: Pool, p': Pool, data: Data) {
    && SameCollected(p, p')
    && match p'.main
       case Deliver(d) => d == data && p.free != [] && Untaken(p, p')
       case CopyIn(d) => d == data && |data| <= MAX_INBOX && p.free != [] && Untaken(p, p')
       case SetIn(d) => d == data && |data| <= MAX_INBOX && p.free != [] && Untaken(p, p')
       case Unlock => |data| <= MAX_INBOX && p.free != [] && Taken(p, p', data)
       case Hand => |data| <= MAX_INBOX && p.free != [] && Taken(p, p', data)
       case Idle => if p'.ret == Ok then Handed(p, p', data) else p'.ret == Unexpect && Untaken(p, p')
       case _ => false
  }

  ghost predicate Taken(p: Pool, p': Pool, data: Data)
    requires p.free != []
  {
    Took(p, p', p.free[0], data) && p'.free == p.free && p'.busy == p.busy
  }

  ghost predicate Untaken(p: Pool, p': Pool) {
    SameAccepted(p, p') && p'.free == p.free && p'.busy == p.busy
  }

  /** The request is with the worker that was the first free one, now the last busy one. */
  ghost predicate Handed(p: Pool, p': Pool, data: Data) {
    && p.free != [] && |data| <= MAX_INBOX && Took(p, p', p.free[0], data)
    && p'.free == p.free[1..] && p'.busy == p.busy + [p.free[0]]
  }

  lemma SubmitMainStep(work: Data -> Data, p: Pool, q: Pool, data: Data)
    requires SubmitUnderway(p, q, data) && Inv(work, q)
    ensures SubmitUnderway(p, MainTurn(q), data)
  {
    hide WorkerInv, Partition, WakeInv, NewWorker, Overwrite;
  }

  lemma SubmitWorkerStep(work: Data -> Data, p: Pool, q: Pool, data: Data, w: nat)
    requires SubmitUnderway(p, q, data)
    ensures SubmitUnderway(p, Step(work, q, WorkerStep(w)), data)
  {
    hide Turn;
    WorkerRecords(work, q, w);
  }

  /**
    In every run a Submit that is over has answered Ok and handed its request to the first free worker, once,
    or has answered Unexpect and changed nothing.
   */
  lemma {:induction false} SubmitAnswers(work: Data -> Data, p: Pool, data: Data, es: seq<Event>)
    requires Inv(work, p) && GoodWork(work) && p.main.Idle? && data != [] && NoCalls(es)
    ensures var p' := Steps(work, Step(work, p, Submit(data)), es);
            && Inv(work, p') && SubmitUnderway(p, p', data)
            && (p'.main.Idle? ==> (p'.ret == Ok || p'.ret == Unexpect))
            && (p'.main.Idle? ==> (p'.ret == Ok <==> Handed(p, p', data)))
    decreases |es|
  {
    hide Inv, MainTurn, Turn;
    if es == [] {
      StepKeeps(work, p, Submit(data));
    } else {
      var q, e := Steps(work, Step(work, p, Submit(data)), es[..|es| - 1]), es[|es| - 1];
      SubmitAnswers(work, p, data, es[..|es| - 1]);
      assert e in es;
      StepKeeps(work, q, e);
      if e.MainStep? { SubmitMainStep(work, p, q, data); } else { SubmitWorkerStep(work, p, q, data, e.w); }
    }
  }

  /** The first free worker can take the request. */
  ghost predicate Welcome(p: Pool, data: Data) {
    && p.free != [] && p.free[0] < |p.workers| && |data| <= MAX_INBOX
    && p.workers[p.free[0]].inLen == 0
  }

  /** How many accesses of the main thread a Submit needs. */
  function SubmitLeft(m: Main): nat {
    match m
    case Deliver(_) => 5
    case CopyIn(_) => 4
    case SetIn(_) => 3
    case Unlock => 2
    case Hand => 1
    case _ => 0
  }

  lemma WelcomeStays(work: Data -> Data, p: Pool, w: nat, data: Data)
    requires Inv(work, p) && GoodWork(work) && Welcome(p, data)
    ensures Welcome(Step(work, p, WorkerStep(w)), data)
  {
    hide Partition, RolesInv, WakeInv, MainInv, WorkerInv, Turn;
    if w == p.free[0] { TurnKeeps(work, p.workers[w]); }
  }

  lemma SubmitTurn(work: Data -> Data, p: Pool, data: Data)
    requires Inv(work, p)
    ensures SubmitLeft(MainTurn(p).main) <= if SubmitLeft(p.main) > 0 then SubmitLeft(p.main) - 1 else 0
    ensures SubmitLeft(p.main) > 0 && MainTurn(p).main.Idle? && p.main == Deliver(data) ==> !Welcome(p, data)
    ensures p.main.Hand? ==> MainTurn(p).main.Idle? && MainTurn(p).ret == Ok
  {
    hide Partition, RolesInv, WakeInv, WorkerInv, Overwrite, NewWorker;
  }

  /**
    A Submit is over after at most five accesses of the main thread, whatever the workers do; and if the first
    free worker's inbox is clear when it begins and the request is not too long, it is accepted.
   */
  lemma {:induction false} SubmitEnds(work: Data -> Data, p: Pool, data: Data, es: seq<Event>)
    requires Inv(work, p) && GoodWork(work) && p.main.Idle? && data != [] && NoCalls(es)
    ensures var p' := Steps(work, Step(work, p, Submit(data)), es);
            && SubmitLeft(p'.main) <= (if MainTurns(es) < 5 then 5 - MainTurns(es) else 0)
            && (MainTurns(es) >= 5 ==> p'.main.Idle?)
            && (Welcome(p, data) && p'.main.Idle? ==> p'.ret == Ok)
            && (Welcome(p, data) && p'.main.Deliver? ==> Welcome(p', data))
    decreases |es|
  {
    hide Inv, MainTurn, Turn, Welcome, SubmitUnderway;
    var p0 := Step(work, p, Submit(data));
    var p' := Steps(work, p0, es);
    SubmitAnswers(work, p, data, es);
    SubmitOnly(p, p', data);
    if es == [] {
      WelcomeFree(p, data);
    } else {
      var q, e := Steps(work, p0, es[..|es| - 1]), es[|es| - 1];
      SubmitEnds(work, p, data, es[..|es| - 1]);
      SubmitAnswers(work, p, data, es[..|es| - 1]);
      SubmitOnly(p, q, data);
      assert e in es;
      if e.MainStep? {
        SubmitTurn(work, q, data);
        SubmitPasses(work, q);
      } else if Welcome(p, data) && q.main.Deliver? {
        WelcomeStays(work, q, e.w, data);
      }
    }
  }

  lemma SubmitOnly(p: Pool, q: Pool, data: Data)
    requires SubmitUnderway(p, q, data)
    ensures q.main.Idle? <==> SubmitLeft(q.main) == 0
    ensures q.main.Deliver? ==> q.main.data == data
  {
  }

  lemma WelcomeFree(p: Pool, data: Data)
    requires p.main.Idle?
    ensures Welcome(p, data) ==> p.free != [] && Welcome(p.(main := Deliver(data)), data)
  {
  }

  /** Past Deliver there is no way back, and the call ends at Hand only. */
  lemma SubmitPasses(work: Data -> Data, p: Pool)
    requires Inv(work, p)
    ensures p.main.CopyIn? || p.main.SetIn? || p.main.Unlock? ==> !MainTurn(p).main.Idle?
    ensures !MainTurn(p).main.Deliver?
    ensures p.main.Idle? ==> MainTurn(p) == p
  {
    hide Partition, RolesInv, WakeInv, WorkerInv, Overwrite, NewWorker;
  }

  // ---------- Empty requests and responses ----------

  /** The worker is in the busy list with neither a request to process nor a response to fetch. */
  ghost predicate Stranded(p: Pool, w: nat) {
    && Partition(p.free, p.busy, |p.workers|) && w in p.busy && w < |p.workers|
    && Spent(p.workers[w])
    && (p.main.CopyOut? || p.main.ClearOut? ==> p.main.i < |p.busy| && p.busy[p.main.i] != w)
  }

  predicate Spent(k: Worker) {
    && k.outLen == 0
    && match k.pc
       case Post(len) => len == 0
       case Clear => true
       case Rest => k.inLen == 0
       case Check => k.inLen == 0
       case Wait => k.inLen == 0
       case _ => false
  }

  lemma SpentStays(work: Data -> Data, k: Worker)
    requires Spent(k)
    ensures Spent(Turn(work, k)) && Turn(work, k).collected == k.collected
  {
  }

  /** Writes to the first free worker and moves between the lists leave it alone. */
  lemma StrandedMain(p: Pool, w: nat)
    requires Stranded(p, w)
    ensures Stranded(MainTurn(p), w) && MainTurn(p).workers[w] == p.workers[w]
  {
    hide Overwrite, Partition, Spent, NewWorker;
    Once(p.free, p.busy, |p.workers|);
    if p.main.Hand? {
      if p.free != [] {
        MoveKeeps(p.free, p.busy, |p.workers|, 0);
        assert p.free[..0] + p.free[1..] == p.free[1..];
      }
    } else if p.main.ClearOut? {
      StrandedClear(p, w);
    } else if p.main.Scan? || p.main.Fits? || p.main.Any? {
      StrandedScan(p, w);
    }
  }

  lemma StrandedClear(p: Pool, w: nat)
    requires Stranded(p, w) && p.main.ClearOut?
    ensures Stranded(MainTurn(p), w) && MainTurn(p).workers[w] == p.workers[w]
  {
    hide Partition, Spent, NewWorker, Overwrite;
    var i := p.main.i;
    Once(p.free, p.busy, |p.workers|);
    assert w in p.busy[..i] + p.busy[i + 1..];
    PartitionSwap(p.free, p.busy, |p.workers|);
    MoveKeeps(p.busy, p.free, |p.workers|, i);
    PartitionSwap(p.busy[..i] + p.busy[i + 1..], p.free + [p.busy[i]], |p.workers|);
  }

  lemma StrandedScan(p: Pool, w: nat)
    requires Stranded(p, w) && (p.main.Scan? || p.main.Fits? || p.main.Any?)
    ensures Stranded(MainTurn(p), w) && MainTurn(p).workers == p.workers
  {
    hide Partition, Overwrite;
  }

  lemma StrandedStep(work: Data -> Data, p: Pool, e: Event, w: nat)
    requires Stranded(p, w)
    ensures var p' := Step(work, p, e); Stranded(p', w) && p'.workers[w].collected == p.workers[w].collected
  {
    hide Turn, MainTurn, Partition, Spent;
    if e == WorkerStep(w) {
      SpentStays(work, p.workers[w]);
    } else if e.MainStep? {
      StrandedMain(p, w);
    }
  }

  /** Such a worker stays in the busy list for ever, and nothing is ever fetched from it, whatever happens. */
  lemma {:induction false} StrandedForever(work: Data -> Data, p: Pool, w: nat, es: seq<Event>)
    requires Stranded(p, w)
    ensures var p' := Steps(work, p, es); Stranded(p', w) && p'.workers[w].collected == p.workers[w].collected
    decreases |es|
  {
    hide Step, Stranded;
    StrandedIn(p, w);
    if es != [] {
      var q := Steps(work, p, es[..|es| - 1]);
      StrandedForever(work, p, w, es[..|es| - 1]);
      StrandedIn(q, w);
      StrandedStep(work, q, es[|es| - 1], w);
    }
  }

  lemma StrandedIn(p: Pool, w: nat)
    requires Stranded(p, w)
    ensures w < |p.workers|
  {
  }

  /** An empty request is accepted like any other, and strands its worker. */
  lemma EmptyRequestStrands(work: Data -> Data, p: Pool)
    requires Inv(work, p) && p.main.Idle? && Welcome(p, [])
    ensures var p' := MainAlone(Step(work, p, Submit([])), 5);
            p'.main.Idle? && p'.ret == Ok && Stranded(p', p.free[0])
  {
    hide Partition, WakeInv, NewWorker, Overwrite, WorkerInv, RolesInv, MainInv;
    AtRest(work, p);
    var w := p.free[0];
    var k := p.workers[w];
    var k1 := k.(inbox := Overwrite(k.inbox, []));
    var k2 := k1.(inLen := 0, accepted := k.accepted + [[]]);
    var k3 := k2.(token := true);
    var p0 := p.(main := Deliver([]));
    var p1 := p.(main := CopyIn([]));
    var p2 := p.(workers := p.workers[w := k1], main := SetIn([]));
    var p3 := p.(workers := p.workers[w := k2], main := Unlock);
    var p4 := p.(workers := p.workers[w := k3], main := Hand);
    var p5 := p4.(free := p.free[1..], busy := p.busy + [w], main := Idle, ret := Ok);
    assert MainTurn(p0) == p1 && MainTurn(p1) == p2;
    assert MainTurn(p2) == p3 && MainTurn(p3) == p4 && MainTurn(p4) == p5;
    FiveTurns(p0, p1, p2, p3, p4, p5);
    MoveKeeps(p.free, p.busy, |p.workers|, 0);
    assert p.free[..0] + p.free[1..] == p.free[1..];
  }

  lemma AtRest(work: Data -> Data, p: Pool)
    requires Inv(work, p) && p.main.Idle? && Welcome(p, [])
    ensures Spent(p.workers[p.free[0]]) && !p.workers[p.free[0]].pc.Post? && !p.workers[p.free[0]].pc.Clear?
  {
    hide Partition, WakeInv, MainInv;
    assert WorkerInv(work, p.workers[p.free[0]]) && Settled(p.workers[p.free[0]]);
  }

  lemma FiveTurns(p0: Pool, p1: Pool, p2: Pool, p3: Pool, p4: Pool, p5: Pool)
    requires MainTurn(p0) == p1 && MainTurn(p1) == p2 && MainTurn(p2) == p3 && MainTurn(p3) == p4 && MainTurn(p4) == p5
    ensures MainAlone(p0, 5) == p5
  {
    hide MainTurn;
    assert MainAlone(p4, 1) == MainAlone(p5, 0) == p5;
    assert MainAlone(p3, 2) == MainAlone(p4, 1) && MainAlone(p2, 3) == MainAlone(p3, 2);
    assert MainAlone(p1, 4) == MainAlone(p2, 3);
  }

  /** So does an empty response, once the worker's Process has returned it. */
  lemma EmptyResponseStrands(work: Data -> Data, p: Pool, w: nat)
    requires Inv(work, p) && w in p.busy && w < |p.workers| && p.workers[w].pc.Work?
    requires p.workers[w].inLen <= |p.workers[w].inbox| && work(p.workers[w].inbox[..p.workers[w].inLen]) == []
    ensures Stranded(Step(work, p, WorkerStep(w)), w)
  {
    hide Partition, WakeInv, RolesInv, Overwrite;
    assert WorkerInv(work, p.workers[w]);
  }
}
