/**
  The mailbox protocol between a main thread and its workers, one step per access to shared memory,
  in any interleaving. The wake mutex acts as a binary semaphore: unlocking it leaves one token.
  `accepted`, `processed` and `collected` record what happened; no step reads them.
 */
module ThreadPool {
  import opened Bytes

  const MAX_INBOX := 8 * 1024
  const MAX_OUTBOX := 16 * 1024

  type Data = seq<Byte>

  /** Where a worker is inside Run. */
  datatype Pc =
    | Check              // about to read inbox_len_
    | Wait               // blocked on the wake mutex
    | MarkBusy
    | Guard              // about to read outbox_len_ ("should not happen here")
    | Work               // inside the virtual Process
    | Post(len: nat)     // about to write outbox_len_
    | Clear              // about to zero inbox_len_
    | Rest               // about to clear busy_

  datatype Worker = Worker(
    pc: Pc, busy: bool, token: bool,
    inLen: nat, inbox: Data, outLen: nat, outbox: Data,
    accepted: seq<Data>, processed: seq<Data>, collected: seq<Data>)

  /** Where the main thread is inside CThreadPool::Process or HandleBusyThread. */
  datatype Main =
    | Idle
    | Deliver(data: Data)            // about to read inbox_len_ of the first free worker
    | CopyIn(data: Data)
    | SetIn(data: Data)              // about to write inbox_len_
    | Unlock
    | Hand                           // about to move the worker to the busy list
    | Scan(i: nat, space: nat)       // about to read busy_ of the i-th busy worker
    | Fits(i: nat, space: nat)       // about to compare outbox_len_ with the caller's buffer
    | Any(i: nat, space: nat)        // about to compare outbox_len_ with 0
    | CopyOut(i: nat)
    | ClearOut(i: nat, out: Data)

  datatype Ret = Ok | Unexpect | NoResponse | Response(out: Data)

  datatype Pool = Pool(workers: seq<Worker>, free: seq<nat>, busy: seq<nat>, main: Main, ret: Ret)

  datatype Event = Submit(data: Data) | Poll(space: nat) | MainStep | WorkerStep(w: nat)

  /** What the source asks of its users: requests and responses are not empty. */
  ghost predicate Fair(e: Event) {
    match e
    case Submit(data) => data != []
    case _ => true
  }

  ghost predicate GoodWork(work: Data -> Data) {
    forall d :: d != [] ==> 0 < |work(d)| <= MAX_OUTBOX
  }

  function Overwrite(buf: Data, d: Data): (buf': Data)
    ensures |d| <= |buf'| && buf'[..|d|] == d
    ensures |d| <= |buf| ==> |buf'| == |buf|
  {
    if |d| <= |buf| then d + buf[|d|..] else d
  }

  function NewWorker(): Worker {
    Worker(Check, false, false, 0, Zeros(MAX_INBOX), 0, Zeros(MAX_OUTBOX), [], [], [])
  }

  function NewPool(n: nat): Pool {
    Pool(seq(n, _ => NewWorker()), seq(n, i => i), [], Idle, Ok)
  }

  /** One access of Run. A worker blocked on the mutex does not move without a token. */
  function Turn(work: Data -> Data, k: Worker): Worker {
    match k.pc
    case Check => if k.inLen == 0 then k.(pc := Wait) else k.(pc := MarkBusy)
    case Wait => if k.token then k.(pc := Check, token := false) else k
    case MarkBusy => k.(pc := Guard, busy := true)
    case Guard => if k.outLen != 0 then k else k.(pc := Work)
    case Work =>
      if |k.inbox| < k.inLen then k
      else
        var input := k.inbox[..k.inLen];
        var out := work(input);
        k.(pc := Post(|out|), outbox := Overwrite(k.outbox, out), processed := k.processed + [input])
    case Post(len) => k.(pc := Clear, outLen := len)
    case Clear => k.(pc := Rest, inLen := 0)
    case Rest => k.(pc := Check, busy := false)
  }

  /** One access of the main thread. */
  function MainTurn(p: Pool): (p': Pool)
    ensures |p'.workers| == |p.workers|
  {
    match p.main
    case Idle => p
    case Deliver(data) =>
      if p.free == [] || |p.workers| <= p.free[0] then p.(main := Idle, ret := Unexpect)
      else if p.workers[p.free[0]].inLen != 0 || MAX_INBOX < |data| then p.(main := Idle, ret := Unexpect)
      else p.(main := CopyIn(data))
    case CopyIn(data) =>
      SetFirst(p, First(p).(inbox := Overwrite(First(p).inbox, data))).(main := SetIn(data))
    case SetIn(data) =>
      SetFirst(p, First(p).(inLen := |data|, accepted := First(p).accepted + [data])).(main := Unlock)
    case Unlock =>
      SetFirst(p, First(p).(token := true)).(main := Hand)
    case Hand =>
      if p.free == [] then p else p.(free := p.free[1..], busy := p.busy + [p.free[0]], main := Idle, ret := Ok)
    case Scan(i, space) =>
      if |p.busy| <= i then p.(main := Idle, ret := NoResponse)
      else if Busy(p, i).busy then p.(main := Scan(i + 1, space))
      else p.(main := Fits(i, space))
    case Fits(i, space) =>
      if space < Busy(p, i).outLen then p.(main := Scan(i + 1, space)) else p.(main := Any(i, space))
    case Any(i, space) =>
      if Busy(p, i).outLen == 0 then p.(main := Scan(i + 1, space)) else p.(main := CopyOut(i))
    case CopyOut(i) =>
      if |Busy(p, i).outbox| < Busy(p, i).outLen then p
      else p.(main := ClearOut(i, Busy(p, i).outbox[..Busy(p, i).outLen]))
    case ClearOut(i, out) =>
      if |p.busy| <= i || |p.workers| <= p.busy[i] then p
      else
        var w := p.busy[i];
        var k := p.workers[w];
        p.(workers := p.workers[w := k.(outLen := 0, collected := k.collected + [out])],
           busy := p.busy[..i] + p.busy[i + 1..], free := p.free + [w], main := Idle, ret := Response(out))
  }

  /** The first free worker, and writing to it. */
  function First(p: Pool): Worker {
    if p.free != [] && p.free[0] < |p.workers| then p.workers[p.free[0]] else NewWorker()
  }

  function SetFirst(p: Pool, k: Worker): Pool {
    if p.free != [] && p.free[0] < |p.workers| then p.(workers := p.workers[p.free[0] := k]) else p
  }

  function Busy(p: Pool, i: nat): Worker {
    if i < |p.busy| && p.busy[i] < |p.workers| then p.workers[p.busy[i]] else NewWorker()
  }

  function Step(work: Data -> Data, p: Pool, e: Event): (p': Pool)
    ensures |p'.workers| == |p.workers|
  {
    match e
    case Submit(data) =>
      if !p.main.Idle? then p
      else if p.free == [] then p.(ret := Unexpect)
      else p.(main := Deliver(data))
    case Poll(space) => if p.main.Idle? then p.(main := Scan(0, space)) else p
    case MainStep => MainTurn(p)
    case WorkerStep(w) => if w < |p.workers| then p.(workers := p.workers[w := Turn(work, p.workers[w])]) else p
  }

  /** Any interleaving is a sequence of events. */
  function Steps(work: Data -> Data, p: Pool, es: seq<Event>): (p': Pool)
    ensures |p'.workers| == |p.workers|
    decreases |es|
  {
    if es == [] then p else Step(work, Steps(work, p, es[..|es| - 1]), es[|es| - 1])
  }

  // ---------- The invariant ----------

  /** A request lies in the inbox that Process has not seen yet. */
  predicate Unprocessed(k: Worker) {
    k.inLen != 0 && !k.pc.Post? && !k.pc.Clear?
  }

  /** A response lies in the outbox that the main thread has not fetched yet. */
  predicate Unfetched(k: Worker) {
    k.outLen != 0 || k.pc.Post?
  }

  ghost predicate WorkerInv(work: Data -> Data, k: Worker) {
    && |k.inbox| == MAX_INBOX && |k.outbox| == MAX_OUTBOX
    && (k.busy <==> !k.pc.Check? && !k.pc.Wait? && !k.pc.MarkBusy?)
    && (k.pc.MarkBusy? || k.pc.Guard? || k.pc.Work? || k.pc.Post? || k.pc.Clear? ==> k.inLen != 0)
    && (k.pc.Post? ==> k.outLen == 0)
    && (if Unprocessed(k) then
          && 0 < k.inLen <= MAX_INBOX && !Unfetched(k)
          && k.accepted == k.processed + [k.inbox[..k.inLen]]
          && k.inbox[..k.inLen] != []
        else k.accepted == k.processed)
    && (Unfetched(k) ==>
          && 0 < OutLen(k) <= MAX_OUTBOX && k.processed != []
          && k.outbox[..OutLen(k)] == work(k.processed[|k.processed| - 1]))
    && |k.processed| == |k.collected| + (if Unfetched(k) then 1 else 0)
    && (forall i :: 0 <= i < |k.collected| ==> k.collected[i] == work(k.processed[i]))
  }

  function OutLen(k: Worker): nat {
    if k.pc.Post? then k.pc.len else k.outLen
  }

  predicate Settled(k: Worker) {
    |k.collected| == |k.accepted|
  }

  predicate Owing(k: Worker) {
    |k.accepted| == |k.collected| + 1
  }

  /** The main thread has handed a request to the first free worker but not yet moved it. */
  predicate Handing(m: Main) {
    m.Unlock? || m.Hand?
  }

  /** The two lists together hold every worker exactly once. */
  ghost predicate Partition(free: seq<nat>, busy: seq<nat>, n: nat) {
    forall w: nat :: multiset(free)[w] + multiset(busy)[w] == if w < n then 1 else 0
  }

  ghost predicate MainInv(p: Pool) {
    && (p.main.CopyIn? || p.main.SetIn? || Handing(p.main) ==> p.free != [])
    && (p.main.Deliver? ==> p.main.data != [])
    && (p.main.CopyIn? || p.main.SetIn? ==>
          && p.free[0] < |p.workers| && p.workers[p.free[0]].inLen == 0 && 0 < |p.main.data| <= MAX_INBOX)
    && (p.main.SetIn? ==>
          var k := p.workers[p.free[0]]; |p.main.data| <= |k.inbox| && k.inbox[..|p.main.data|] == p.main.data)
    && (p.main.Fits? || p.main.Any? || p.main.CopyOut? || p.main.ClearOut? ==>
          p.main.i < |p.busy| && p.busy[p.main.i] < |p.workers|)
    && (p.main.CopyOut? || p.main.ClearOut? ==> p.workers[p.busy[p.main.i]].outLen != 0)
    && (p.main.ClearOut? ==>
          var k := p.workers[p.busy[p.main.i]]; k.outLen <= |k.outbox| && p.main.out == k.outbox[..k.outLen])
  }

  /** The worker will wake: whoever waits with a request has a token, or will get one at once. */
  ghost predicate WakeInv(p: Pool) {
    forall w :: 0 <= w < |p.workers| && p.workers[w].pc.Wait? && p.workers[w].inLen != 0 ==>
      p.workers[w].token || (p.main.Unlock? && p.free != [] && p.free[0] == w)
  }

  ghost predicate RolesInv(p: Pool) {
    && (forall i :: 0 <= i < |p.free| ==> p.free[i] < |p.workers|)
    && (forall i :: 0 <= i < |p.busy| ==> p.busy[i] < |p.workers| && Owing(p.workers[p.busy[i]]))
    && (forall i :: 0 <= i < |p.free| ==>
          if i == 0 && Handing(p.main) then Owing(p.workers[p.free[i]]) else Settled(p.workers[p.free[i]]))
  }

  ghost predicate Inv(work: Data -> Data, p: Pool) {
    && Partition(p.free, p.busy, |p.workers|) && RolesInv(p) && MainInv(p) && WakeInv(p)
    && forall w :: 0 <= w < |p.workers| ==> WorkerInv(work, p.workers[w])
  }

  lemma NewPoolInv(work: Data -> Data, n: nat)
    ensures Inv(work, NewPool(n))
  {
    var p := NewPool(n);
    forall w: nat ensures multiset(p.free)[w] == if w < n then 1 else 0 { CountUpTo(n, w); }
  }

  lemma {:induction false} CountUpTo(n: nat, w: nat)
    ensures multiset(seq(n, i => i))[w] == if w < n then 1 else 0
  {
    if n > 0 {
      CountUpTo(n - 1, w);
      assert seq(n, i => i) == seq(n - 1, i => i) + [n - 1];
    }
  }

  /** Every access of Run keeps the worker's part, and settles or owes nothing new. */
  lemma TurnKeeps(work: Data -> Data, k: Worker)
    requires WorkerInv(work, k) && GoodWork(work)
    ensures var k' := Turn(work, k);
            && WorkerInv(work, k') && k'.accepted == k.accepted && k'.collected == k.collected
            && (k'.pc.Wait? && k'.inLen != 0 ==> k.pc.Wait? && k'.token == k.token)
            && (k.inLen == 0 ==> k'.inLen == 0 && k'.inbox == k.inbox)
            && (k.outLen != 0 ==> k'.outLen == k.outLen && k'.outbox == k.outbox)
  {
  }

  lemma FillKeeps(work: Data -> Data, k: Worker, data: Data)
    requires WorkerInv(work, k) && k.inLen == 0 && |data| <= MAX_INBOX
    ensures WorkerInv(work, k.(inbox := Overwrite(k.inbox, data)))
  {
  }

  lemma PostKeeps(work: Data -> Data, k: Worker, data: Data)
    requires WorkerInv(work, k) && k.inLen == 0 && Settled(k)
    requires 0 < |data| <= MAX_INBOX && k.inbox[..|data|] == data
    ensures WorkerInv(work, k.(inLen := |data|, accepted := k.accepted + [data]))
  {
  }

  lemma TokenKeeps(work: Data -> Data, k: Worker)
    requires WorkerInv(work, k)
    ensures WorkerInv(work, k.(token := true))
  {
  }

  lemma WorkerStepKeeps(work: Data -> Data, p: Pool, w: nat)
    requires Inv(work, p) && GoodWork(work) && w < |p.workers|
    ensures Inv(work, Step(work, p, WorkerStep(w)))
  {
    hide Turn, WorkerInv, Partition;
    TurnKeeps(work, p.workers[w]);
  }

  /** Nobody is in two places of the two lists. */
  lemma Once(free: seq<nat>, busy: seq<nat>, n: nat)
    requires Partition(free, busy, n)
    ensures forall i, j :: 0 <= i < j < |free| ==> free[i] != free[j]
    ensures forall i, j :: 0 <= i < j < |busy| ==> busy[i] != busy[j]
    ensures forall i, j :: 0 <= i < |free| && 0 <= j < |busy| ==> free[i] != busy[j]
  {
    forall i, j | 0 <= i < j < |free| ensures free[i] != free[j] { Twice(free, i, j); }
    forall i, j | 0 <= i < j < |busy| ensures busy[i] != busy[j] { Twice(busy, i, j); }
    forall i, j | 0 <= i < |free| && 0 <= j < |busy| ensures free[i] != busy[j] {
      assert free[i] in multiset(free) && busy[j] in multiset(busy);
    }
  }

  lemma Twice(s: seq<nat>, i: nat, j: nat)
    requires i < j < |s|
    ensures s[i] == s[j] ==> multiset(s)[s[i]] >= 2
  {
    assert s == s[..j] + s[j..] && s[i] in multiset(s[..j]) && s[j] in multiset(s[j..]);
  }

  /** Moving a worker from one list to the end of the other keeps the partition. */
  lemma MoveKeeps(from: seq<nat>, to: seq<nat>, n: nat, i: nat)
    requires i < |from| && Partition(from, to, n)
    ensures Partition(from[..i] + from[i + 1..], to + [from[i]], n)
  {
    assert from == from[..i] + [from[i]] + from[i + 1..];
  }

  /** Writing to the first free worker disturbs no other. */
  lemma FirstWriteKeeps(work: Data -> Data, p: Pool)
    requires Inv(work, p) && (p.main.CopyIn? || p.main.SetIn? || p.main.Unlock?)
    ensures Inv(work, MainTurn(p))
  {
    hide WorkerInv, Partition, Overwrite, NewWorker;
    Once(p.free, p.busy, |p.workers|);
    var k := p.workers[p.free[0]];
    match p.main
    case CopyIn(data) => FillKeeps(work, k, data);
    case SetIn(data) => PostKeeps(work, k, data);
    case Unlock => TokenKeeps(work, k);
  }

  lemma HandKeeps(work: Data -> Data, p: Pool)
    requires Inv(work, p) && p.main.Hand?
    ensures Inv(work, MainTurn(p))
  {
    hide WorkerInv, Partition;
    MoveKeeps(p.free, p.busy, |p.workers|, 0);
    assert p.free[..0] + p.free[1..] == p.free[1..];
  }

  lemma ScanMain(p: Pool)
    requires MainInv(p) && (p.main.Deliver? || p.main.Scan? || p.main.Fits? || p.main.Any? || p.main.CopyOut?)
    requires forall i :: 0 <= i < |p.busy| ==> p.busy[i] < |p.workers|
    ensures var p' := MainTurn(p);
            && MainInv(p') && p'.workers == p.workers && p'.free == p.free && p'.busy == p.busy
            && !Handing(p'.main) && !p'.main.Unlock?
  {
    hide NewWorker, Overwrite;
  }

  lemma ScanKeeps(work: Data -> Data, p: Pool)
    requires Inv(work, p) && (p.main.Deliver? || p.main.Scan? || p.main.Fits? || p.main.Any? || p.main.CopyOut?)
    ensures Inv(work, MainTurn(p))
  {
    hide WorkerInv, Partition, MainInv, MainTurn;
    ScanMain(p);
  }

  lemma ClearRoles(work: Data -> Data, p: Pool)
    requires Inv(work, p) && p.main.ClearOut?
    ensures RolesInv(MainTurn(p))
  {
    hide WorkerInv, Partition, WakeInv;
    Once(p.free, p.busy, |p.workers|);
  }

  lemma ClearWorkers(work: Data -> Data, p: Pool)
    requires Inv(work, p) && p.main.ClearOut?
    ensures forall w :: 0 <= w < |p.workers| ==> WorkerInv(work, MainTurn(p).workers[w])
  {
  }

  lemma ClearKeeps(work: Data -> Data, p: Pool)
    requires Inv(work, p) && p.main.ClearOut?
    ensures Inv(work, MainTurn(p))
  {
    hide WorkerInv, Partition, RolesInv;
    ClearRoles(work, p);
    ClearWorkers(work, p);
    PartitionSwap(p.free, p.busy, |p.workers|);
    MoveKeeps(p.busy, p.free, |p.workers|, p.main.i);
    PartitionSwap(p.busy[..p.main.i] + p.busy[p.main.i + 1..], p.free + [p.busy[p.main.i]], |p.workers|);
  }

  lemma PartitionSwap(free: seq<nat>, busy: seq<nat>, n: nat)
    requires Partition(free, busy, n)
    ensures Partition(busy, free, n)
  {
  }

  /** Every step of every thread keeps the invariant. */
  lemma StepKeeps(work: Data -> Data, p: Pool, e: Event)
    requires Inv(work, p) && GoodWork(work) && Fair(e)
    ensures Inv(work, Step(work, p, e))
  {
    hide WorkerInv, Partition, RolesInv, WakeInv, MainTurn;
    match e
    case Submit(_) => CallKeeps(work, p, e);
    case Poll(_) => CallKeeps(work, p, e);
    case WorkerStep(w) => if w < |p.workers| { WorkerStepKeeps(work, p, w); }
    case MainStep =>
      if p.main.Idle? { IdleStays(p); }
      else if p.main.CopyIn? || p.main.SetIn? || p.main.Unlock? { FirstWriteKeeps(work, p); }
      else if p.main.Hand? { HandKeeps(work, p); }
      else if p.main.ClearOut? { ClearKeeps(work, p); }
      else { ScanKeeps(work, p); }
  }

  lemma IdleStays(p: Pool)
    requires p.main.Idle?
    ensures MainTurn(p) == p
  {
  }

  lemma CallKeeps(work: Data -> Data, p: Pool, e: Event)
    requires Inv(work, p) && Fair(e) && (e.Submit? || e.Poll?)
    ensures Inv(work, Step(work, p, e))
  {
    hide WorkerInv, Partition;
  }

  lemma {:induction false} InvInEveryRun(work: Data -> Data, n: nat, es: seq<Event>)
    requires GoodWork(work) && forall e <- es :: Fair(e)
    ensures Inv(work, Steps(work, NewPool(n), es))
    decreases |es|
  {
    hide Inv, Step, NewPool;
    if es == [] {
      NewPoolInv(work, n);
    } else {
      InvInEveryRun(work, n, es[..|es| - 1]);
      assert es[|es| - 1] in es;
      StepKeeps(work, Steps(work, NewPool(n), es[..|es| - 1]), es[|es| - 1]);
    }
  }

  // ---------- What holds in every run ----------

  /** The run of any number of workers under any fair events. */
  ghost predicate Reached(work: Data -> Data, n: nat, es: seq<Event>, p: Pool) {
    GoodWork(work) && (forall e <- es :: Fair(e)) && p == Steps(work, NewPool(n), es)
  }

  /**
    Each accepted request is processed once, in order, and its response is fetched at most once, in
    order and with the right bytes; a worker owes at most one response, and owes one exactly when it
    is in the busy list or about to be moved there.
   */
  lemma ExactlyOnce(work: Data -> Data, n: nat, es: seq<Event>, p: Pool, w: nat)
    requires Reached(work, n, es, p) && w < |p.workers|
    ensures var k := p.workers[w];
            && k.processed <= k.accepted && |k.accepted| <= |k.processed| + 1
            && |k.collected| <= |k.processed| && |k.accepted| <= |k.collected| + 1
            && (forall i :: 0 <= i < |k.collected| ==> k.collected[i] == work(k.accepted[i]))
            && (Owing(k) <==> w in p.busy || (Handing(p.main) && p.free != [] && p.free[0] == w))
  {
    hide WakeInv, MainInv;
    InvInEveryRun(work, n, es);
    Once(p.free, p.busy, |p.workers|);
    assert w in multiset(p.free) || w in multiset(p.busy);
  }

  /** No mailbox is ever touched by both threads at once. */
  lemma NeverTogether(work: Data -> Data, n: nat, es: seq<Event>, p: Pool, w: nat)
    requires Reached(work, n, es, p) && w < |p.workers| && p.workers[w].pc.Work?
    ensures p.main.CopyIn? ==> p.free != [] && p.free[0] != w
    ensures p.main.CopyOut? ==> p.main.i < |p.busy| && p.busy[p.main.i] != w
  {
    hide Partition, RolesInv, WakeInv;
    InvInEveryRun(work, n, es);
    assert WorkerInv(work, p.workers[w]);
  }

  /** The worker's loop that "should not happen" never runs, and Process gets the request as accepted. */
  lemma GuardNeverSpins(work: Data -> Data, n: nat, es: seq<Event>, p: Pool, w: nat)
    requires Reached(work, n, es, p) && w < |p.workers|
    ensures var k := p.workers[w];
            && (k.pc.Guard? ==> Turn(work, k).pc.Work?)
            && (k.pc.Work? ==> Turn(work, k).processed == k.accepted)
  {
    hide Partition, RolesInv, WakeInv, MainInv;
    InvInEveryRun(work, n, es);
    assert WorkerInv(work, p.workers[w]);
  }

  /** IsBusy tells the truth: the flag is set from before Process until the response is out and the inbox clear. */
  lemma BusyShown(work: Data -> Data, n: nat, es: seq<Event>, p: Pool, w: nat)
    requires Reached(work, n, es, p) && w < |p.workers|
    ensures var pc := p.workers[w].pc;
            p.workers[w].busy <==> pc.Guard? || pc.Work? || pc.Post? || pc.Clear? || pc.Rest?
  {
    hide Partition, RolesInv, WakeInv, MainInv;
    InvInEveryRun(work, n, es);
    assert WorkerInv(work, p.workers[w]);
  }

  /** A worker blocked with a request in its inbox has a token, unless the unlock is the very next step. */
  lemma NoLostWakeUp(work: Data -> Data, n: nat, es: seq<Event>, p: Pool, w: nat)
    requires Reached(work, n, es, p) && w < |p.workers| && p.workers[w].pc.Wait? && p.workers[w].inLen != 0
    ensures p.workers[w].token || (p.main.Unlock? && p.free != [] && p.free[0] == w)
  {
    hide Partition, RolesInv, MainInv, WorkerInv;
    InvInEveryRun(work, n, es);
  }

  /** The free and the busy list always hold the initial workers, each exactly once. */
  lemma WorkersConserved(work: Data -> Data, n: nat, es: seq<Event>)
    requires GoodWork(work) && forall e <- es :: Fair(e)
    ensures var p := Steps(work, NewPool(n), es); |p.workers| == n && Partition(p.free, p.busy, n)
  {
    hide Partition, RolesInv, MainInv, WorkerInv, WakeInv;
    InvInEveryRun(work, n, es);
  }

  /** A free worker refuses a request of legal size exactly while it has yet to zero its inbox length. */
  lemma RefusesIff(work: Data -> Data, n: nat, es: seq<Event>, p: Pool)
    requires Reached(work, n, es, p) && p.main.Deliver? && p.free != [] && |p.main.data| <= MAX_INBOX
    ensures p.free[0] < |p.workers|
    ensures MainTurn(p).main.Idle? <==> p.workers[p.free[0]].pc.Clear?
  {
    hide WakeInv;
    InvInEveryRun(work, n, es);
    assert WorkerInv(work, p.workers[p.free[0]]);
    assert Settled(p.workers[p.free[0]]);
  }

  lemma Snoc(work: Data -> Data, n: nat, es: seq<Event>, p: Pool, e: Event)
    requires Reached(work, n, es, p) && Fair(e)
    ensures Reached(work, n, es + [e], Step(work, p, e))
  {
  }

  /** One worker whose only fields of interest are its place and its two lengths. */
  ghost predicate Lone(p: Pool, pc: Pc, inLen: nat, outLen: nat) {
    |p.workers| == 1 && var k := p.workers[0]; k.pc == pc && k.inLen == inLen && k.outLen == outLen
  }

  lemma HandsOver(work: Data -> Data, d: Data) returns (es: seq<Event>, p: Pool)
    requires GoodWork(work) && |d| == 1
    ensures Reached(work, 1, es, p) && p.main == Idle && p.free == [] && p.busy == [0]
    ensures Lone(p, Check, 1, 0) && !p.workers[0].busy
    ensures |p.workers[0].inbox| == MAX_INBOX && |p.workers[0].outbox| == MAX_OUTBOX
  {
    hide Overwrite, Zeros, Turn;
    es, p := [], NewPool(1);
    assert Reached(work, 1, es, p);
    hide Reached;
    var plan := [Submit(d), MainStep, MainStep, MainStep, MainStep, MainStep];
    for i := 0 to 6
      invariant Reached(work, 1, es, p) && |p.workers| == 1
      invariant p.free == (if i < 6 then [0] else []) && p.busy == if i < 6 then [] else [0]
      invariant p.main == [Idle, Deliver(d), CopyIn(d), SetIn(d), Unlock, Hand, Idle][i]
      invariant Lone(p, Check, if i < 4 then 0 else 1, 0) && !p.workers[0].busy
      invariant |p.workers[0].inbox| == MAX_INBOX && |p.workers[0].outbox| == MAX_OUTBOX
    {
      Snoc(work, 1, es, p, plan[i]);
      es, p := es + [plan[i]], Step(work, p, plan[i]);
    }
  }

  /** The worker wakes, and the main thread finds it not yet busy. */
  lemma Overlooked(work: Data -> Data, d: Data) returns (es: seq<Event>, p: Pool)
    requires GoodWork(work) && |d| == 1
    ensures Reached(work, 1, es, p) && p.main == Fits(0, MAX_OUTBOX) && p.free == [] && p.busy == [0]
    ensures Lone(p, MarkBusy, 1, 0) && |p.workers[0].inbox| == MAX_INBOX && |p.workers[0].outbox| == MAX_OUTBOX
  {
    es, p := HandsOver(work, d);
    hide Overwrite, Reached, NewWorker;
    var plan := [WorkerStep(0), Poll(MAX_OUTBOX), MainStep];
    for i := 0 to 3
      invariant Reached(work, 1, es, p) && |p.workers| == 1 && p.free == [] && p.busy == [0]
      invariant p.main == if i < 2 then Idle else if i == 2 then Scan(0, MAX_OUTBOX) else Fits(0, MAX_OUTBOX)
      invariant Lone(p, if i == 0 then Check else MarkBusy, 1, 0) && !p.workers[0].busy
      invariant |p.workers[0].inbox| == MAX_INBOX && |p.workers[0].outbox| == MAX_OUTBOX
    {
      Snoc(work, 1, es, p, plan[i]);
      es, p := es + [plan[i]], Step(work, p, plan[i]);
    }
  }

  /** Then the worker runs up to its last writes. */
  lemma Overtakes(work: Data -> Data, d: Data) returns (es: seq<Event>, p: Pool, n: nat)
    requires GoodWork(work) && |d| == 1
    ensures Reached(work, 1, es, p) && p.main == Fits(0, MAX_OUTBOX) && p.free == [] && p.busy == [0]
    ensures 0 < n <= MAX_OUTBOX && Lone(p, Clear, 1, n) && |p.workers[0].outbox| == MAX_OUTBOX
  {
    es, p := Overlooked(work, d);
    var input := p.workers[0].inbox[..1];
    n := |work(input)|;
    hide Overwrite, Reached, MainTurn, GoodWork;
    for i := 0 to 4
      invariant Reached(work, 1, es, p) && |p.workers| == 1
      invariant p.free == [] && p.busy == [0] && p.main == Fits(0, MAX_OUTBOX)
      invariant Lone(p, [MarkBusy, Guard, Work, Post(n), Clear][i], 1, if i < 4 then 0 else n)
      invariant i < 3 ==> |p.workers[0].inbox| == MAX_INBOX && p.workers[0].inbox[..1] == input
      invariant |p.workers[0].outbox| == MAX_OUTBOX
    {
      Snoc(work, 1, es, p, WorkerStep(0));
      es, p := es + [WorkerStep(0)], Step(work, p, WorkerStep(0));
    }
  }

  /** The main thread, past its look at busy_, fetches the response and has the worker free again. */
  lemma Fetches(p: Pool, n: nat)
    requires p.main == Fits(0, MAX_OUTBOX) && p.free == [] && p.busy == [0]
    requires 0 < n <= MAX_OUTBOX && Lone(p, Clear, 1, n) && |p.workers[0].outbox| == MAX_OUTBOX
    ensures var p' := MainTurn(MainTurn(MainTurn(MainTurn(p))));
            p'.main == Idle && p'.free == [0] && Lone(p', Clear, 1, 0)
  {
    hide NewWorker, Overwrite;
    var p1 := p.(main := Any(0, MAX_OUTBOX));
    var p2 := p.(main := CopyOut(0));
    var p3 := p.(main := ClearOut(0, p.workers[0].outbox[..n]));
    assert MainTurn(p) == p1 && MainTurn(p1) == p2 && MainTurn(p2) == p3;
    assert MainTurn(p3).main == Idle && MainTurn(p3).free == [0] && Lone(MainTurn(p3), Clear, 1, 0);
  }

  lemma TakesBack(work: Data -> Data, d: Data) returns (es: seq<Event>, p: Pool)
    requires GoodWork(work) && |d| == 1
    ensures Reached(work, 1, es, p) && p.main == Deliver(d) && p.free == [0] && Lone(p, Clear, 1, 0)
  {
    hide Turn, Reached, MainTurn;
    var n;
    es, p, n := Overtakes(work, d);
    Fetches(p, n);
    for i := 0 to 4
      invariant Reached(work, 1, es, p)
      invariant var q := if i == 0 then MainTurn(MainTurn(MainTurn(MainTurn(p))))
                         else if i == 1 then MainTurn(MainTurn(MainTurn(p)))
                         else if i == 2 then MainTurn(MainTurn(p)) else if i == 3 then MainTurn(p) else p;
                q.main == Idle && q.free == [0] && Lone(q, Clear, 1, 0)
    {
      Snoc(work, 1, es, p, MainStep);
      es, p := es + [MainStep], MainTurn(p);
    }
    Snoc(work, 1, es, p, Submit(d));
    es, p := es + [Submit(d)], Step(work, p, Submit(d));
  }

  /** The refusal does happen: the main thread may fetch the response before the worker clears its inbox. */
  lemma RefusalHappens(work: Data -> Data)
    requires GoodWork(work)
    ensures exists es, p :: Reached(work, 1, es, p) && p.main.Deliver? && p.free != [] && |p.main.data| <= MAX_INBOX
                            && MainTurn(p).main.Idle?
  {
    var es, p := TakesBack(work, [0]);
    RefusesIff(work, 1, es, p);
  }

  // ---------- Progress ----------

  /** The response can be fetched: HandleBusyThread finds the worker idle and its outbox filled. */
  predicate Ready(k: Worker) {
    !k.busy && k.outLen != 0
  }

  /** How many turns the worker still needs before its response can be fetched. */
  function TurnsLeft(k: Worker): nat {
    if k.outLen != 0 && !k.busy then 0
    else
      match k.pc
      case Wait => 8
      case Check => 7
      case MarkBusy => 6
      case Guard => 5
      case Work => 4
      case Post(_) => 3
      case Clear => 2
      case Rest => if k.outLen != 0 then 1 else 8
  }

  lemma TurnsNearer(work: Data -> Data, k: Worker)
    requires WorkerInv(work, k) && GoodWork(work) && Owing(k) && (k.pc.Wait? && k.inLen != 0 ==> k.token)
    ensures TurnsLeft(Turn(work, k)) <= if TurnsLeft(k) == 0 then 0 else TurnsLeft(k) - 1
    ensures TurnsLeft(k) == 0 ==> Ready(k)
  {
  }

  /** How many of these events are turns of this worker. */
  function TurnsOf(w: nat, es: seq<Event>): nat {
    if es == [] then 0
    else TurnsOf(w, es[..|es| - 1]) + if es[|es| - 1] == WorkerStep(w) then 1 else 0
  }

  /** Nothing that the others do touches a busy worker, except that the main thread fetches its response. */
  lemma OthersSpare(work: Data -> Data, p: Pool, e: Event, w: nat)
    requires Inv(work, p) && w in p.busy && w < |p.workers| && e != WorkerStep(w)
    ensures var p' := Step(work, p, e);
            || (p'.workers[w] == p.workers[w] && w in p'.busy)
            || |p'.workers[w].collected| > |p.workers[w].collected|
  {
    hide WorkerInv, Partition, WakeInv, Turn, NewWorker;
    Once(p.free, p.busy, |p.workers|);
    if e.MainStep? && p.main.ClearOut? {
      var i := p.main.i;
      assert w != p.busy[i] ==> w in p.busy[..i] + p.busy[i + 1..];
    }
  }

  lemma CollectedStays(work: Data -> Data, p: Pool, e: Event, w: nat)
    requires w < |p.workers|
    ensures |p.workers[w].collected| <= |Step(work, p, e).workers[w].collected|
  {
    hide Overwrite, NewWorker;
  }

  /** A worker in the busy list owes a response, and if it waits it has a token. */
  lemma BusyOwes(work: Data -> Data, p: Pool, w: nat)
    requires Inv(work, p) && w in p.busy
    ensures w < |p.workers| && WorkerInv(work, p.workers[w]) && Owing(p.workers[w])
    ensures p.workers[w].pc.Wait? && p.workers[w].inLen != 0 ==> p.workers[w].token
  {
    hide WorkerInv, MainInv, Partition;
    Once(p.free, p.busy, |p.workers|);
  }

  /** One event brings a busy worker's response nearer, or fetches it. */
  lemma Nearer(work: Data -> Data, p: Pool, e: Event, w: nat)
    requires Inv(work, p) && GoodWork(work) && w in p.busy && w < |p.workers|
    ensures var p' := Step(work, p, e); var k, k' := p.workers[w], p'.workers[w];
            || |k'.collected| > |k.collected|
            || (k'.collected == k.collected && w in p'.busy
                && TurnsLeft(k') <= if e == WorkerStep(w) && TurnsLeft(k) > 0 then TurnsLeft(k) - 1 else TurnsLeft(k))
  {
    hide WorkerInv, Inv, Turn, MainTurn, TurnsLeft;
    if e == WorkerStep(w) {
      BusyOwes(work, p, w);
      TurnsNearer(work, p.workers[w]);
      TurnKeeps(work, p.workers[w]);
    } else {
      OthersSpare(work, p, e, w);
    }
  }

  /**
    In every run a worker that owes a response has it fetched, or is nearer to it by each of its own turns
    whatever all others do meanwhile; with as many turns as were left, at most eight, it can be fetched.
   */
  lemma {:induction false} Finishes(work: Data -> Data, p: Pool, w: nat, es: seq<Event>)
    requires Inv(work, p) && GoodWork(work) && w in p.busy && forall e <- es :: Fair(e)
    ensures w < |p.workers| && Inv(work, Steps(work, p, es)) && TurnsLeft(p.workers[w]) <= 8
    ensures var p' := Steps(work, p, es); var k, k', n := p.workers[w], p'.workers[w], TurnsOf(w, es);
            || |k'.collected| > |k.collected|
            || (k'.collected == k.collected && w in p'.busy
                && TurnsLeft(k') <= (if n < TurnsLeft(k) then TurnsLeft(k) - n else 0)
                && (TurnsLeft(k) <= n ==> Ready(k')))
    decreases |es|
  {
    hide WorkerInv, Inv, Step, TurnsLeft, Ready;
    BusyOwes(work, p, w);
    LeftAtMost(p.workers[w]);
    if es == [] {
      if TurnsLeft(p.workers[w]) == 0 { TurnsNearer(work, p.workers[w]); }
    } else {
      var q, e := Steps(work, p, es[..|es| - 1]), es[|es| - 1];
      Finishes(work, p, w, es[..|es| - 1]);
      assert e in es;
      StepKeeps(work, q, e);
      CollectedStays(work, q, e, w);
      if |q.workers[w].collected| == |p.workers[w].collected| {
        Nearer(work, q, e, w);
        var p' := Step(work, q, e);
        if w in p'.busy && TurnsLeft(p'.workers[w]) == 0 {
          BusyOwes(work, p', w);
          TurnsNearer(work, p'.workers[w]);
        }
      }
    }
  }

  lemma LeftAtMost(k: Worker)
    ensures TurnsLeft(k) <= 8
  {
  }

  /** The main thread polls and has not passed the `j`-th busy worker, whose response is there and fits its buffer. */
  ghost predicate Polling(p: Pool, j: nat) {
    && j < |p.busy| && p.busy[j] < |p.workers| && Ready(p.workers[p.busy[j]])
    && match p.main
       case Scan(i, space) => i <= j && p.workers[p.busy[j]].outLen <= space
       case Fits(i, space) => i <= j && p.workers[p.busy[j]].outLen <= space
       case Any(i, space) => i <= j && p.workers[p.busy[j]].outLen <= space
       case CopyOut(_) => true
       case ClearOut(_, _) => true
       case _ => false
  }

  /** How many accesses of the main thread a poll needs at most before it returns a response. */
  function PollLeft(m: Main, j: nat): int {
    match m
    case Scan(i, _) => 3 * (j - i) + 5
    case Fits(i, _) => 3 * (j - i) + 4
    case Any(i, _) => 3 * (j - i) + 3
    case CopyOut(_) => 2
    case ClearOut(_, _) => 1
    case _ => 0
  }

  /** Some response was fetched in between. */
  ghost predicate Fetched(p: Pool, p': Pool) {
    && |p'.workers| == |p.workers|
    && exists w :: 0 <= w < |p.workers| && |p.workers[w].collected| < |p'.workers[w].collected|
  }

  lemma MainPolls(work: Data -> Data, p: Pool, j: nat)
    requires Inv(work, p) && Polling(p, j)
    ensures var p' := MainTurn(p); Fetched(p, p') || (Polling(p', j) && PollLeft(p'.main, j) < PollLeft(p.main, j))
  {
    hide Partition, RolesInv, WakeInv, NewWorker;
    assert WorkerInv(work, p.workers[p.busy[j]]);
    if p.main.ClearOut? {
      var w := p.busy[p.main.i];
      assert |MainTurn(p).workers[w].collected| > |p.workers[w].collected|;
    } else if p.main.CopyOut? {
      assert WorkerInv(work, p.workers[p.busy[p.main.i]]);
    }
  }

  lemma WorkersPoll(work: Data -> Data, p: Pool, j: nat, w: nat)
    requires Inv(work, p) && GoodWork(work) && Polling(p, j)
    ensures Polling(Step(work, p, WorkerStep(w)), j) && Step(work, p, WorkerStep(w)).main == p.main
  {
    hide WorkerInv, Partition, Turn, MainInv;
    if w == p.busy[j] {
      BusyOwes(work, p, w);
      ReadyStays(work, p.workers[w]);
    }
  }

  lemma ReadyStays(work: Data -> Data, k: Worker)
    requires WorkerInv(work, k) && Ready(k)
    ensures Ready(Turn(work, k)) && Turn(work, k).outLen == k.outLen
  {
  }

  function MainTurns(es: seq<Event>): nat {
    if es == [] then 0 else MainTurns(es[..|es| - 1]) + if es[|es| - 1].MainStep? then 1 else 0
  }

  /**
    In every run a poll that meets a fetchable response returns one: each access of the main thread brings it
    nearer, whatever the workers do meanwhile, and 3 * j + 5 of them suffice for the `j`-th busy worker.
   */
  lemma {:induction false} PollFetches(work: Data -> Data, p: Pool, j: nat, es: seq<Event>)
    requires Inv(work, p) && GoodWork(work) && Polling(p, j) && forall e <- es :: Fair(e)
    ensures 0 < PollLeft(p.main, j) <= 3 * j + 5 && Inv(work, Steps(work, p, es))
    ensures var p' := Steps(work, p, es);
            || Fetched(p, p')
            || (Polling(p', j) && 0 < PollLeft(p'.main, j) <= PollLeft(p.main, j) - MainTurns(es))
    decreases |es|
  {
    hide Inv, Step, Ready;
    if es != [] {
      var q, e := Steps(work, p, es[..|es| - 1]), es[|es| - 1];
      PollFetches(work, p, j, es[..|es| - 1]);
      assert e in es;
      StepKeeps(work, q, e);
      if Fetched(p, q) {
        var w :| 0 <= w < |p.workers| && |p.workers[w].collected| < |q.workers[w].collected|;
        CollectedStays(work, q, e, w);
      } else {
        PollStep(work, q, e, j);
        if Fetched(q, Step(work, q, e)) { FetchedLater(work, p, es[..|es| - 1], Step(work, q, e)); }
      }
    }
  }

  lemma PollStep(work: Data -> Data, p: Pool, e: Event, j: nat)
    requires Inv(work, p) && GoodWork(work) && Polling(p, j)
    ensures var p' := Step(work, p, e);
            || Fetched(p, p')
            || (Polling(p', j) && PollLeft(p'.main, j) <= PollLeft(p.main, j) - if e.MainStep? then 1 else 0)
  {
    hide Inv, Ready, Turn, MainTurn;
    match e
    case MainStep => MainPolls(work, p, j);
    case WorkerStep(w) => WorkersPoll(work, p, j, w);
    case _ =>
  }

  lemma FetchedLater(work: Data -> Data, p: Pool, es: seq<Event>, p': Pool)
    requires Fetched(Steps(work, p, es), p')
    ensures Fetched(p, p')
  {
    var q := Steps(work, p, es);
    var w :| 0 <= w < |q.workers| && |q.workers[w].collected| < |p'.workers[w].collected|;
    CollectedInRun(work, p, es, w);
  }

  lemma {:induction false} CollectedInRun(work: Data -> Data, p: Pool, es: seq<Event>, w: nat)
    requires w < |p.workers|
    ensures |p.workers[w].collected| <= |Steps(work, p, es).workers[w].collected|
    decreases |es|
  {
    hide Step;
    if es != [] {
      CollectedInRun(work, p, es[..|es| - 1], w);
      CollectedStays(work, Steps(work, p, es[..|es| - 1]), es[|es| - 1], w);
    }
  }

  /** A worker without a request is blocked after at most four turns, and stays blocked until it is woken. */
  lemma Sleeps(work: Data -> Data, k: Worker)
    requires WorkerInv(work, k) && k.inLen == 0
    ensures var k' := Turn(work, Turn(work, Turn(work, Turn(work, k))));
            k'.pc.Wait? && !k'.token && Turn(work, k') == k'
  {
  }
}
