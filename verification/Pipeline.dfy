// The two threads of main.c over the shared pool and queue, step by step: every
// lock, wait, signal, unlock and list operation is a step of its own, and the
// steps of the threads interleave freely.
module Pipeline {
  import opened Outcome
  import opened Sequences

  // A pool node, by its number, and what a received packet puts in it.
  type Buf = nat
  datatype Packet = Packet(data: seq<char>, len: nat, drop: bool)

  // What net->recv does with the buffer it is given: it may write into it even
  // when it fails.
  datatype Input = Failed(left: Packet) | Got(packet: Packet)

  datatype Thread = Receiver | Processor

  // netrecv_thread: mem_pool_get, recv, list_queue_put.
  datatype ReceiverAt =
    | WantPool                 // before pthread_mutex_lock of the pool
    | TestFree                 // holds the pool; list_empty(free)
    | WaitFree                 // in the wait set of the pool's condition
    | RelockPool               // signalled; needs the pool again
    | TakeFree                 // holds the pool; list_del of free.next
    | AddUse(buf: Buf)         // holds the pool; list_add to the use list
    | LeavePool(buf: Buf)      // holds the pool; unlocks
    | Receiving(buf: Buf)      // net->recv
    | WantQueue(buf: Buf)      // before lock of the queue
    | Link(buf: Buf)           // holds the queue; appends
    | SignalQueue              // holds the queue; signals
    | LeaveQueue               // holds the queue; unlocks

  // process_thread: list_queue_get, mainprocess, mem_pool_put.
  datatype ProcessorAt =
    | LockQueue
    | TestQueue                // holds the queue; looks at first
    | WaitQueue                // in the wait set of the queue's condition
    | RelockQueue
    | FreeQueue(buf: Buf)      // holds the queue; took buf, unlocks
    | Processing(buf: Buf)
    | LockPool(buf: Buf)
    | Unlink(buf: Buf)         // holds the pool; list_del
    | AddFree(buf: Buf)        // holds the pool; list_add to the free list
    | SignalPool               // holds the pool; signals
    | FreePool                 // holds the pool; unlocks

  datatype State = State(
    n: nat,
    free: seq<Buf>, use: seq<Buf>, poolLock: Option<Thread>, poolWait: set<Thread>,
    queue: seq<Buf>, queueLock: Option<Thread>, queueWait: set<Thread>,
    held: map<Buf, Packet>,
    r: ReceiverAt, p: ProcessorAt,
    accepted: seq<Packet>,     // packets that recv accepted, in order
    done: seq<Packet>,         // packets the processor is through with, in order
    handed: seq<Packet>)       // those of them that went to mainprocess

  // mem_pool_create adds each block at the head of the free list.
  function Reverse(n: nat): (s: seq<Buf>)
    ensures |s| == n
  {
    seq(n, i requires 0 <= i < n => n - 1 - i)
  }

  predicate Init(s: State) {
    && s.n >= 1 && s.free == Reverse(s.n) && s.use == [] && s.queue == []
    && s.poolLock == None && s.queueLock == None && s.poolWait == {} && s.queueWait == {}
    && (forall b: Buf :: b < s.n ==> b in s.held) && s.r == WantPool && s.p == LockQueue
    && s.accepted == [] && s.done == [] && s.handed == []
  }

  // One step of the receiver, if it can take one. `input` only matters to recv.
  function ReceiverStep(s: State, input: Input): Option<State> {
    match s.r
    case WantPool => if s.poolLock == None then Some(s.(poolLock := Some(Receiver), r := TestFree)) else None
    case TestFree =>
      if s.free == [] then Some(s.(poolLock := None, poolWait := s.poolWait + {Receiver}, r := WaitFree))
      else Some(s.(r := TakeFree))
    case WaitFree => None
    case RelockPool => if s.poolLock == None then Some(s.(poolLock := Some(Receiver), r := TakeFree)) else None
    case TakeFree => if s.free == [] then None else Some(s.(free := s.free[1..], r := AddUse(s.free[0])))
    case AddUse(b) => Some(s.(use := [b] + s.use, r := LeavePool(b)))
    case LeavePool(b) => Some(s.(poolLock := None, r := Receiving(b)))
    case Receiving(b) =>
      match input {
        case Failed(left) => Some(s.(held := s.held[b := left]))
        case Got(packet) =>
          Some(s.(held := s.held[b := packet], accepted := s.accepted + [packet], r := WantQueue(b)))
      }
    case WantQueue(b) => if s.queueLock == None then Some(s.(queueLock := Some(Receiver), r := Link(b))) else None
    case Link(b) => Some(s.(queue := s.queue + [b], r := SignalQueue))
    case SignalQueue =>
      Some(s.(queueWait := s.queueWait - {Processor}, r := LeaveQueue,
              p := if Processor in s.queueWait then RelockQueue else s.p))
    case LeaveQueue => Some(s.(queueLock := None, r := WantPool))
  }

  function ProcessorStep(s: State): Option<State> {
    match s.p
    case LockQueue => if s.queueLock == None then Some(s.(queueLock := Some(Processor), p := TestQueue)) else None
    case TestQueue =>
      if s.queue == [] then Some(s.(queueLock := None, queueWait := s.queueWait + {Processor}, p := WaitQueue))
      else Some(s.(queue := s.queue[1..], p := FreeQueue(s.queue[0])))
    case WaitQueue => None
    case RelockQueue => if s.queueLock == None then Some(s.(queueLock := Some(Processor), p := TestQueue)) else None
    case FreeQueue(b) => Some(s.(queueLock := None, p := Processing(b)))
    case Processing(b) =>
      if b !in s.held then None
      else
        var packet := s.held[b];
        Some(s.(done := s.done + [packet], handed := if Handled(packet) then s.handed + [packet] else s.handed,
                p := LockPool(b)))
    case LockPool(b) => if s.poolLock == None then Some(s.(poolLock := Some(Processor), p := Unlink(b))) else None
    case Unlink(b) => Some(s.(use := Without(s.use, b), p := AddFree(b)))
    case AddFree(b) => Some(s.(free := [b] + s.free, p := SignalPool))
    case SignalPool =>
      Some(s.(poolWait := s.poolWait - {Receiver}, p := FreePool,
              r := if Receiver in s.poolWait then RelockPool else s.r))
    case FreePool => Some(s.(poolLock := None, p := LockQueue))
  }

  // The queue waits in a loop, so there the processor may wake without a signal.
  function WakeStep(s: State): Option<State> {
    if s.p.WaitQueue? then Some(s.(queueWait := s.queueWait - {Processor}, p := RelockQueue)) else None
  }

  // `pkt->len != 0 && pkt->action != RESULT_DROP`
  predicate Handled(packet: Packet) {
    packet.len != 0 && !packet.drop
  }

  ghost predicate Next(s: State, t: State) {
    (exists input :: ReceiverStep(s, input) == Some(t)) || ProcessorStep(s) == Some(t) || WakeStep(s) == Some(t)
  }

  ghost predicate Run(run: seq<State>) {
    run != [] && Init(run[0]) && forall i :: 0 <= i < |run| - 1 ==> Next(run[i], run[i + 1])
  }

  ghost predicate Reachable(s: State) {
    exists run :: Run(run) && run[|run| - 1] == s
  }

  // Who may be where while a lock is held, and who waits.
  predicate LocksKept(s: State) {
    && (s.poolLock == Some(Receiver) <==> s.r.TestFree? || s.r.TakeFree? || s.r.AddUse? || s.r.LeavePool?)
    && (s.poolLock == Some(Processor) <==> s.p.Unlink? || s.p.AddFree? || s.p.SignalPool? || s.p.FreePool?)
    && (s.queueLock == Some(Receiver) <==> s.r.Link? || s.r.SignalQueue? || s.r.LeaveQueue?)
    && (s.queueLock == Some(Processor) <==> s.p.TestQueue? || s.p.FreeQueue?)
    && s.poolWait == (if s.r.WaitFree? then {Receiver} else {})
    && s.queueWait == (if s.p.WaitQueue? then {Processor} else {})
  }

  // The buffer the receiver or the processor has in its hands.
  function ReceiverHolds(r: ReceiverAt): Option<Buf> {
    match r
    case LeavePool(b) => Some(b)
    case Receiving(b) => Some(b)
    case WantQueue(b) => Some(b)
    case Link(b) => Some(b)
    case _ => None
  }

  function ProcessorHolds(p: ProcessorAt): Option<Buf> {
    match p
    case FreeQueue(b) => Some(b)
    case Processing(b) => Some(b)
    case LockPool(b) => Some(b)
    case Unlink(b) => Some(b)
    case _ => None
  }

  // A node between the two lists, inside the critical section that moves it.
  function ReceiverMoves(r: ReceiverAt): Option<Buf> {
    if r.AddUse? then Some(r.buf) else None
  }

  function ProcessorMoves(p: ProcessorAt): Option<Buf> {
    if p.AddFree? then Some(p.buf) else None
  }

  function One(o: Option<Buf>, b: Buf): nat {
    if o == Some(b) then 1 else 0
  }

  // Every node of the pool is in one place, once: on the free list, on the use
  // list or on its way between them; and it is on the use list exactly if the
  // receiver, the queue or the processor has it.
  predicate Placed(s: State, b: Buf) {
    && Count(s.free, b) + Count(s.use, b) + One(ReceiverMoves(s.r), b) + One(ProcessorMoves(s.p), b)
       == (if b < s.n then 1 else 0)
    && Count(s.use, b) == One(ReceiverHolds(s.r), b) + Count(s.queue, b) + One(ProcessorHolds(s.p), b)
  }

  ghost predicate PoolKept(s: State) {
    (forall b: Buf :: Placed(s, b)) && (forall b: Buf :: b < s.n ==> b in s.held)
  }

  // Waiting and waking: whoever waits has nothing to wait for but a signal that
  // is about to come, and whoever was woken finds a node.
  predicate WaitsKept(s: State) {
    && s.n >= 1
    && (s.r.WaitFree? ==> s.free == [] || s.p.SignalPool?)
    && (s.r.RelockPool? || s.r.TakeFree? ==> s.free != [])
    && (s.p.SignalPool? ==> s.free != [])
    && (s.p.WaitQueue? ==> s.queue == [] || s.r.SignalQueue?)
  }

  function Contents(s: State, bufs: seq<Buf>): seq<Packet>
    requires forall b :: b in bufs ==> b in s.held
  {
    if bufs == [] then [] else [s.held[bufs[0]]] + Contents(s, bufs[1..])
  }

  // Packets accepted and not yet done, in order: with the processor, in the
  // queue, with the receiver.
  function InFlight(s: State): seq<Buf> {
    Leaving(s.p) + (s.queue + Coming(s.r))
  }

  function Leaving(p: ProcessorAt): seq<Buf> {
    match p case FreeQueue(b) => [b] case Processing(b) => [b] case _ => []
  }

  function Coming(r: ReceiverAt): seq<Buf> {
    match r case WantQueue(b) => [b] case Link(b) => [b] case _ => []
  }

  function Kept(packets: seq<Packet>): seq<Packet> {
    if packets == [] then []
    else Kept(packets[..|packets| - 1]) +
         (if Handled(packets[|packets| - 1]) then [packets[|packets| - 1]] else [])
  }

  predicate OrderKept(s: State) {
    && (forall b :: b in InFlight(s) ==> b in s.held)
    && s.accepted == s.done + Contents(s, InFlight(s))
    && s.handed == Kept(s.done)
  }

  ghost predicate Inv(s: State) {
    LocksKept(s) && PoolKept(s) && WaitsKept(s) && OrderKept(s)
  }

  lemma ReceiverKeepsLocks(s: State, input: Input, t: State)
    requires LocksKept(s) && ReceiverStep(s, input) == Some(t)
    ensures LocksKept(t)
  {
  }

  lemma ProcessorKeepsLocks(s: State, t: State)
    requires LocksKept(s) && ProcessorStep(s) == Some(t)
    ensures LocksKept(t)
  {
  }

  lemma ReceiverKeepsWaits(s: State, input: Input, t: State)
    requires LocksKept(s) && WaitsKept(s) && ReceiverStep(s, input) == Some(t)
    ensures WaitsKept(t)
  {
  }

  lemma ProcessorKeepsWaits(s: State, t: State)
    requires LocksKept(s) && WaitsKept(s) && ProcessorStep(s) == Some(t)
    ensures WaitsKept(t)
  {
  }

  // Most steps leave the lists alone and every node with whoever has it.
  predicate SamePlaces(s: State, t: State) {
    && t.n == s.n && t.free == s.free && t.use == s.use && t.queue == s.queue
    && ReceiverHolds(t.r) == ReceiverHolds(s.r) && ProcessorHolds(t.p) == ProcessorHolds(s.p)
    && ReceiverMoves(t.r) == ReceiverMoves(s.r) && ProcessorMoves(t.p) == ProcessorMoves(s.p)
  }

  lemma ReceiverLeavesLists(s: State, input: Input, t: State)
    requires LocksKept(s) && ReceiverStep(s, input) == Some(t) && !s.r.TakeFree? && !s.r.AddUse? && !s.r.Link?
    ensures SamePlaces(s, t)
  {
  }

  lemma ProcessorLeavesLists(s: State, t: State)
    requires LocksKept(s) && ProcessorStep(s) == Some(t) && !s.p.Unlink? && !s.p.AddFree?
    requires s.p.TestQueue? ==> s.queue == []
    ensures SamePlaces(s, t)
  {
  }

  lemma ReceiverKeepsPlaces(s: State, input: Input, t: State, b: Buf)
    requires LocksKept(s) && Placed(s, b) && ReceiverStep(s, input) == Some(t)
    ensures Placed(t, b)
  {
    match s.r
    case TakeFree =>
    case AddUse(x) => CountPush(s.use, x, b);
    case Link(x) => CountAppend(s.queue, x, b);
    case _ => ReceiverLeavesLists(s, input, t);
  }

  lemma ProcessorKeepsPlaces(s: State, t: State, b: Buf)
    requires LocksKept(s) && Placed(s, b) && ProcessorStep(s) == Some(t)
    requires s.p.Unlink? ==> Placed(s, s.p.buf)
    ensures Placed(t, b)
  {
    match s.p
    case Unlink(x) => CountWithout(s.use, x, b);
    case AddFree(x) => CountPush(s.free, x, b);
    case TestQueue => if s.queue == [] { ProcessorLeavesLists(s, t); }
    case _ => ProcessorLeavesLists(s, t);
  }

  lemma ReceiverKeepsPool(s: State, input: Input, t: State)
    requires LocksKept(s) && PoolKept(s) && ReceiverStep(s, input) == Some(t)
    ensures PoolKept(t)
  {
    forall b: Buf ensures Placed(t, b) { ReceiverKeepsPlaces(s, input, t, b); }
  }

  lemma ProcessorKeepsPool(s: State, t: State)
    requires LocksKept(s) && PoolKept(s) && ProcessorStep(s) == Some(t)
    ensures PoolKept(t)
  {
    forall b: Buf ensures Placed(t, b) { ProcessorKeepsPlaces(s, t, b); }
  }

  lemma {:induction false} ContentsAppend(s: State, a: seq<Buf>, b: seq<Buf>)
    requires forall x :: x in a + b ==> x in s.held
    ensures forall x :: x in a ==> x in s.held
    ensures forall x :: x in b ==> x in s.held
    ensures Contents(s, a + b) == Contents(s, a) + Contents(s, b)
    decreases |a|
  {
    assert forall x :: x in a ==> x in a + b;
    assert forall x :: x in b ==> x in a + b;
    if a == [] {
      assert a + b == b;
    } else {
      assert (a + b)[1..] == a[1..] + b;
      ContentsAppend(s, a[1..], b);
    }
  }

  // What is in flight does not notice a write to another buffer.
  lemma {:induction false} ContentsKept(s: State, t: State, bufs: seq<Buf>)
    requires forall b :: b in bufs ==> b in s.held && b in t.held && t.held[b] == s.held[b]
    ensures Contents(t, bufs) == Contents(s, bufs)
    decreases |bufs|
  {
    if bufs != [] { ContentsKept(s, t, bufs[1..]); }
  }

  // The buffer recv writes to holds no packet in flight.
  lemma ReceivingIsFree(s: State)
    requires PoolKept(s) && s.r.Receiving?
    ensures s.r.buf !in InFlight(s) && s.r.buf < s.n
  {
    var b := s.r.buf;
    assert Placed(s, b);
    CountIn(s.queue, b);
  }

  lemma ReceiveKeepsOrder(s: State, packet: Packet, t: State)
    requires PoolKept(s) && OrderKept(s) && s.r.Receiving? && ReceiverStep(s, Got(packet)) == Some(t)
    ensures OrderKept(t)
  {
    var b, flight := s.r.buf, InFlight(s);
    ReceivingIsFree(s);
    assert Leaving(s.p) + (s.queue + [b]) == (Leaving(s.p) + (s.queue + [])) + [b];
    ContentsAppend(t, flight, [b]);
    ContentsKept(s, t, flight);
    assert Contents(t, [b]) == [packet];
    Regroup(s.done, Contents(s, flight), [packet]);
  }

  lemma ReceiverKeepsOrder(s: State, input: Input, t: State)
    requires LocksKept(s) && PoolKept(s) && OrderKept(s) && ReceiverStep(s, input) == Some(t)
    ensures OrderKept(t)
  {
    if s.r.Receiving? && input.Got? {
      ReceiveKeepsOrder(s, input.packet, t);
    } else {
      ReceiverKeepsFlight(s, input, t);
      ContentsKept(s, t, InFlight(s));
    }
  }

  // A step that accepts no packet leaves those in flight as they are.
  lemma ReceiverKeepsFlight(s: State, input: Input, t: State)
    requires LocksKept(s) && PoolKept(s) && OrderKept(s) && ReceiverStep(s, input) == Some(t)
    requires !(s.r.Receiving? && input.Got?)
    ensures InFlight(t) == InFlight(s) && SamePackets(s, t)
    ensures forall b :: b in InFlight(s) ==> b in t.held && t.held[b] == s.held[b]
  {
    if s.r.Receiving? { ReceivingIsFree(s); }
    ReceiverMovesAlong(s, input, t);
  }

  predicate SamePackets(s: State, t: State) {
    t.accepted == s.accepted && t.done == s.done && t.handed == s.handed
  }

  lemma ReceiverMovesAlong(s: State, input: Input, t: State)
    requires LocksKept(s) && ReceiverStep(s, input) == Some(t) && !(s.r.Receiving? && input.Got?)
    ensures Leaving(t.p) == Leaving(s.p) && t.queue + Coming(t.r) == s.queue + Coming(s.r) && SamePackets(s, t)
    ensures forall b :: b in s.held && !(s.r.Receiving? && s.r.buf == b) ==> b in t.held && t.held[b] == s.held[b]
  {
    if s.r.Link? { assert t.queue + [] == t.queue; }
  }

  lemma ProcessKeepsOrder(s: State, t: State)
    requires OrderKept(s) && s.p.Processing? && ProcessorStep(s) == Some(t)
    ensures OrderKept(t)
  {
    var b := s.p.buf;
    assert InFlight(s) == [b] + InFlight(t);
    ContentsAppend(s, [b], InFlight(t));
    ContentsKept(s, t, InFlight(t));
    assert Contents(s, [b]) == [s.held[b]];
    Regroup(s.done, [s.held[b]], Contents(t, InFlight(t)));
    KeptNext(s.done, s.held[b]);
  }

  lemma Regroup<T>(a: seq<T>, b: seq<T>, c: seq<T>)
    ensures a + (b + c) == (a + b) + c
  {
  }

  lemma KeptNext(packets: seq<Packet>, x: Packet)
    ensures Kept(packets + [x]) == if Handled(x) then Kept(packets) + [x] else Kept(packets)
  {
    assert (packets + [x])[..|packets|] == packets;
    assert Kept(packets) + [] == Kept(packets);
  }

  lemma ProcessorKeepsOrder(s: State, t: State)
    requires LocksKept(s) && PoolKept(s) && OrderKept(s) && ProcessorStep(s) == Some(t)
    ensures OrderKept(t)
  {
    if s.p.Processing? {
      ProcessKeepsOrder(s, t);
    } else {
      ProcessorKeepsFlight(s, t);
      ContentsKept(s, t, InFlight(s));
    }
  }

  // A step that is through with no packet leaves those in flight as they are.
  lemma ProcessorKeepsFlight(s: State, t: State)
    requires LocksKept(s) && ProcessorStep(s) == Some(t) && !s.p.Processing?
    ensures InFlight(t) == InFlight(s) && SamePackets(s, t) && t.held == s.held
  {
    if s.p.TestQueue? && s.queue != [] {
      assert s.queue + Coming(s.r) == [s.queue[0]] + (s.queue[1..] + Coming(s.r));
    }
  }

  lemma {:induction false} FreshPlaces(n: nat, b: Buf)
    ensures Count(Reverse(n), b) == if b < n then 1 else 0
    decreases n
  {
    if n > 0 {
      FreshPlaces(n - 1, b);
      assert Reverse(n)[1..] == Reverse(n - 1);
    }
  }

  lemma InitHolds(s: State)
    requires Init(s)
    ensures Inv(s)
  {
    forall b: Buf ensures Placed(s, b) { FreshPlaces(s.n, b); }
  }

  lemma ReceiverKeepsSize(s: State, input: Input, t: State)
    requires ReceiverStep(s, input) == Some(t)
    ensures t.n == s.n
  {
  }

  lemma ProcessorKeepsSize(s: State, t: State)
    requires ProcessorStep(s) == Some(t)
    ensures t.n == s.n
  {
  }

  lemma ReceiverKeepsInv(s: State, input: Input, t: State)
    requires Inv(s) && ReceiverStep(s, input) == Some(t)
    ensures Inv(t) && t.n == s.n
  {
    ReceiverKeepsSize(s, input, t);
    ReceiverKeepsLocks(s, input, t);
    ReceiverKeepsWaits(s, input, t);
    ReceiverKeepsPool(s, input, t);
    ReceiverKeepsOrder(s, input, t);
  }

  lemma ProcessorKeepsInv(s: State, t: State)
    requires Inv(s) && ProcessorStep(s) == Some(t)
    ensures Inv(t) && t.n == s.n
  {
    ProcessorKeepsSize(s, t);
    ProcessorKeepsLocks(s, t);
    ProcessorKeepsWaits(s, t);
    ProcessorKeepsPool(s, t);
    ProcessorKeepsOrder(s, t);
  }

  lemma WakeKeepsInv(s: State, t: State)
    requires Inv(s) && WakeStep(s) == Some(t)
    ensures Inv(t) && t.n == s.n
  {
    forall b: Buf ensures Placed(t, b) { assert Placed(s, b); }
    assert InFlight(t) == InFlight(s);
    ContentsKept(s, t, InFlight(s));
  }

  lemma StepKeepsInv(s: State, t: State)
    requires Inv(s) && Next(s, t)
    ensures Inv(t) && t.n == s.n
  {
    if ProcessorStep(s) == Some(t) {
      ProcessorKeepsInv(s, t);
    } else if WakeStep(s) == Some(t) {
      WakeKeepsInv(s, t);
    } else {
      var input :| ReceiverStep(s, input) == Some(t);
      ReceiverKeepsInv(s, input, t);
    }
  }

  // The invariant holds in every state of every interleaving.
  lemma {:induction false} RunKeepsInv(run: seq<State>, k: nat)
    requires Run(run) && k < |run|
    ensures Inv(run[k]) && run[k].n == run[0].n
    decreases k
  {
    if k == 0 {
      InitHolds(run[0]);
    } else {
      RunKeepsInv(run, k - 1);
      assert Next(run[k - 1], run[k - 1 + 1]);
      StepKeepsInv(run[k - 1], run[k]);
    }
  }

  // Nothing is lost, duplicated, reordered or overwritten on the way: what recv
  // accepted is what was done, then what is in flight, in order; and mainprocess
  // got exactly those of the done packets that are neither empty nor dropped.
  lemma PacketsAreConserved(s: State)
    requires Reachable(s)
    ensures forall b :: b in InFlight(s) ==> b in s.held
    ensures s.accepted == s.done + Contents(s, InFlight(s))
    ensures s.handed == Kept(s.done)
  {
    var run :| Run(run) && run[|run| - 1] == s;
    RunKeepsInv(run, |run| - 1);
  }

  lemma {:induction false} KeptCount(packets: seq<Packet>, x: Packet)
    ensures Count(Kept(packets), x) == if x.len != 0 && !x.drop then Count(packets, x) else 0
    decreases |packets|
  {
    if packets != [] {
      var front, last := packets[..|packets| - 1], packets[|packets| - 1];
      KeptCount(front, x);
      CountAppend(front, last, x);
      CountAppend(Kept(front), last, x);
      assert front + [last] == packets;
      assert Kept(front) + [] == Kept(front);
    }
  }

  // mainprocess gets a packet that is neither empty nor dropped as often as the
  // processor is through with it, and any other never.
  lemma HandedCount(s: State, x: Packet)
    requires Reachable(s)
    ensures Count(s.handed, x) == if x.len != 0 && !x.drop then Count(s.done, x) else 0
  {
    PacketsAreConserved(s);
    KeptCount(s.done, x);
  }

  // The places, in order, that a selection of the packets was taken from: those
  // of the packets that are neither empty nor dropped.
  ghost predicate Selects(packets: seq<Packet>, at: seq<nat>, chosen: seq<Packet>) {
    && |at| == |chosen|
    && (forall i, j :: 0 <= i < j < |at| ==> at[i] < at[j])
    && (forall i :: 0 <= i < |at| ==> at[i] < |packets| && chosen[i] == packets[at[i]])
    && (forall k :: 0 <= k < |packets| ==> (k in at <==> packets[k].len != 0 && !packets[k].drop))
  }

  lemma {:induction false} KeptSelects(packets: seq<Packet>) returns (at: seq<nat>)
    ensures Selects(packets, at, Kept(packets))
    decreases |packets|
  {
    at := [];
    if packets != [] {
      var n := |packets| - 1;
      at := KeptSelects(packets[..n]);
      at := SelectsNext(packets, at, Kept(packets[..n]));
    }
  }

  lemma SelectsNext(packets: seq<Packet>, at: seq<nat>, chosen: seq<Packet>) returns (next: seq<nat>)
    requires packets != [] && Selects(packets[..|packets| - 1], at, chosen)
    ensures var last := packets[|packets| - 1];
            Selects(packets, next, chosen + if last.len != 0 && !last.drop then [last] else [])
  {
    var n := |packets| - 1;
    next := at + if packets[n].len != 0 && !packets[n].drop then [n] else [];
    forall k | 0 <= k < |packets| ensures k in next <==> packets[k].len != 0 && !packets[k].drop {
      if k < n {
        assert packets[..n][k] == packets[k];
        assert k in next <==> k in at;
      }
    }
  }

  // They get there in the order in which they were accepted.
  lemma HandedInOrder(s: State) returns (at: seq<nat>)
    requires Reachable(s)
    ensures Selects(s.done, at, s.handed)
  {
    PacketsAreConserved(s);
    at := KeptSelects(s.done);
  }

  // Only the processor hands packets over, one at a time, and it does so before
  // it returns the node: it takes what the node holds.
  lemma HandedWhenProcessed(s: State, t: State)
    requires Inv(s) && Next(s, t)
    ensures ProcessorStep(s) != Some(t) ==> t.handed == s.handed && t.done == s.done
    ensures ProcessorStep(s) == Some(t) && !s.p.Processing? ==> t.handed == s.handed && t.done == s.done
    ensures ProcessorStep(s) == Some(t) && s.p.Processing? ==>
              && s.p.buf in s.held && t.p == LockPool(s.p.buf)
              && var x := s.held[s.p.buf];
                 t.done == s.done + [x] && t.handed == s.handed + if x.len != 0 && !x.drop then [x] else []
  {
    if ProcessorStep(s) == Some(t) {
      if !s.p.Processing? { ProcessorKeepsFlight(s, t); }
    } else if WakeStep(s) != Some(t) {
      var input :| ReceiverStep(s, input) == Some(t);
      ReceiverHandsNothing(s, input, t);
    }
  }

  lemma ReceiverHandsNothing(s: State, input: Input, t: State)
    requires ReceiverStep(s, input) == Some(t)
    ensures t.handed == s.handed && t.done == s.done
  {
  }

  // The pool's nodes: each on one list or between them, and the use list is the
  // disjoint union of the receiver's node, the queued nodes and the processor's.
  lemma NodesAreConserved(s: State, b: Buf)
    requires Reachable(s)
    ensures Placed(s, b)
    ensures s.r.TakeFree? ==> s.free != []
    ensures s.p.Unlink? ==> s.p.buf in s.use
  {
    var run :| Run(run) && run[|run| - 1] == s;
    RunKeepsInv(run, |run| - 1);
    assert Placed(s, b);
    if s.p.Unlink? {
      assert Placed(s, s.p.buf);
      CountIn(s.use, s.p.buf);
    }
  }

  // Inside the critical sections of the pool the two lists change as the pool's
  // own operations say: the first free node moves to the front of the use list,
  // and a returned node from its place there to the front of the free list.
  lemma SectionsAreOperations(s: State, t: State, u: State, input: Input)
    ensures s.r.TakeFree? && ReceiverStep(s, input) == Some(t) && ReceiverStep(t, input) == Some(u) ==>
              s.free != [] && u.r == LeavePool(s.free[0]) && u.free == s.free[1..] && u.use == [s.free[0]] + s.use
    ensures s.p.Unlink? && ProcessorStep(s) == Some(t) && ProcessorStep(t) == Some(u) ==>
              u.p == SignalPool && u.free == [s.p.buf] + s.free && u.use == Without(s.use, s.p.buf)
  {
  }

  // The other thread does not touch the lists meanwhile.
  lemma SectionsAreAlone(s: State, t: State, input: Input)
    requires LocksKept(s)
    ensures s.poolLock == Some(Processor) && ReceiverStep(s, input) == Some(t) ==>
              t.free == s.free && t.use == s.use && t.p == s.p && t.poolLock == Some(Processor)
    ensures s.poolLock == Some(Receiver) && ProcessorStep(s) == Some(t) ==>
              t.free == s.free && t.use == s.use && t.r == s.r && t.poolLock == Some(Receiver)
  {
  }

  // With an empty free list and an empty queue somebody holds the nodes.
  lemma NeverBothWait(s: State)
    requires Inv(s)
    ensures !(s.r.WaitFree? && s.p.WaitQueue?)
  {
    assert Placed(s, 0);
  }

  lemma OneOfThree(owner: Option<Thread>)
    ensures owner == None || owner == Some(Receiver) || owner == Some(Processor)
  {
    if owner.Some? { match owner.value case Receiver => case Processor => }
  }

  lemma ReceiverStuck(s: State, input: Input)
    requires LocksKept(s) && WaitsKept(s) && ReceiverStep(s, input) == None
    ensures s.r.WaitFree? || s.poolLock == Some(Processor) || s.queueLock == Some(Processor)
  {
    OneOfThree(s.poolLock);
    OneOfThree(s.queueLock);
  }

  lemma ProcessorStuck(s: State)
    requires Inv(s) && ProcessorStep(s) == None
    ensures s.p.WaitQueue? || s.queueLock == Some(Receiver) || s.poolLock == Some(Receiver)
  {
    OneOfThree(s.poolLock);
    OneOfThree(s.queueLock);
    if s.p.Processing? { assert Placed(s, s.p.buf); }
  }

  lemma SomeoneMoves(s: State, input: Input)
    requires Inv(s)
    ensures ReceiverStep(s, input).Some? || ProcessorStep(s).Some?
  {
    if ReceiverStep(s, input) == None && ProcessorStep(s) == None {
      ReceiverStuck(s, input);
      ProcessorStuck(s);
      NeverBothWait(s);
    }
  }

  // No lost wakeup: a waiting thread has nothing to take, or the signal for it
  // is the next step of the lock's holder. The two never wait together, and
  // some thread can always move.
  lemma NoLostWakeup(s: State, input: Input)
    requires Reachable(s)
    ensures Receiver in s.poolWait ==> s.free == [] || s.p.SignalPool?
    ensures Processor in s.queueWait ==> s.queue == [] || s.r.SignalQueue?
    ensures s.poolLock == None && Receiver in s.poolWait ==> s.free == []
    ensures s.queueLock == None && Processor in s.queueWait ==> s.queue == []
    ensures !(Receiver in s.poolWait && Processor in s.queueWait)
    ensures ReceiverStep(s, input).Some? || ProcessorStep(s).Some?
  {
    var run :| Run(run) && run[|run| - 1] == s;
    RunKeepsInv(run, |run| - 1);
    NeverBothWait(s);
    SomeoneMoves(s, input);
  }

  // The receiver is outside both critical sections.
  predicate ReceiverOutside(s: State) {
    s.poolLock != Some(Receiver) && s.queueLock != Some(Receiver)
  }

  // How many steps the processor is away from waiting on an empty queue.
  function Distance(s: State): nat {
    10 * |s.queue| +
    match s.p
    case FreeQueue(_) => 9
    case Processing(_) => 8
    case LockPool(_) => 7
    case Unlink(_) => 6
    case AddFree(_) => 5
    case SignalPool => 4
    case FreePool => 3
    case LockQueue => 2
    case RelockQueue => 2
    case TestQueue => 1
    case WaitQueue => 0
  }

  // While the receiver is outside its critical sections the processor alone
  // gets nearer with every step, until it waits and has nothing left to do.
  lemma ProcessorAdvances(s: State)
    requires Inv(s) && ReceiverOutside(s) && !s.p.WaitQueue?
    ensures ProcessorStep(s).Some?
    ensures var t := ProcessorStep(s).value;
            Inv(t) && ReceiverOutside(t) && Distance(t) < Distance(s) && t.accepted == s.accepted
  {
    if ProcessorStep(s) == None { ProcessorStuck(s); }
    StepKeepsInv(s, ProcessorStep(s).value);
    ProcessorComesNearer(s, ProcessorStep(s).value);
  }

  lemma ProcessorComesNearer(s: State, t: State)
    requires LocksKept(s) && ReceiverOutside(s) && ProcessorStep(s) == Some(t)
    ensures ReceiverOutside(t) && Distance(t) < Distance(s) && t.accepted == s.accepted
  {
  }

  // k steps of the processor alone.
  ghost predicate Drains(s: State, t: State, k: nat)
    decreases k
  {
    if k == 0 then t == s else ProcessorStep(s).Some? && Drains(ProcessorStep(s).value, t, k - 1)
  }

  // Left to run, the processor takes every queued packet to its end within
  // Distance steps, and a receiver that waited for a node has been woken.
  lemma {:induction false} QueueDrains(s: State) returns (t: State, k: nat)
    requires Inv(s) && ReceiverOutside(s)
    ensures k <= Distance(s) && Drains(s, t, k) && Inv(t) && t.p.WaitQueue? && t.queue == []
    ensures t.accepted == s.accepted
    ensures t.accepted == t.done + (if t.r.WantQueue? then [t.held[t.r.buf]] else [])
    ensures !t.r.WaitFree?
    decreases Distance(s)
  {
    if s.p.WaitQueue? {
      t, k := s, 0;
      NeverBothWait(s);
      assert InFlight(t) == if t.r.WantQueue? then [t.r.buf] else [];
      assert t.r.WantQueue? ==> Contents(t, [t.r.buf]) == [t.held[t.r.buf]];
    } else {
      ProcessorAdvances(s);
      t, k := QueueDrains(ProcessorStep(s).value);
      k := k + 1;
    }
  }
}
