// The ring queue between one producer and one consumer, step by step. The two
// share one mutex and one condition; each moves its own index without the lock.
module RingProtocol {
  import opened Outcome
  import opened RingQueue

  datatype Side = Producer | Consumer

  // ring_queue_peek_writable, the write, ring_queue_push.
  datatype ProducerAt =
    | WantRoom                 // before the lock
    | TestRoom                 // holds the lock; looks at size
    | AwaitRoom                // in the wait set
    | RelockRoom               // woken; needs the lock again
    | FoundRoom                // holds the lock; unlocks
    | AddressRoom              // reads windex
    | Writing(slot: nat)
    | BumpRoom                 // moves windex
    | LockRoom
    | CountUp                  // holds the lock; size++
    | SignalItem               // holds the lock; signals
    | LeaveRoom                // holds the lock; unlocks

  // ring_queue_peek_readable, the read, ring_queue_pull.
  datatype ConsumerAt =
    | WantItem
    | TestItem
    | AwaitItem
    | RelockItem
    | FoundItem
    | AddressItem
    | Reading(slot: nat)
    | BumpItem
    | LockItem
    | CountDown
    | SignalRoom
    | LeaveItem

  datatype State = State(
    ring: Ring, lock: Option<Side>, waiting: set<Side>, p: ProducerAt, c: ConsumerAt,
    sent: seq<Packet>,         // written to slots, in order
    received: seq<Packet>)     // read from slots, in order

  // What the surroundings choose: the packet to send, and whether a waiting
  // thread wakes without a signal.
  datatype Choice = Choice(packet: Packet, spurious: bool)

  predicate Init(s: State) {
    && 1 <= s.ring.max <= |s.ring.slots| && s.ring.rindex == 0 && s.ring.windex == 0 && s.ring.size == 0
    && s.lock == None && s.waiting == {} && s.p == WantRoom && s.c == WantItem && s.sent == [] && s.received == []
  }

  function ProducerStep(s: State, choice: Choice): Option<State> {
    match s.p
    case WantRoom => if s.lock == None then Some(s.(lock := Some(Producer), p := TestRoom)) else None
    case TestRoom =>
      if MayWrite(s.ring) then Some(s.(p := FoundRoom))
      else Some(s.(lock := None, waiting := s.waiting + {Producer}, p := AwaitRoom))
    case AwaitRoom =>
      if choice.spurious then Some(s.(waiting := s.waiting - {Producer}, p := RelockRoom)) else None
    case RelockRoom => if s.lock == None then Some(s.(lock := Some(Producer), p := TestRoom)) else None
    case FoundRoom => Some(s.(lock := None, p := AddressRoom))
    case AddressRoom => Some(s.(p := Writing(s.ring.windex)))
    case Writing(slot) =>
      if slot >= |s.ring.slots| then None
      else Some(s.(ring := s.ring.(slots := s.ring.slots[slot := choice.packet]), sent := s.sent + [choice.packet],
                   p := BumpRoom))
    case BumpRoom => Some(s.(ring := WriteBumped(s.ring), p := LockRoom))
    case LockRoom => if s.lock == None then Some(s.(lock := Some(Producer), p := CountUp)) else None
    case CountUp => Some(s.(ring := Resized(s.ring, 1), p := SignalItem))
    case SignalItem =>
      Some(s.(waiting := s.waiting - {Consumer}, p := LeaveRoom,
              c := if Consumer in s.waiting then RelockItem else s.c))
    case LeaveRoom => Some(s.(lock := None, p := WantRoom))
  }

  function ConsumerStep(s: State, choice: Choice): Option<State> {
    match s.c
    case WantItem => if s.lock == None then Some(s.(lock := Some(Consumer), c := TestItem)) else None
    case TestItem =>
      if MayRead(s.ring) then Some(s.(c := FoundItem))
      else Some(s.(lock := None, waiting := s.waiting + {Consumer}, c := AwaitItem))
    case AwaitItem =>
      if choice.spurious then Some(s.(waiting := s.waiting - {Consumer}, c := RelockItem)) else None
    case RelockItem => if s.lock == None then Some(s.(lock := Some(Consumer), c := TestItem)) else None
    case FoundItem => Some(s.(lock := None, c := AddressItem))
    case AddressItem => Some(s.(c := Reading(s.ring.rindex)))
    case Reading(slot) =>
      if slot >= |s.ring.slots| then None
      else Some(s.(received := s.received + [s.ring.slots[slot]], c := BumpItem))
    case BumpItem => Some(s.(ring := ReadBumped(s.ring), c := LockItem))
    case LockItem => if s.lock == None then Some(s.(lock := Some(Consumer), c := CountDown)) else None
    case CountDown => Some(s.(ring := Resized(s.ring, -1), c := SignalRoom))
    case SignalRoom =>
      Some(s.(waiting := s.waiting - {Producer}, c := LeaveItem,
              p := if Producer in s.waiting then RelockRoom else s.p))
    case LeaveItem => Some(s.(lock := None, c := WantItem))
  }

  ghost predicate Next(s: State, t: State) {
    exists choice :: ProducerStep(s, choice) == Some(t) || ConsumerStep(s, choice) == Some(t)
  }

  ghost predicate Run(run: seq<State>) {
    run != [] && Init(run[0]) && forall i :: 0 <= i < |run| - 1 ==> Next(run[i], run[i + 1])
  }

  ghost predicate Reachable(s: State) {
    exists run :: Run(run) && run[|run| - 1] == s
  }

  // Who may be where while the lock is held, and who waits.
  predicate LockKept(s: State) {
    && (s.lock == Some(Producer) <==>
        s.p.TestRoom? || s.p.FoundRoom? || s.p.CountUp? || s.p.SignalItem? || s.p.LeaveRoom?)
    && (s.lock == Some(Consumer) <==>
        s.c.TestItem? || s.c.FoundItem? || s.c.CountDown? || s.c.SignalRoom? || s.c.LeaveItem?)
    && (Producer in s.waiting <==> s.p.AwaitRoom?)
    && (Consumer in s.waiting <==> s.c.AwaitItem?)
  }

  // A packet is in its slot but not yet counted; a packet was read but is still counted.
  predicate Uncounted(p: ProducerAt) { p.BumpRoom? || p.LockRoom? || p.CountUp? }
  predicate Overcounted(c: ConsumerAt) { c.BumpItem? || c.LockItem? || c.CountDown? }

  // Between finding room and counting the packet; between finding one and discounting it.
  predicate HasRoom(p: ProducerAt) { p.FoundRoom? || p.AddressRoom? || p.Writing? || Uncounted(p) }
  predicate HasItem(c: ConsumerAt) { c.FoundItem? || c.AddressItem? || c.Reading? || Overcounted(c) }

  // The size counts the packets in the ring, but for what the two threads have
  // in their hands; and whoever waits has nothing to wait for but a signal.
  predicate SizeKept(s: State) {
    && 1 <= s.ring.max <= |s.ring.slots|
    && 0 <= s.ring.size <= s.ring.max
    && s.ring.size == |s.sent| - |s.received| - (if Uncounted(s.p) then 1 else 0) + (if Overcounted(s.c) then 1 else 0)
    && (HasRoom(s.p) ==> s.ring.size < s.ring.max)
    && (HasItem(s.c) ==> s.ring.size > 0)
    && (s.p.AwaitRoom? ==> s.ring.size == s.ring.max || s.c.SignalRoom?)
    && (s.c.AwaitItem? ==> s.ring.size == 0 || s.p.SignalItem?)
  }

  // The indices point where the counts say.
  predicate IndicesKept(s: State) {
    && s.ring.max >= 1
    && (s.p.BumpRoom? ==> s.sent != [])
    && (s.c.BumpItem? ==> s.received != [])
    && s.ring.windex == Slot(if s.p.BumpRoom? then |s.sent| - 1 else |s.sent|, s.ring.max)
    && s.ring.rindex == Slot(if s.c.BumpItem? then |s.received| - 1 else |s.received|, s.ring.max)
    && (s.p.Writing? ==> s.p.slot == s.ring.windex)
    && (s.c.Reading? ==> s.c.slot == s.ring.rindex)
  }

  // The i-th packet sent is in its slot until it is received.
  predicate InSlot(s: State, i: nat)
    requires 1 <= s.ring.max <= |s.ring.slots| && i < |s.sent|
  {
    s.ring.slots[Slot(i, s.ring.max)] == s.sent[i]
  }

  ghost predicate SlotsKept(s: State) {
    && 1 <= s.ring.max <= |s.ring.slots|
    && s.received <= s.sent
    && forall i :: |s.received| <= i < |s.sent| ==> InSlot(s, i)
  }

  ghost predicate Inv(s: State) {
    LockKept(s) && SizeKept(s) && IndicesKept(s) && SlotsKept(s)
  }

  lemma ProducerKeepsLock(s: State, choice: Choice, t: State)
    requires LockKept(s) && ProducerStep(s, choice) == Some(t)
    ensures LockKept(t)
  {
  }

  lemma ConsumerKeepsLock(s: State, choice: Choice, t: State)
    requires LockKept(s) && ConsumerStep(s, choice) == Some(t)
    ensures LockKept(t)
  {
  }

  lemma ProducerKeepsSize(s: State, choice: Choice, t: State)
    requires LockKept(s) && SizeKept(s) && ProducerStep(s, choice) == Some(t)
    ensures SizeKept(t)
  {
  }

  lemma ConsumerKeepsSize(s: State, choice: Choice, t: State)
    requires LockKept(s) && SizeKept(s) && ConsumerStep(s, choice) == Some(t)
    ensures SizeKept(t)
  {
  }

  lemma ProducerKeepsIndices(s: State, choice: Choice, t: State)
    requires LockKept(s) && IndicesKept(s) && ProducerStep(s, choice) == Some(t)
    ensures IndicesKept(t)
  {
  }

  lemma ConsumerKeepsIndices(s: State, choice: Choice, t: State)
    requires LockKept(s) && IndicesKept(s) && ConsumerStep(s, choice) == Some(t)
    ensures IndicesKept(t)
  {
  }

  // Fewer than max bumps apart is in different slots.
  lemma SlotsDiffer(i: nat, j: nat, max: nat)
    requires max >= 1 && i < j < i + max
    ensures Slot(i, max) != Slot(j, max)
  {
    SlotAhead(i, j - i, max);
  }

  lemma ProducerKeepsSlots(s: State, choice: Choice, t: State)
    requires SizeKept(s) && IndicesKept(s) && SlotsKept(s) && ProducerStep(s, choice) == Some(t)
    ensures SlotsKept(t)
  {
    if s.p.Writing? {
      WriteKeepsSlots(s, choice.packet, t);
    } else {
      ProducerOnlyWrites(s, choice, t);
      SlotsStay(s, t);
    }
  }

  lemma WriteKeepsSlots(s: State, packet: Packet, t: State)
    requires SizeKept(s) && IndicesKept(s) && SlotsKept(s) && s.p.Writing?
    requires t.ring == s.ring.(slots := s.ring.slots[s.p.slot := packet])
    requires t.sent == s.sent + [packet] && t.received == s.received
    ensures SlotsKept(t)
  {
    forall i | |t.received| <= i < |t.sent| ensures InSlot(t, i) {
      if i < |s.sent| {
        assert InSlot(s, i);
        SlotsDiffer(i, |s.sent|, s.ring.max);
      }
    }
  }

  lemma ProducerOnlyWrites(s: State, choice: Choice, t: State)
    requires ProducerStep(s, choice) == Some(t) && !s.p.Writing?
    ensures t.ring.slots == s.ring.slots && t.ring.max == s.ring.max && t.sent == s.sent && t.received == s.received
  {
  }

  lemma ConsumerOnlyReads(s: State, choice: Choice, t: State)
    requires ConsumerStep(s, choice) == Some(t)
    ensures t.ring.slots == s.ring.slots && t.ring.max == s.ring.max && t.sent == s.sent
    ensures if s.c.Reading? then s.c.slot < |s.ring.slots| && t.received == s.received + [s.ring.slots[s.c.slot]]
            else t.received == s.received
  {
  }

  lemma SlotsStay(s: State, t: State)
    requires SlotsKept(s) && t.received <= t.sent && |s.received| <= |t.received|
    requires t.ring.slots == s.ring.slots && t.ring.max == s.ring.max && t.sent == s.sent
    ensures SlotsKept(t)
  {
    forall i | |t.received| <= i < |t.sent| ensures InSlot(t, i) { assert InSlot(s, i); }
  }

  lemma ConsumerKeepsSlots(s: State, choice: Choice, t: State)
    requires SizeKept(s) && IndicesKept(s) && SlotsKept(s) && ConsumerStep(s, choice) == Some(t)
    ensures SlotsKept(t)
  {
    ConsumerOnlyReads(s, choice, t);
    if s.c.Reading? { assert InSlot(s, |s.received|); }
    SlotsStay(s, t);
  }

  lemma StepKeepsInv(s: State, t: State)
    requires Inv(s) && Next(s, t)
    ensures Inv(t) && t.ring.max == s.ring.max
  {
    var choice :| ProducerStep(s, choice) == Some(t) || ConsumerStep(s, choice) == Some(t);
    if ProducerStep(s, choice) == Some(t) {
      ProducerKeepsLock(s, choice, t);
      ProducerKeepsSize(s, choice, t);
      ProducerKeepsIndices(s, choice, t);
      ProducerKeepsSlots(s, choice, t);
    } else {
      ConsumerKeepsLock(s, choice, t);
      ConsumerKeepsSize(s, choice, t);
      ConsumerKeepsIndices(s, choice, t);
      ConsumerKeepsSlots(s, choice, t);
    }
  }

  lemma {:induction false} RunKeepsInv(run: seq<State>, k: nat)
    requires Run(run) && k < |run|
    ensures Inv(run[k]) && run[k].ring.max == run[0].ring.max
    decreases k
  {
    if k > 0 {
      RunKeepsInv(run, k - 1);
      assert Next(run[k - 1], run[k - 1 + 1]);
      StepKeepsInv(run[k - 1], run[k]);
    }
  }

  lemma ReachableKeepsInv(s: State)
    requires Reachable(s)
    ensures Inv(s)
  {
    var run :| Run(run) && run[|run| - 1] == s;
    RunKeepsInv(run, |run| - 1);
  }

  // What the ring holds, oldest first.
  function Items(s: State): seq<Packet>
    requires s.received <= s.sent
  {
    s.sent[|s.received|..]
  }

  // Nothing is lost, duplicated, reordered or overwritten: the packets read are
  // the first of those written, and the others stand in their slots, at most
  // max of them.
  lemma NothingIsOverwritten(s: State, i: nat)
    requires Reachable(s)
    ensures 1 <= s.ring.max <= |s.ring.slots|
    ensures s.received <= s.sent && |Items(s)| <= s.ring.max
    ensures i < |Items(s)| ==> s.ring.slots[Slot(|s.received| + i, s.ring.max)] == Items(s)[i]
  {
    ReachableKeepsInv(s);
    if i < |Items(s)| { assert InSlot(s, |s.received| + i); }
  }

  // Also between the bump of an index and the change of the size, the indices
  // and the size agree modulo max: the write index is ahead of the read index
  // by the size, give or take the packet a thread has in its hands.
  lemma IndicesAndSizeAgree(s: State)
    requires Reachable(s)
    ensures 0 <= s.ring.size <= s.ring.max
    ensures (var ahead := s.ring.size + (if s.p.LockRoom? || s.p.CountUp? then 1 else 0)
                                      - (if s.c.LockItem? || s.c.CountDown? then 1 else 0);
      0 <= ahead <= s.ring.max
      && s.ring.windex == (if s.ring.rindex + ahead < s.ring.max then s.ring.rindex + ahead
                           else s.ring.rindex + ahead - s.ring.max))
  {
    ReachableKeepsInv(s);
    var w := if s.p.BumpRoom? then |s.sent| - 1 else |s.sent|;
    var r := if s.c.BumpItem? then |s.received| - 1 else |s.received|;
    SlotAhead(r, w - r, s.ring.max);
  }

  // The slot being written is not one being read, nor one still to be read.
  lemma WriterIsAlone(s: State)
    requires Reachable(s) && s.p.Writing?
    ensures s.p.slot < |s.ring.slots| && s.ring.max >= 1
    ensures s.c.Reading? ==> s.c.slot != s.p.slot
    ensures forall i :: |s.received| <= i < |s.sent| ==> Slot(i, s.ring.max) != s.p.slot
  {
    var run :| Run(run) && run[|run| - 1] == s;
    RunKeepsInv(run, |run| - 1);
    forall i | |s.received| <= i < |s.sent| ensures Slot(i, s.ring.max) != s.p.slot {
      SlotsDiffer(i, |s.sent|, s.ring.max);
    }
  }

  // The writer's step puts its packet at the end of a first-in first-out queue
  // that has room; no other step of the producer changes the queue.
  lemma ProducerIsFifo(s: State, choice: Choice, t: State)
    requires Reachable(s) && ProducerStep(s, choice) == Some(t)
    ensures s.received <= s.sent && t.received == s.received && t.received <= t.sent
    ensures s.p.Writing? ==> |Items(s)| < s.ring.max
    ensures Items(t) == Items(s) + if s.p.Writing? then [choice.packet] else []
  {
    var run :| Run(run) && run[|run| - 1] == s;
    RunKeepsInv(run, |run| - 1);
  }

  // The reader's step takes the packet at its front; no other step of the
  // consumer changes the queue.
  lemma ConsumerIsFifo(s: State, choice: Choice, t: State)
    requires Reachable(s) && ConsumerStep(s, choice) == Some(t)
    ensures s.received <= s.sent && t.sent == s.sent && t.received <= t.sent
    ensures s.c.Reading? ==> Items(s) != [] && t.received == s.received + [Items(s)[0]] && Items(t) == Items(s)[1..]
    ensures !s.c.Reading? ==> t.received == s.received
  {
    var run :| Run(run) && run[|run| - 1] == s;
    RunKeepsInv(run, |run| - 1);
    if s.c.Reading? { assert InSlot(s, |s.received|); }
  }

  // No lost wakeup: with the lock free, a thread that waits has nothing to wait
  // for. The two never wait together, and without any spurious wakeup some
  // thread can move.
  lemma NoLostWakeup(s: State, choice: Choice)
    requires Reachable(s)
    ensures s.lock == None && Producer in s.waiting ==> s.ring.size == s.ring.max
    ensures s.lock == None && Consumer in s.waiting ==> s.ring.size == 0
    ensures !(Producer in s.waiting && Consumer in s.waiting)
    ensures ProducerStep(s, choice).Some? || ConsumerStep(s, choice).Some?
  {
    var run :| Run(run) && run[|run| - 1] == s;
    RunKeepsInv(run, |run| - 1);
    if s.lock.Some? { match s.lock.value case Producer => case Consumer => }
  }

  // The producer is outside its critical sections.
  predicate ProducerOutside(s: State) {
    s.lock != Some(Producer)
  }

  // How many steps the consumer is away from waiting at an empty ring.
  function Distance(s: State): int {
    10 * s.ring.size +
    match s.c
    case LeaveItem => 3
    case SignalRoom => 4
    case WantItem => 2
    case RelockItem => 2
    case TestItem => 1
    case AwaitItem => 0
    case FoundItem => 0
    case AddressItem => -1
    case Reading(_) => -2
    case BumpItem => -3
    case LockItem => -4
    case CountDown => -5
  }

  lemma ConsumerMoves(s: State, choice: Choice)
    requires Inv(s) && ProducerOutside(s) && !s.c.AwaitItem?
    ensures ConsumerStep(s, choice).Some?
  {
    if s.lock.Some? { match s.lock.value case Producer => case Consumer => }
  }

  lemma ConsumerComesNearer(s: State, choice: Choice, t: State)
    requires LockKept(s) && SizeKept(s) && ProducerOutside(s) && !s.c.AwaitItem? && ConsumerStep(s, choice) == Some(t)
    ensures ProducerOutside(t) && 0 <= Distance(t) < Distance(s)
    ensures t.sent == s.sent && Uncounted(t.p) == Uncounted(s.p)
  {
  }

  // While the producer is outside its critical sections every step of the
  // consumer brings it nearer to an empty ring.
  lemma ConsumerAdvances(s: State, choice: Choice)
    requires Inv(s) && ProducerOutside(s) && !s.c.AwaitItem?
    ensures ConsumerStep(s, choice).Some?
    ensures var t := ConsumerStep(s, choice).value;
            && Inv(t) && ProducerOutside(t) && 0 <= Distance(t) < Distance(s)
            && t.sent == s.sent && Uncounted(t.p) == Uncounted(s.p)
  {
    ConsumerMoves(s, choice);
    StepKeepsInv(s, ConsumerStep(s, choice).value);
    ConsumerComesNearer(s, choice, ConsumerStep(s, choice).value);
  }

  // k steps of the consumer alone, none of them a wakeup without a signal.
  ghost predicate Drains(s: State, t: State, k: nat)
    decreases k
  {
    if k == 0 then t == s
    else ConsumerStep(s, Choice([], false)).Some? && Drains(ConsumerStep(s, Choice([], false)).value, t, k - 1)
  }

  // Left to run, the consumer reads every packet counted so far within Distance
  // steps; all that can be left is the one packet that the producer has written
  // and not counted. A producer that waited for room has been woken.
  lemma {:induction false} RingDrains(s: State) returns (t: State, k: nat)
    requires Inv(s) && ProducerOutside(s)
    ensures k <= Distance(s) && Drains(s, t, k) && Inv(t) && t.c.AwaitItem? && t.ring.size == 0
    ensures t.sent == s.sent && |t.sent| == |t.received| + (if Uncounted(s.p) then 1 else 0) && t.received <= t.sent
    ensures !t.p.AwaitRoom?
    decreases Distance(s)
  {
    if s.c.AwaitItem? {
      t, k := s, 0;
    } else {
      ConsumerAdvances(s, Choice([], false));
      t, k := RingDrains(ConsumerStep(s, Choice([], false)).value);
      k := k + 1;
    }
  }
}
