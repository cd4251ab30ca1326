// The ring queue: one producer and one consumer, which move their index outside
// the lock and change the size inside it.
module RingQueue {
  // The fields of struct RingQueue but for the mutex, the condition and the
  // abort flag, which is clear while the queue is in use.
  datatype Ring = Ring(slots: seq<Packet>, rindex: nat, windex: nat, size: int, max: nat)

  type Packet = seq<char>

  const RING_QUEUE_SIZE := 32

  // `if (++index == max_size) index = 0;`
  function Bump(index: nat, max: nat): nat {
    if index + 1 == max then 0 else index + 1
  }

  // The index after k bumps from zero.
  function Slot(k: nat, max: nat): (i: nat)
    requires max >= 1
    ensures i < max
  {
    if k == 0 then 0 else Bump(Slot(k - 1, max), max)
  }

  // The slot i places after the read index.
  function Place(rindex: nat, i: nat, max: nat): nat
    requires rindex < max && i <= max
  {
    if rindex + i < max then rindex + i else rindex + i - max
  }

  lemma {:induction false} SlotAhead(k: nat, d: nat, max: nat)
    requires max >= 1 && d <= max
    ensures Slot(k + d, max) == Place(Slot(k, max), d, max)
    decreases d
  {
    if d > 0 { SlotAhead(k, d - 1, max); }
  }

  // The index counts modulo the size of the ring: it is below max and differs
  // from the number of bumps by a multiple of it.
  lemma {:induction false} SlotIsRemainder(k: nat, max: nat) returns (q: nat)
    requires max >= 1
    ensures k == q * max + Slot(k, max)
    decreases k
  {
    if k == 0 {
      q := 0;
    } else {
      q := SlotIsRemainder(k - 1, max);
      if Slot(k - 1, max) + 1 == max {
        assert (q + 1) * max == q * max + max;
        q := q + 1;
      }
    }
  }

  predicate MayWrite(q: Ring) { q.size < q.max }
  predicate MayRead(q: Ring) { q.size > 0 }
  function WriteBumped(q: Ring): Ring { q.(windex := Bump(q.windex, q.max)) }
  function ReadBumped(q: Ring): Ring { q.(rindex := Bump(q.rindex, q.max)) }
  function Resized(q: Ring, delta: int): Ring { q.(size := q.size + delta) }

  // What a peek comes back with: null when aborted, or a slot; or it waits.
  datatype Peeked = Aborted | Waits | At(index: nat)

  class RingQueue {
    var queue: array<Packet>
    var rindex: nat
    var windex: nat
    var size: int
    var maxSize: int
    var abortRequest: bool
    ghost var contents: seq<Packet>

    // The packets stand one after the other from the read index to the write index.
    ghost predicate Valid()
      reads this, queue
    {
      && queue.Length == RING_QUEUE_SIZE && 1 <= maxSize <= RING_QUEUE_SIZE
      && size == |contents| <= maxSize && rindex < maxSize
      && windex == Place(rindex, size, maxSize)
      && forall i :: 0 <= i < |contents| ==> queue[Place(rindex, i, maxSize)] == contents[i]
    }

    // The fields, as the steps of the two threads see them.
    ghost function AsRing(): Ring
      requires Valid()
      reads this, queue
    {
      Ring(queue[..], rindex, windex, size, maxSize)
    }

    // ring_queue_init: no more slots than the array has, and aborted until the
    // caller clears the flag. Without a slot there is no queue.
    constructor (max: int)
      ensures maxSize == (if max > RING_QUEUE_SIZE then RING_QUEUE_SIZE else max) && abortRequest && fresh(queue)
      ensures contents == [] && (Valid() <==> max >= 1)
    {
      queue := new Packet[RING_QUEUE_SIZE];
      rindex, windex, size, abortRequest := 0, 0, 0, true;
      maxSize := if max > RING_QUEUE_SIZE then RING_QUEUE_SIZE else max;
      contents := [];
    }

    // ring_queue_peek_writable, one turn of its loop: a slot that holds none of
    // the packets, exactly if there is room.
    method PeekWritable() returns (p: Peeked)
      requires Valid()
      ensures p.Aborted? <==> abortRequest
      ensures p.Waits? <==> !abortRequest && |contents| == maxSize
      ensures |contents| == maxSize <==> !MayWrite(AsRing())
      ensures p.At? ==> p.index == windex < queue.Length
      ensures p.At? ==> forall i :: 0 <= i < |contents| ==> Place(rindex, i, maxSize) != p.index
    {
      if size >= maxSize && !abortRequest { return Waits; }
      if abortRequest { return Aborted; }
      p := At(windex);
    }

    // ring_queue_peek_readable: the slot of the first packet, exactly if there is one.
    method PeekReadable() returns (p: Peeked)
      requires Valid()
      ensures p.Aborted? <==> abortRequest
      ensures p.Waits? <==> !abortRequest && contents == []
      ensures contents == [] <==> !MayRead(AsRing())
      ensures p.At? ==> contents != [] && p.index < queue.Length && queue[p.index] == contents[0]
    {
      if size <= 0 && !abortRequest { return Waits; }
      if abortRequest { return Aborted; }
      p := At(rindex);
    }

    // What the caller does with a writable slot: no packet in the queue notices.
    method Write(slot: nat, packet: Packet)
      requires Valid() && |contents| < maxSize && slot == windex
      modifies queue
      ensures Valid() && contents == old(contents) && queue[slot] == packet
      ensures AsRing() == old(AsRing()).(slots := old(AsRing().slots)[slot := packet])
    {
      queue[slot] := packet;
    }

    // ring_queue_push: the packet in the write slot joins the end.
    method Push()
      requires Valid() && |contents| < maxSize
      modifies this
      ensures Valid() && queue == old(queue) && maxSize == old(maxSize) && abortRequest == old(abortRequest)
      ensures contents == old(contents) + [queue[old(windex)]]
      ensures AsRing() == Resized(WriteBumped(old(AsRing())), 1)
    {
      contents := contents + [queue[windex]];
      windex := windex + 1;
      if windex == maxSize { windex := 0; }
      size := size + 1;
    }

    // ring_queue_pull: the first packet leaves.
    method Pull()
      requires Valid() && contents != []
      modifies this
      ensures Valid() && queue == old(queue) && maxSize == old(maxSize) && abortRequest == old(abortRequest)
      ensures contents == old(contents[1..])
      ensures AsRing() == Resized(ReadBumped(old(AsRing())), -1)
    {
      contents := contents[1..];
      rindex := rindex + 1;
      if rindex == maxSize { rindex := 0; }
      size := size - 1;
    }
  }
}
