// The packet queue of queue.c: a chain of cells with a pointer to either end,
// which refines a sequence of packets.
module ListQueue {
  class MyList<T> {
    var pkt: T
    var next: MyList?<T>

    constructor (pkt: T)
      ensures this.pkt == pkt && next == null
    {
      this.pkt, next := pkt, null;
    }
  }

  // What list_queue_get comes back with: -1, 1 and a packet, 0; or it waits.
  datatype Answer<T> = Aborted | Taken(pkt: T) | NoPacket | Waits

  predicate Chained<T>(cells: seq<MyList<T>>, i: nat)
    requires i < |cells|
    reads cells
  {
    cells[i].next == if i + 1 < |cells| then cells[i + 1] else null
  }

  class ListQueue<T> {
    var first: MyList?<T>
    var last: MyList?<T>
    var num: int
    var abortRequest: bool
    ghost var cells: seq<MyList<T>>
    ghost var packets: seq<T>
    ghost var live: set<MyList<T>>     // cells allocated and not freed

    // The cells are chained from first to last, hold the packets in order, and
    // are all that is allocated.
    ghost predicate Valid()
      reads this, cells
    {
      && num == |cells| == |packets|
      && (forall i, j :: 0 <= i < j < |cells| ==> cells[i] != cells[j])
      && (forall i :: 0 <= i < |cells| ==> cells[i].pkt == packets[i])
      && (forall i :: 0 <= i < |cells| ==> Chained(cells, i))
      && first == (if cells == [] then null else cells[0])
      && last == (if cells == [] then null else cells[|cells| - 1])
      && live == (set x | x in cells)
    }

    // list_queue_init: empty, and aborted until the caller clears the flag.
    constructor ()
      ensures Valid() && packets == [] && abortRequest && cells == []
    {
      first, last, num, abortRequest := null, null, 0, true;
      cells, packets, live := [], [], {};
    }

    // list_queue_put: refused when aborted, else at the end.
    method Put(pkt: T) returns (code: int)
      requires Valid()
      modifies this, cells
      ensures Valid() && abortRequest == old(abortRequest)
      ensures code == (if abortRequest then -1 else 0)
      ensures packets == if abortRequest then old(packets) else old(packets) + [pkt]
      ensures forall x :: x in cells && x !in old(cells) ==> fresh(x)
    {
      if abortRequest { return -1; }
      var ml := new MyList(pkt);
      live := live + {ml};
      if last == null {
        first := ml;
      } else {
        last.next := ml;
      }
      last := ml;
      num := num + 1;
      cells, packets := cells + [ml], packets + [pkt];
      forall i | 0 <= i < |cells| ensures Chained(cells, i) { assert i < |old(cells)| ==> old(Chained(cells, i)); }
      code := 0;
    }

    // One turn of the loop in list_queue_get, under the lock: aborted, or the
    // first packet, or none, or the caller waits and comes back.
    method Get(block: bool) returns (answer: Answer<T>)
      requires Valid()
      modifies this
      ensures Valid() && abortRequest == old(abortRequest)
      ensures answer == if abortRequest then Aborted else if old(packets) != [] then Taken(old(packets[0]))
                        else if block then Waits else NoPacket
      ensures packets == if answer.Taken? then old(packets[1..]) else old(packets)
      ensures cells == if answer.Taken? then old(cells[1..]) else old(cells)
    {
      if abortRequest { return Aborted; }
      if first != null {
        var pkt1 := first;
        assert Chained(cells, 0);
        first := pkt1.next;
        if first == null { last := null; }
        num := num - 1;
        answer := Taken(pkt1.pkt);
        live := live - {pkt1};
        cells, packets := cells[1..], packets[1..];
        forall i | 0 <= i < |cells| ensures Chained(cells, i) { assert old(Chained(cells, i + 1)); }
      } else {
        answer := if block then Waits else NoPacket;
      }
    }

    // list_queue_flush: walks the chain, reads the next pointer of a cell before
    // it frees it, and leaves nothing allocated.
    method Flush()
      requires Valid()
      modifies this
      ensures Valid() && packets == [] && live == {} && cells == [] && abortRequest == old(abortRequest)
    {
      var pkt := first;
      ghost var k := 0;
      while pkt != null
        invariant cells == old(cells) && 0 <= k <= |cells| && abortRequest == old(abortRequest)
        invariant pkt == if k < |cells| then cells[k] else null
        invariant live == set x | x in cells[k..]
        decreases |cells| - k
      {
        assert pkt in live && Chained(cells, k);
        var pkt1 := pkt.next;
        live := live - {pkt};
        pkt := pkt1;
        k := k + 1;
      }
      last, first, num := null, null, 0;
      cells, packets := [], [];
    }
  }
}
