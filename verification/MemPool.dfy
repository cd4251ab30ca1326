// The pool of mempool.c: a free list and a use list of the nodes of one block,
// and clones of nodes outside it.
module MemPool {
  import opened ListHead
  import opened Outcome
  import opened PoolLayout
  import opened Sequences

  function Backwards<T>(s: seq<T>): (r: seq<T>)
    ensures |r| == |s|
    ensures (forall x :: x in r ==> x in s) && (forall x :: x in s ==> x in r)
  {
    if s == [] then [] else
    assert s == s[..|s| - 1] + [s[|s| - 1]];
    [s[|s| - 1]] + Backwards(s[..|s| - 1])
  }

  ghost predicate Within(e: seq<ListHead>, nodes: seq<ListHead>) {
    forall i :: 0 <= i < |e| ==> e[i] in nodes
  }

  // The two lists are apart from each other and hold exactly the nodes of the
  // block; the clones are elsewhere.
  ghost predicate Placed(free: ListHead, freeList: seq<ListHead>, use: ListHead, useList: seq<ListHead>,
                         nodes: seq<ListHead>, clones: set<ListHead>) {
    && Disjoint([free] + freeList, [use] + useList)
    && Distinct(nodes) && (forall x :: x in nodes ==> x in freeList || x in useList)
    && Within(freeList, nodes) && Within(useList, nodes)
    && (forall x :: x in clones ==> x !in [free] + freeList && x !in [use] + useList)
  }

  ghost predicate Known(freeList: seq<ListHead>, useList: seq<ListHead>, clones: set<ListHead>, keys: set<ListHead>) {
    && (forall x :: x in freeList ==> x in keys) && (forall x :: x in useList ==> x in keys)
    && clones <= keys
  }

  // Moving entry k of one list to the front of the other keeps the split.
  lemma MoveKeepsPlaces(head: ListHead, e: seq<ListHead>, k: nat, other: ListHead, f: seq<ListHead>,
                        nodes: seq<ListHead>, clones: set<ListHead>, keys: set<ListHead>)
    requires k < |e| && Distinct([head] + e)
    requires Placed(head, e, other, f, nodes, clones) && Known(e, f, clones, keys)
    ensures Placed(head, Dropped(e, k), other, [e[k]] + f, nodes, clones)
    ensures Known(Dropped(e, k), [e[k]] + f, clones, keys)
  {
    DroppedLacks(head, e, k);
    DroppedWithin(head, e, k);
    assert e == e[..k] + [e[k]] + e[k + 1..];
    assert e[k] in [head] + e;
    forall x | x in e ensures x == e[k] || x in Dropped(e, k) {
    }
  }

  lemma FirstMoves(head: ListHead, x: ListHead, f: seq<ListHead>, e: seq<ListHead>)
    requires e != []
    ensures [head, x] + f == [head] + ([x] + f) && Dropped(e, 0) == e[1..]
  {
  }

  lemma PlacesSwap(head: ListHead, e: seq<ListHead>, other: ListHead, f: seq<ListHead>,
                   nodes: seq<ListHead>, clones: set<ListHead>)
    requires Placed(head, e, other, f, nodes, clones)
    ensures Placed(other, f, head, e, nodes, clones)
  {
  }

  lemma DroppedIsWithout(head: ListHead, e: seq<ListHead>, k: nat)
    requires Distinct([head] + e) && k < |e|
    ensures Dropped(e, k) == Without(e, e[k])
    decreases k
  {
    if k > 0 {
      assert ([head] + e)[1] != ([head] + e)[k + 1];
      assert Distinct([head] + e[1..]) by {
        var t := [head] + e[1..];
        forall i, j | 0 <= i < j < |t| ensures t[i] != t[j] {
          assert ([head] + e)[j + 1] == t[j] && ([head] + e)[if i == 0 then 0 else i + 1] == t[i];
        }
      }
      DroppedIsWithout(head, e[1..], k - 1);
      assert Dropped(e, k) == [e[0]] + Dropped(e[1..], k - 1);
    }
  }

  // list_del and list_add: entry k of one list becomes the first of another.
  method DelThenAdd(list: ListHead, head: ListHead, ghost from: ListHead, ghost e: seq<ListHead>, ghost k: nat,
                    ghost f: seq<ListHead>)
    requires Circle([from] + e) && Circle([head] + f) && Disjoint([head] + f, [from] + e) && k < |e| && e[k] == list
    modifies from, e, head, f
    ensures Circle([from] + Dropped(e, k)) && Circle([head, list] + f)
  {
    assert list in [from] + e;
    label Start:
    ListDel(list, from, e, k);
    forall x | x in [head] + f ensures x != from && x !in e { assert x !in [from] + e; }
    StaysCircle@Start([head] + f);
    DroppedLacks(from, e, k);
    DroppedWithin(from, e, k);
    forall x | x in [from] + Dropped(e, k) ensures x != list && x != head && x !in f {
      assert x in [from] + e && x !in [head] + f;
    }
    label Cut:
    ListAdd(list, head, f);
    StaysCircle@Cut([from] + Dropped(e, k));
  }

  class MemPool {
    const free: ListHead
    const use: ListHead
    const nodes: seq<ListHead>        // the headers in the block, by address
    const offsets: seq<nat>           // and where in the block they begin
    var payload: map<ListHead, seq<char>>
    ghost var freeList: seq<ListHead>
    ghost var useList: seq<ListHead>
    ghost var clones: set<ListHead>

    // The two lists are circles; the clones have null links.
    ghost predicate Valid()
      reads this, free, use, nodes, clones
    {
      && Placed(free, freeList, use, useList, nodes, clones)
      && Circle([free] + freeList) && Circle([use] + useList)
      && Known(freeList, useList, clones, payload.Keys)
      && (forall x :: x in clones ==> x.next == Null && x.prev == Null)
    }

    constructor (nodes: seq<ListHead>, offsets: seq<nat>, free: ListHead, use: ListHead, size: nat)
      requires Circle([free] + Backwards(nodes)) && Circle([use]) && use !in [free] + Backwards(nodes)
      requires Distinct(nodes)
      ensures Valid() && this.nodes == nodes && this.offsets == offsets && this.free == free && this.use == use
      ensures freeList == Backwards(nodes) && useList == [] && clones == {}
      ensures forall x :: x in nodes ==> x in payload && |payload[x]| == size
    {
      this.free, this.use, this.nodes, this.offsets := free, use, nodes, offsets;
      payload := map x | x in nodes :: seq(size, _ => '\0');
      freeList, useList, clones := Backwards(nodes), [], {};
      new;
      assert [use] + useList == [use];
    }

    // mem_pool_get under the lock: nothing, and the caller waits, or a node that
    // moves from the front of the free list to the front of the use list.
    method Get() returns (node: Option<ListHead>)
      requires Valid()
      modifies this, free, use, nodes
      ensures Valid() && payload == old(payload) && clones == old(clones)
      ensures old(freeList) == [] ==> node == None && freeList == [] && useList == old(useList)
      ensures old(freeList) != [] ==> node == Some(old(freeList[0])) && node.value in nodes
                                      && freeList == old(freeList[1..]) && useList == [node.value] + old(useList)
    {
      TestsDecide(free, freeList, 0);
      if ListEmpty(free) { return None; }
      var list := TakeFree();
      node := Some(list);
    }

    // Lines 61 to 63, also after the wait: the free list is not empty and its
    // first node is not the list head.
    method TakeFree() returns (list: ListHead)
      requires Valid() && freeList != []
      modifies this, free, use, nodes
      ensures Valid() && payload == old(payload) && clones == old(clones)
      ensures list == old(freeList[0]) && list != free && list in nodes
      ensures freeList == old(freeList[1..]) && useList == [list] + old(useList)
    {
      assert Joint([free] + freeList, 0);
      list := free.next.node;
      DelThenAdd(list, use, free, freeList, 0, useList);
      MoveKeepsPlaces(free, freeList, 0, use, useList, nodes, clones, payload.Keys);
      FirstMoves(use, list, useList, freeList);
      useList := [list] + useList;
      freeList := freeList[1..];
    }

    // mem_pool_put: no node is refused; a node with null links is freed; any
    // other goes back to the front of the free list. So exactly the clones are
    // freed.
    method Put(node: Option<ListHead>) returns (code: int, freed: bool)
      requires Valid() && (node.Some? ==> node.value in useList || node.value in clones)
      modifies this, free, use, nodes
      ensures Valid() && code == (if node.None? then 1 else 0)
      ensures freed <==> node.Some? && node.value in old(clones)
      ensures clones == if freed then old(clones) - {node.value} else old(clones)
      ensures payload == if freed then old(payload) - {node.value} else old(payload)
      ensures node.None? || freed ==> freeList == old(freeList) && useList == old(useList)
      ensures node.Some? && !freed ==>
        freeList == [node.value] + old(freeList) && useList == Without(old(useList), node.value)
    {
      if node.None? { return 1, false; }
      var list := node.value;
      if list in useList { UsedIsLinked(list); }
      if list.prev == Null && list.next == Null {
        clones := clones - {list};
        payload := payload - {list};
        return 0, true;
      }
      PutBack(list);
      return 0, false;
    }

    // The nodes of the two lists have no null links.
    lemma UsedIsLinked(x: ListHead)
      requires Valid() && x in useList
      ensures x.prev.To? && x.next.To? && x !in clones
    {
      var k :| 0 <= k < |useList| && useList[k] == x;
      FromEntry(use, useList, k);
      assert x in [use] + useList;
    }

    method PutBack(list: ListHead)
      requires Valid() && list in useList
      modifies this, free, use, nodes
      ensures Valid() && clones == old(clones) && payload == old(payload)
      ensures freeList == [list] + old(freeList) && useList == Without(old(useList), list)
    {
      ghost var k :| 0 <= k < |useList| && useList[k] == list;
      PlacesSwap(free, freeList, use, useList, nodes, clones);
      DelThenAdd(list, free, use, useList, k, freeList);
      MoveKeepsPlaces(use, useList, k, free, freeList, nodes, clones, payload.Keys);
      PlacesSwap(use, Dropped(useList, k), free, [list] + freeList, nodes, clones);
      DroppedIsWithout(use, useList, k);
      assert [free, list] + freeList == [free] + ([list] + freeList);
      freeList := [list] + freeList;
      useList := Dropped(useList, k);
    }

    // mem_pool_clone: a node outside the block, with null links and a copy of the
    // first size bytes.
    method Clone(node: ListHead, size: nat) returns (clone: ListHead)
      requires Valid() && node in payload && size <= |payload[node]|
      modifies this
      ensures Valid() && fresh(clone) && clones == old(clones) + {clone} && clone !in old(payload)
      ensures payload == old(payload)[clone := old(payload[node])[..size]]
      ensures freeList == old(freeList) && useList == old(useList)
    {
      clone := new ListHead();
      payload := payload[clone := payload[node][..size]];
      clones := clones + {clone};
    }
  }

  // One turn of the loop: the next header goes to the front of the free list.
  method AddNode(free: ListHead, nodes: seq<ListHead>) returns (node: ListHead)
    requires Circle([free] + Backwards(nodes)) && Distinct(nodes)
    modifies free, nodes
    ensures fresh(node) && Circle([free] + Backwards(nodes + [node])) && Distinct(nodes + [node])
  {
    node := new ListHead();
    ghost var held := Backwards(nodes);
    assert forall j :: 0 <= j < |held| ==> held[j] in nodes;
    ListAdd(node, free, held);
    assert [free, node] + held == [free] + Backwards(nodes + [node]);
  }

  // mem_pool_create: no pool without nodes; else every header goes to the front
  // of the free list, one stride after the other.
  method Create(num: int, size: nat) returns (pool: Option<MemPool>)
    requires num > 0 ==> Total(num, size) <= INT_MAX
    ensures pool.None? <==> num <= 0
    ensures pool.Some? ==> (var p := pool.value;
      p.Valid() && |p.nodes| == |p.offsets| == num && p.freeList == Backwards(p.nodes) && p.useList == []
      && (forall i :: 0 <= i < num ==> p.offsets[i] == Header(i, size))
      && (forall x :: x in p.nodes ==> x in p.payload && |p.payload[x]| == size))
  {
    if num <= 0 { return None; }
    var free := new ListHead();
    var use := new ListHead();
    InitListHead(free);
    InitListHead(use);
    var nodes, offsets := AddNodes(free, num, size);
    var made := new MemPool(nodes, offsets, free, use, size);
    pool := Some(made);
  }

  // The loop.
  method AddNodes(free: ListHead, num: nat, size: nat) returns (nodes: seq<ListHead>, offsets: seq<nat>)
    requires Circle([free])
    modifies free
    ensures Circle([free] + Backwards(nodes)) && Distinct(nodes) && forall j :: 0 <= j < |nodes| ==> fresh(nodes[j])
    ensures |nodes| == |offsets| == num && forall j :: 0 <= j < num ==> offsets[j] == Header(j, size)
  {
    var i, list := 0, POOL_SIZE;
    nodes, offsets := [], [];
    assert [free] + Backwards(nodes) == [free];
    while i < num
      invariant 0 <= i <= num && |nodes| == |offsets| == i && list == Header(i, size)
      invariant Circle([free] + Backwards(nodes)) && Distinct(nodes)
      invariant forall j :: 0 <= j < |nodes| ==> fresh(nodes[j])
      invariant forall j :: 0 <= j < i ==> offsets[j] == Header(j, size)
    {
      var node := AddNode(free, nodes);
      nodes := nodes + [node];
      offsets := offsets + [list];
      NextHeader(i, size);
      list := list + Stride(size);
      i := i + 1;
    }
  }
}
