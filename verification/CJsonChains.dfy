// The utilities on child chains: look up, append, detach, replace, and
// references to items that live elsewhere.
module CJsonChains {
  import opened CJsonHeap
  import opened CJsonMemory
  import CString

  function Kid(f: Forest, i: nat): Tree
    requires i < Length(f)
  {
    if i == 0 then f.head else Kid(f.tail, i - 1)
  }

  function RemoveAt(f: Forest, i: nat): Forest
    requires i < Length(f)
  {
    if i == 0 then f.tail else Cons(f.head, RemoveAt(f.tail, i - 1))
  }

  function ReplaceAt(f: Forest, i: nat, t: Tree): Forest
    requires i < Length(f)
  {
    if i == 0 then Cons(t, f.tail) else Cons(f.head, ReplaceAt(f.tail, i - 1, t))
  }

  // A kid with this name, letters compared without case.
  predicate Named(t: Tree, name: string) {
    t.name.At? && CString.Lower(t.name.text) == CString.Lower(name)
  }

  // Index of the first kid with the name, or the length when there is none.
  function FirstNamed(f: Forest, name: string): (i: nat)
    ensures i <= Length(f)
    ensures i < Length(f) ==> Named(Kid(f, i), name)
    ensures forall j :: 0 <= j < i ==> !Named(Kid(f, j), name)
  {
    if f.Nil? || Named(f.head, name) then 0
    else
      var i := FirstNamed(f.tail, name);
      assert forall j :: 0 < j < i + 1 ==> Kid(f, j) == Kid(f.tail, j - 1);
      i + 1
  }

  // The heap after the node at x is taken off its chain.
  function Unlinked(h: Heap, x: Ptr): Heap
    requires x in h.nodes
  {
    var before, after := h.nodes[x].prev, h.nodes[x].next;
    var n1 := if before in h.nodes then h.nodes[before := h.nodes[before].(next := after)] else h.nodes;
    var n2 := if after in n1 then n1[after := n1[after].(prev := before)] else n1;
    Heap(n2[x := n2[x].(next := 0, prev := 0)], h.texts)
  }

  // The heap apart from the trees involved is as it was, and no node appears
  // or disappears.
  predicate OnlyTouches(h: Heap, k: Heap, where: set<Ptr>) {
    && k.nodes.Keys == h.nodes.Keys && k.texts == h.texts
    && forall p :: p in h.nodes && p !in where ==> k.nodes[p] == h.nodes[p]
  }

  lemma UnlinkTouches(h: Heap, x: Ptr, where: set<Ptr>)
    requires x in h.nodes && x in where && 0 !in h.nodes
    requires (h.nodes[x].prev == 0 || h.nodes[x].prev in where) && (h.nodes[x].next == 0 || h.nodes[x].next in where)
    ensures OnlyTouches(h, Unlinked(h, x), where)
    ensures Unlinked(h, x).nodes[x].next == 0 && Unlinked(h, x).nodes[x].prev == 0
  {
  }

  // Then the child field of the node at p is changed.
  lemma ChildTouched(h: Heap, k: Heap, l: Heap, where: set<Ptr>, p: Ptr, child: Ptr)
    requires OnlyTouches(h, k, where) && p in k.nodes && p !in where
    requires l == Heap(k.nodes[p := k.nodes[p].(child := child)], k.texts)
    ensures OnlyTouches(h, l, {p} + where) && ExtendsBut(k, l, p) && k.nodes[p] == h.nodes[p]
  {
  }

  // Where the links of the i-th kid of a chain lead.
  lemma {:induction false} LinksOfKid(h: Heap, f: Forest, prev: Ptr, i: nat)
    requires Chain(h, f, prev, false) && ForestApart(f) && i < Length(f)
    ensures Kid(f, i).at in h.nodes && Kid(f, i).at in ForestNodes(f, false)
    ensures h.nodes[Kid(f, i).at].next == if i + 1 < Length(f) then Kid(f, i + 1).at else 0
    ensures h.nodes[Kid(f, i).at].prev == if i == 0 then prev else Kid(f, i - 1).at
    ensures Holds(h, Kid(f, i), false) && Apart(Kid(f, i))
    ensures Nodes(Kid(f, i), false) <= ForestNodes(f, false)
    ensures Texts(Kid(f, i), false) <= ForestTexts(f, false)
    decreases f
  {
    if i > 0 { LinksOfKid(h, f.tail, f.head.at, i - 1); }
  }

  lemma {:induction false} LinksStayInside(h: Heap, f: Forest, prev: Ptr, i: nat)
    requires Chain(h, f, prev, false) && i < Length(f)
    ensures var x := Kid(f, i).at;
            && x in h.nodes && x in ForestNodes(f, false)
            && (h.nodes[x].next == 0 || h.nodes[x].next in ForestNodes(f, false))
            && (if i == 0 then h.nodes[x].prev == prev else h.nodes[x].prev in ForestNodes(f, false))
            && First(RemoveAt(f, i)) == if i == 0 then h.nodes[x].next else First(f)
    decreases f
  {
    if i > 0 { LinksStayInside(h, f.tail, f.head.at, i - 1); }
    else if f.tail.Cons? { assert f.tail.head.at in Nodes(f.tail.head, false); }
  }

  lemma FirstUnlinked(h: Heap, f: Forest, prev: Ptr)
    requires Chain(h, f, prev, false) && ForestApart(f) && f.Cons?
    requires prev !in ForestNodes(f, false) && 0 !in h.nodes
    ensures f.head.at in h.nodes
    ensures Chain(Unlinked(h, f.head.at), f.tail, prev, false) && Holds(Unlinked(h, f.head.at), f.head, false)
  {
    var k := Unlinked(h, f.head.at);
    HoldsRelinked(h, k, f.head);
    if f.tail.Cons? {
      HoldsRelinked(h, k, f.tail.head);
      ChainFrame(h, k, f.tail.tail, f.tail.head.at, false);
    }
  }

  // Taking a later kid off leaves the first one in place, up to its next link.
  lemma FirstStays(h: Heap, f: Forest, prev: Ptr, i: nat)
    requires Chain(h, f, prev, false) && ForestApart(f) && 0 < i < Length(f) && 0 !in h.nodes
    ensures Kid(f, i).at in h.nodes
    ensures var k := Unlinked(h, Kid(f, i).at);
            && Holds(k, f.head, false) && k.nodes[f.head.at].prev == h.nodes[f.head.at].prev
            && k.nodes[f.head.at].next == First(RemoveAt(f.tail, i - 1))
  {
    LinksStayInside(h, f.tail, f.head.at, i - 1);
    HoldsRelinked(h, Unlinked(h, Kid(f, i).at), f.head);
  }

  lemma {:induction false} ChainUnlinked(h: Heap, f: Forest, prev: Ptr, i: nat)
    requires Chain(h, f, prev, false) && ForestApart(f) && i < Length(f)
    requires prev !in ForestNodes(f, false) && 0 !in h.nodes
    ensures Kid(f, i).at in h.nodes
    ensures var k := Unlinked(h, Kid(f, i).at);
            Chain(k, RemoveAt(f, i), prev, false) && Holds(k, Kid(f, i), false)
    decreases f
  {
    if i == 0 {
      FirstUnlinked(h, f, prev);
    } else {
      FirstStays(h, f, prev, i);
      ChainUnlinked(h, f.tail, f.head.at, i - 1);
    }
  }

  // The heap after the node at y has taken the place of the node at x.
  function Exchanged(h: Heap, x: Ptr, y: Ptr): Heap
    requires x in h.nodes && y in h.nodes
  {
    var before, after := h.nodes[x].prev, h.nodes[x].next;
    var n0 := h.nodes[y := h.nodes[y].(next := after, prev := before)];
    var n1 := if after in n0 then n0[after := n0[after].(prev := y)] else n0;
    var n2 := if before in n1 then n1[before := n1[before].(next := y)] else n1;
    Heap(n2[x := n2[x].(next := 0, prev := 0)], h.texts)
  }

  lemma ExchangeTouches(h: Heap, x: Ptr, y: Ptr, where: set<Ptr>)
    requires x in h.nodes && y in h.nodes && x in where && y in where && 0 !in h.nodes
    requires (h.nodes[x].prev == 0 || h.nodes[x].prev in where) && (h.nodes[x].next == 0 || h.nodes[x].next in where)
    ensures OnlyTouches(h, Exchanged(h, x, y), where)
    ensures Exchanged(h, x, y).nodes[x].next == 0
  {
  }

  lemma FirstExchanged(h: Heap, f: Forest, prev: Ptr, t: Tree)
    requires Chain(h, f, prev, false) && ForestApart(f) && f.Cons?
    requires Holds(h, t, false) && Apart(t) && Nodes(t, false) !! ForestNodes(f, false)
    requires prev !in ForestNodes(f, false) && prev !in Nodes(t, false) && 0 !in h.nodes
    ensures f.head.at in h.nodes
    ensures Holds(Exchanged(h, f.head.at, t.at), f.head, false)
    ensures Chain(Exchanged(h, f.head.at, t.at), Cons(t, f.tail), prev, false)
  {
    TailExchanged(h, f, prev, t.at);
    HeldIsAllocated(h, f.head, false);
    HeldIsAllocated(h, t, false);
    assert f.tail.Cons? ==> f.tail.head.at in Nodes(f.tail.head, false);
    HeadsExchanged(h, f.head, t, prev, if f.tail.Cons? then f.tail.head.at else 0);
  }

  lemma HeadsExchanged(h: Heap, u: Tree, t: Tree, before: Ptr, after: Ptr)
    requires Holds(h, u, false) && Apart(u) && Holds(h, t, false) && Apart(t)
    requires Nodes(u, false) !! Nodes(t, false)
    requires h.nodes[u.at].prev == before && h.nodes[u.at].next == after
    requires before !in Nodes(u, false) + Nodes(t, false) && after !in Nodes(u, false) + Nodes(t, false)
    ensures var k := Exchanged(h, u.at, t.at);
            && Holds(k, u, false) && Holds(k, t, false)
            && k.nodes[t.at].prev == before && k.nodes[t.at].next == after
  {
    var k := Exchanged(h, u.at, t.at);
    HoldsRelinked(h, k, u);
    HoldsRelinked(h, k, t);
  }

  lemma TailExchanged(h: Heap, f: Forest, prev: Ptr, y: Ptr)
    requires Chain(h, f, prev, false) && ForestApart(f) && f.Cons?
    requires y in h.nodes && y !in ForestNodes(f, false)
    requires prev !in ForestNodes(f, false) && 0 !in h.nodes
    ensures f.head.at in h.nodes && Chain(Exchanged(h, f.head.at, y), f.tail, y, false)
  {
    if f.tail.Cons? {
      var k := Exchanged(h, f.head.at, y);
      HoldsRelinked(h, k, f.tail.head);
      ChainFrame(h, k, f.tail.tail, f.tail.head.at, false);
    }
  }

  // What the exchange does to any other node.
  lemma NeighbourExchanged(h: Heap, x: Ptr, y: Ptr, p: Ptr)
    requires x in h.nodes && y in h.nodes && p in h.nodes && p != x && p != y
    requires p != h.nodes[x].next
    ensures p in Exchanged(h, x, y).nodes
    ensures Exchanged(h, x, y).nodes[p] == if p == h.nodes[x].prev then h.nodes[p].(next := y) else h.nodes[p]
  {
  }

  lemma FirstKept(h: Heap, f: Forest, prev: Ptr, i: nat, t: Tree)
    requires Chain(h, f, prev, false) && ForestApart(f) && 0 < i < Length(f) && 0 !in h.nodes
    requires t.at in h.nodes && t.at !in ForestNodes(f, false)
    ensures Kid(f, i).at in h.nodes
    ensures var k := Exchanged(h, Kid(f, i).at, t.at);
            && Holds(k, f.head, false) && k.nodes[f.head.at].prev == h.nodes[f.head.at].prev
            && k.nodes[f.head.at].next == First(ReplaceAt(f.tail, i - 1, t))
  {
    LinksStayInside(h, f.tail, f.head.at, i - 1);
    var x := Kid(f, i).at;
    var where := ForestNodes(f.tail, false) + {f.head.at, t.at};
    ExchangeTouches(h, x, t.at, where);
    NeighbourExchanged(h, x, t.at, f.head.at);
    HoldsRelinked(h, Exchanged(h, x, t.at), f.head);
  }

  lemma {:induction false} ChainExchanged(h: Heap, f: Forest, prev: Ptr, i: nat, t: Tree)
    requires Chain(h, f, prev, false) && ForestApart(f) && i < Length(f)
    requires Holds(h, t, false) && Apart(t) && Nodes(t, false) !! ForestNodes(f, false)
    requires prev !in ForestNodes(f, false) && prev !in Nodes(t, false) && 0 !in h.nodes
    ensures Kid(f, i).at in h.nodes
    ensures var k := Exchanged(h, Kid(f, i).at, t.at);
            Chain(k, ReplaceAt(f, i, t), prev, false) && Holds(k, Kid(f, i), false)
    decreases f
  {
    if i == 0 {
      FirstExchanged(h, f, prev, t);
    } else {
      FirstKept(h, f, prev, i, t);
      ChainExchanged(h, f.tail, f.head.at, i - 1, t);
    }
  }

  lemma {:induction false} RemovedSets(f: Forest, i: nat)
    requires i < Length(f) && ForestApart(f)
    ensures ForestApart(RemoveAt(f, i)) && Apart(Kid(f, i))
    ensures ForestNodes(RemoveAt(f, i), false) == ForestNodes(f, false) - Nodes(Kid(f, i), false)
    ensures ForestTexts(RemoveAt(f, i), false) == ForestTexts(f, false) - Texts(Kid(f, i), false)
    ensures Nodes(Kid(f, i), false) <= ForestNodes(f, false)
    ensures Texts(Kid(f, i), false) <= ForestTexts(f, false)
  {
    if i > 0 { RemovedSets(f.tail, i - 1); }
  }

  lemma {:induction false} ReplacedSets(f: Forest, i: nat, t: Tree)
    requires i < Length(f) && ForestApart(f) && Apart(t)
    requires Nodes(t, false) !! ForestNodes(f, false) && Texts(t, false) !! ForestTexts(f, false)
    ensures ForestApart(ReplaceAt(f, i, t))
    ensures Swapped(ForestNodes(f, false), ForestNodes(ReplaceAt(f, i, t), false),
                    Nodes(Kid(f, i), false), Nodes(t, false))
    ensures Swapped(ForestTexts(f, false), ForestTexts(ReplaceAt(f, i, t), false),
                    Texts(Kid(f, i), false), Texts(t, false))
  {
    if i > 0 {
      var g := ReplaceAt(f.tail, i - 1, t);
      ReplacedSets(f.tail, i - 1, t);
      SwappedBehind(Nodes(f.head, false), ForestNodes(f.tail, false), ForestNodes(g, false),
                    Nodes(Kid(f, i), false), Nodes(t, false));
      SwappedBehind(Texts(f.head, false), ForestTexts(f.tail, false), ForestTexts(g, false),
                    Texts(Kid(f, i), false), Texts(t, false));
    }
  }

  // The addresses x among them have given way to the addresses y.
  predicate Swapped(before: set<Ptr>, after: set<Ptr>, x: set<Ptr>, y: set<Ptr>) {
    x <= before && after == before - x + y
  }

  lemma SwappedBehind(a: set<Ptr>, before: set<Ptr>, after: set<Ptr>, x: set<Ptr>, y: set<Ptr>)
    requires Swapped(before, after, x, y) && a !! before && a !! y
    ensures Swapped(a + before, a + after, x, y) && a !! after
  {
  }

  // An array or object that owns its chain, with nothing shared inside.
  ghost predicate Container(m: Memory, t: Tree)
    reads m
  {
    Holds(m.View(), t, false) && Apart(t) && !t.reference && 0 !in m.nodes
  }

  // `which` steps along the chain, or to its end: the loop of GetArrayItem,
  // DetachItemFromArray and ReplaceItemInArray. A negative count takes no step.
  method Walk(m: Memory, child: Ptr, which: int, ghost f: Forest, ghost deep: bool) returns (c: Ptr)
    requires child == First(f) && Chain(m.View(), f, 0, deep) && 0 !in m.nodes
    ensures c == var i := if which < 0 then 0 else which; if i < Length(f) then Kid(f, i).at else 0
  {
    c := child;
    var left := which;
    ghost var rest, prev: Ptr := f, 0;
    while c != 0 && left > 0
      invariant c == First(rest) && Chain(m.View(), rest, prev, deep)
      invariant which > 0 ==> left >= 0
      invariant (var i := if which < 0 then 0 else which; if i < Length(f) then Kid(f, i).at else 0)
             == (var i := if left < 0 then 0 else left; if i < Length(rest) then Kid(rest, i).at else 0)
      decreases rest
    {
      c, left := m.nodes[c].next, left - 1;
      prev, rest := rest.head.at, rest.tail;
    }
  }

  // An array or object to look into: one that owns its children, or, seen
  // through, one that shares them.
  ghost predicate Readable(m: Memory, t: Tree, deep: bool)
    reads m
  {
    Holds(m.View(), t, deep) && (deep || !t.reference) && 0 !in m.nodes
  }

  method GetArrayItem(m: Memory, list: Ptr, item: int, ghost t: Tree, ghost deep: bool) returns (c: Ptr)
    requires list == t.at && Readable(m, t, deep)
    ensures c == var i := if item < 0 then 0 else item; if i < Length(t.kids) then Kid(t.kids, i).at else 0
  {
    c := Walk(m, m.nodes[list].child, item, t.kids, deep);
  }

  method GetArraySize(m: Memory, list: Ptr, ghost t: Tree, ghost deep: bool) returns (i: nat)
    requires list == t.at && Readable(m, t, deep)
    ensures i == Length(t.kids)
  {
    var c := m.nodes[list].child;
    i := 0;
    ghost var rest, prev: Ptr := t.kids, 0;
    while c != 0
      invariant c == First(rest) && Chain(m.View(), rest, prev, deep)
      invariant i + Length(rest) == Length(t.kids)
      decreases rest
    {
      i, c := i + 1, m.nodes[c].next;
      prev, rest := rest.head.at, rest.tail;
    }
  }

  // The search of GetObjectItem and DetachItemFromObject: the first kid with
  // the name and its index, or null and the length.
  method FindName(m: Memory, child: Ptr, name: string, ghost f: Forest, ghost deep: bool) returns (c: Ptr, i: nat)
    requires child == First(f) && Chain(m.View(), f, 0, deep) && CString.NulFree(name)
    ensures i == FirstNamed(f, name)
    ensures c == if i < Length(f) then Kid(f, i).at else 0
  {
    c, i := child, 0;
    ghost var rest, prev: Ptr := f, 0;
    while c != 0
      invariant c == First(rest) && Chain(m.View(), rest, prev, deep)
      invariant Length(f) == i + Length(rest)
      invariant i + FirstNamed(rest, name) == FirstNamed(f, name)
      invariant FirstNamed(rest, name) < Length(rest) ==>
                  Kid(f, FirstNamed(f, name)) == Kid(rest, FirstNamed(rest, name))
      decreases rest
    {
      if m.nodes[c].name != 0 {
        var same := CString.SameIgnoringCase(m.texts[m.nodes[c].name], name);
        if same { return; }
      }
      i, c := i + 1, m.nodes[c].next;
      prev, rest := rest.head.at, rest.tail;
    }
  }

  method GetObjectItem(m: Memory, list: Ptr, name: string, ghost t: Tree, ghost deep: bool) returns (c: Ptr)
    requires list == t.at && Readable(m, t, deep) && CString.NulFree(name)
    ensures c == var i := FirstNamed(t.kids, name); if i < Length(t.kids) then Kid(t.kids, i).at else 0
  {
    var i;
    c, i := FindName(m, m.nodes[list].child, name, t.kids, deep);
  }

  // A tree that belongs to nothing else.
  ghost predicate Loose(m: Memory, item: Ptr, u: Tree)
    reads m
  {
    && item == u.at && Holds(m.View(), u, false) && Apart(u)
    && m.nodes[item].next == 0 && m.nodes[item].prev == 0
  }

  // cJSON_AddItemToArray: the item, if there is one, goes behind the last kid.
  method AddItemToArray(m: Memory, list: Ptr, item: Ptr, ghost t: Tree, ghost u: Tree)
    requires list == t.at && Container(m, t)
    requires item != 0 ==> Loose(m, item, u)
    requires item != 0 ==> Nodes(t, false) !! Nodes(u, false) && Texts(t, false) !! Texts(u, false)
    modifies m
    ensures item == 0 ==> m.View() == old(m.View())
    ensures item != 0 ==> Container(m, t.(kids := Append(t.kids, u)))
    ensures item != 0 ==> OnlyTouches(old(m.View()), m.View(), Nodes(t, false) + Nodes(u, false))
  {
    if item == 0 { return; }
    AppendItem(m, list, item, t, u);
  }

  method AppendItem(m: Memory, list: Ptr, item: Ptr, ghost t: Tree, ghost u: Tree)
    requires list == t.at && Container(m, t) && Loose(m, item, u)
    requires Nodes(t, false) !! Nodes(u, false) && Texts(t, false) !! Texts(u, false)
    modifies m
    ensures Container(m, t.(kids := Append(t.kids, u)))
    ensures OnlyTouches(old(m.View()), m.View(), Nodes(t, false) + Nodes(u, false))
  {
    ghost var h := m.View();
    AppendedSets(t.kids, u);
    AppendedApart(t.kids, u);
    var c := m.nodes[list].child;
    if t.kids.Cons? { ChainEnds(h, t.kids, 0); }
    if c == 0 {
      m.nodes := m.nodes[list := m.nodes[list].(child := item)];
      Rechained(h, h, m.View(), t, Append(t.kids, u));
    } else {
      c := LastOf(m, c, t.kids);
      LastIsInside(t.kids, false);
      m.nodes := m.nodes[c := m.nodes[c].(next := item)];
      m.nodes := m.nodes[item := m.nodes[item].(prev := c)];
      ChainAppended(h, m.View(), t.kids, 0, u);
      Rechained(h, m.View(), m.View(), t, Append(t.kids, u));
    }
  }

  method LastOf(m: Memory, child: Ptr, ghost f: Forest) returns (c: Ptr)
    requires f.Cons? && child == First(f) && Chain(m.View(), f, 0, false) && 0 !in m.nodes
    ensures c == Last(f) && c in m.nodes
  {
    c := child;
    ghost var rest, prev: Ptr := f, 0;
    while m.nodes[c].next != 0
      invariant rest.Cons? && c == First(rest) && Chain(m.View(), rest, prev, false) && Last(rest) == Last(f)
      decreases rest
    {
      c := m.nodes[c].next;
      prev, rest := rest.head.at, rest.tail;
      assert Holds(m.View(), rest.head, false);
    }
    ChainEnds(m.View(), rest, prev);
  }

  lemma ChainEnds(h: Heap, f: Forest, prev: Ptr)
    requires f.Cons? && Chain(h, f, prev, false)
    ensures f.head.at != 0 && f.head.at in h.nodes && (h.nodes[f.head.at].next == 0 <==> f.tail.Nil?)
  {
    assert f.tail.Cons? ==> Holds(h, f.tail.head, false);
  }

  function Steps(which: int): nat {
    if which < 0 then 0 else which
  }

  // A container whose chain is now another one, with its child field moved along.
  lemma Rechained(h: Heap, k: Heap, l: Heap, t: Tree, kids: Forest)
    requires Holds(h, t, false) && Apart(t) && !t.reference
    requires Chain(k, kids, 0, false) && ForestApart(kids)
    requires t.at !in ForestNodes(kids, false) && TextAt(t.name) + TextAt(t.value) !! ForestTexts(kids, false)
    requires k.texts == h.texts && l.texts == h.texts
    requires t.at in k.nodes && k.nodes[t.at] == h.nodes[t.at]
    requires l.nodes == k.nodes[t.at := k.nodes[t.at].(child := First(kids))]
    ensures Holds(l, t.(kids := kids), false) && Apart(t.(kids := kids))
  {
    ChainFrame(k, l, kids, 0, false);
  }

  method Unlink(m: Memory, c: Ptr)
    requires c in m.nodes && 0 !in m.nodes
    requires m.nodes[c].prev == 0 || m.nodes[c].prev in m.nodes
    requires m.nodes[c].next == 0 || m.nodes[c].next in m.nodes
    modifies m
    ensures m.View() == Unlinked(old(m.View()), c)
  {
    var before, after := m.nodes[c].prev, m.nodes[c].next;
    if before != 0 { m.nodes := m.nodes[before := m.nodes[before].(next := after)]; }
    if after != 0 { m.nodes := m.nodes[after := m.nodes[after].(prev := before)]; }
    m.nodes := m.nodes[c := m.nodes[c].(next := 0, prev := 0)];
  }

  lemma KidLinks(h: Heap, t: Tree, i: nat)
    requires Holds(h, t, false) && Apart(t) && !t.reference && 0 !in h.nodes && i < Length(t.kids)
    ensures 0 !in ForestNodes(t.kids, false) && ForestNodes(t.kids, false) <= h.nodes.Keys
    ensures var c := Kid(t.kids, i).at;
            && c != 0 && c in ForestNodes(t.kids, false)
            && (h.nodes[c].prev == 0 || h.nodes[c].prev in ForestNodes(t.kids, false))
            && (h.nodes[c].next == 0 || h.nodes[c].next in ForestNodes(t.kids, false))
            && First(RemoveAt(t.kids, i)) == (if i == 0 then h.nodes[c].next else First(t.kids))
            && (i == 0 <==> c == First(t.kids))
  {
    ChainIsAllocated(h, t.kids, 0, false);
    assert 0 !in h.nodes.Keys;
    LinksStayInside(h, t.kids, 0, i);
    if i > 0 { LinksStayInside(h, t.kids.tail, t.kids.head.at, i - 1); }
  }

  // cJSON_DetachItemFromArray: the kid leaves the chain with its links cleared,
  // and the others close up; past the end nothing happens.
  method DetachItemFromArray(m: Memory, list: Ptr, which: int, ghost t: Tree) returns (c: Ptr)
    requires list == t.at && Container(m, t)
    modifies m
    ensures Detached(old(m.View()), m.View(), t, Steps(which), c)
  {
    ghost var h, i := m.View(), Steps(which);
    c := Walk(m, m.nodes[list].child, which, t.kids, false);
    if i < Length(t.kids) { KidLinks(h, t, i); }
    if c == 0 { return; }
    var first, after := m.nodes[list].child, m.nodes[c].next;
    Unlink(m, c);
    m.nodes := m.nodes[list := m.nodes[list].(child := if c == first then after else first)];
    DetachedKid(h, m.View(), t, i);
  }

  lemma DetachedKid(h: Heap, l: Heap, t: Tree, i: nat)
    requires Holds(h, t, false) && Apart(t) && !t.reference && 0 !in h.nodes && i < Length(t.kids)
    requires Kid(t.kids, i).at in h.nodes
    requires var k := Unlinked(h, Kid(t.kids, i).at);
             && t.at in k.nodes && l.texts == h.texts
             && l.nodes == k.nodes[t.at := k.nodes[t.at].(child := First(RemoveAt(t.kids, i)))]
    ensures Detached(h, l, t, i, Kid(t.kids, i).at)
  {
    KidLinks(h, t, i);
    var c := Kid(t.kids, i);
    var k := Unlinked(h, c.at);
    UnlinkTouches(h, c.at, ForestNodes(t.kids, false));
    ChildTouched(h, k, l, ForestNodes(t.kids, false), t.at, First(RemoveAt(t.kids, i)));
    ChainUnlinked(h, t.kids, 0, i);
    RemovedSets(t.kids, i);
    Rechained(h, k, l, t, RemoveAt(t.kids, i));
    HoldsFrame(k, l, c, false);
  }

  // k is h after the i-th kid of t was taken off the chain as c, or h itself
  // when there is no i-th kid.
  predicate Detached(h: Heap, k: Heap, t: Tree, i: nat, c: Ptr) {
    if i < Length(t.kids) then
      && c == Kid(t.kids, i).at && c in k.nodes && k.nodes[c].next == 0 && k.nodes[c].prev == 0
      && Holds(k, Kid(t.kids, i), false) && Apart(Kid(t.kids, i))
      && Holds(k, t.(kids := RemoveAt(t.kids, i)), false) && Apart(t.(kids := RemoveAt(t.kids, i)))
      && OnlyTouches(h, k, Nodes(t, false))
    else c == 0 && k == h
  }

  method DetachItemFromObject(m: Memory, list: Ptr, name: string, ghost t: Tree) returns (c: Ptr)
    requires list == t.at && Container(m, t) && CString.NulFree(name)
    modifies m
    ensures Detached(old(m.View()), m.View(), t, FirstNamed(t.kids, name), c)
  {
    var found, i := FindName(m, m.nodes[list].child, name, t.kids, false);
    if i < Length(t.kids) { KidLinks(m.View(), t, i); }
    c := 0;
    if found != 0 { c := DetachItemFromArray(m, list, i, t); }
  }

  // k is h without what the kid owns; of the rest only nodes in `where` may have changed.
  predicate Loses(h: Heap, k: Heap, kid: Tree, where: set<Ptr>) {
    && k.nodes.Keys == h.nodes.Keys - Nodes(kid, false) && k.texts == h.texts - Texts(kid, false)
    && forall p :: p in h.nodes && p !in where ==> p in k.nodes && k.nodes[p] == h.nodes[p]
  }

  // So a tree elsewhere that shares nothing with the kid stays in place, also
  // one that is seen through a reference in it.
  lemma OthersStay(h: Heap, k: Heap, kid: Tree, where: set<Ptr>, t: Tree)
    requires Holds(h, t, true) && Loses(h, k, kid, where)
    requires Nodes(t, true) !! where && Texts(t, true) !! Texts(kid, false)
    ensures Holds(k, t, true)
  {
    HoldsFrame(h, k, t, true);
  }

  lemma FreedIsLost(h: Heap, l: Heap, k: Heap, kid: Tree, where: set<Ptr>)
    requires OnlyTouches(h, l, where) && Nodes(kid, false) <= where
    requires k.nodes == l.nodes - ForestNodes(Cons(kid, Nil), false)
    requires k.texts == l.texts - ForestTexts(Cons(kid, Nil), false)
    ensures Loses(h, k, kid, where)
  {
  }

  // cJSON_DeleteItemFromArray: what is detached is freed, and nothing else.
  method DeleteItemFromArray(m: Memory, list: Ptr, which: int, ghost t: Tree)
    requires list == t.at && Container(m, t)
    modifies m
    ensures var i := Steps(which);
            if i < Length(t.kids) then
              && Container(m, t.(kids := RemoveAt(t.kids, i)))
              && Loses(old(m.View()), m.View(), Kid(t.kids, i), Nodes(t, false))
            else m.View() == old(m.View())
  {
    ghost var i := Steps(which);
    var c := DetachItemFromArray(m, list, which, t);
    if i < Length(t.kids) { KidLinks(old(m.View()), t, i); }
    if c == 0 { return; }
    ghost var k := m.View();
    m.Delete(c, Cons(Kid(t.kids, i), Nil), 0);
    DetachedThenFreed(old(m.View()), k, m.View(), t, i, c);
  }

  lemma DetachedThenFreed(h: Heap, k: Heap, l: Heap, t: Tree, i: nat, c: Ptr)
    requires Detached(h, k, t, i, c) && i < Length(t.kids) && Apart(t) && !t.reference
    requires l.nodes == k.nodes - ForestNodes(Cons(Kid(t.kids, i), Nil), false)
    requires l.texts == k.texts - ForestTexts(Cons(Kid(t.kids, i), Nil), false)
    ensures Holds(l, t.(kids := RemoveAt(t.kids, i)), false) && Loses(h, l, Kid(t.kids, i), Nodes(t, false))
  {
    RemovedSets(t.kids, i);
    HoldsFrame(k, l, t.(kids := RemoveAt(t.kids, i)), false);
    FreedIsLost(h, k, l, Kid(t.kids, i), Nodes(t, false));
  }

  method Exchange(m: Memory, c: Ptr, newitem: Ptr)
    requires c in m.nodes && newitem in m.nodes && c != newitem && 0 !in m.nodes
    requires m.nodes[c].prev == 0 || (m.nodes[c].prev in m.nodes && m.nodes[c].prev != newitem)
    requires m.nodes[c].next == 0 || (m.nodes[c].next in m.nodes && m.nodes[c].next != newitem)
    modifies m
    ensures m.View() == Exchanged(old(m.View()), c, newitem)
  {
    var before, after := m.nodes[c].prev, m.nodes[c].next;
    m.nodes := m.nodes[newitem := m.nodes[newitem].(next := after, prev := before)];
    if after != 0 { m.nodes := m.nodes[after := m.nodes[after].(prev := newitem)]; }
    if before != 0 { m.nodes := m.nodes[before := m.nodes[before].(next := newitem)]; }
    m.nodes := m.nodes[c := m.nodes[c].(next := 0, prev := 0)];
  }

  // l is h after u took the place of the i-th kid of t.
  predicate KidExchanged(h: Heap, l: Heap, t: Tree, i: nat, u: Tree) {
    && i < Length(t.kids) && Kid(t.kids, i).at in h.nodes && u.at in h.nodes && l.texts == h.texts
    && var k := Exchanged(h, Kid(t.kids, i).at, u.at);
       && t.at in k.nodes && l.nodes == k.nodes[t.at := k.nodes[t.at].(child := First(ReplaceAt(t.kids, i, u)))]
  }

  predicate MayExchange(h: Heap, t: Tree, i: nat, u: Tree) {
    && Holds(h, t, false) && Apart(t) && !t.reference && 0 !in h.nodes && i < Length(t.kids)
    && Holds(h, u, false) && Apart(u)
    && Nodes(t, false) !! Nodes(u, false) && Texts(t, false) !! Texts(u, false)
  }

  lemma ExchangedContainer(h: Heap, l: Heap, t: Tree, i: nat, u: Tree)
    requires MayExchange(h, t, i, u) && KidExchanged(h, l, t, i, u)
    ensures Holds(l, t.(kids := ReplaceAt(t.kids, i, u)), false) && Apart(t.(kids := ReplaceAt(t.kids, i, u)))
  {
    KidLinks(h, t, i);
    HeldIsAllocated(h, u, false);
    assert 0 !in h.nodes.Keys;
    ChainExchanged(h, t.kids, 0, i, u);
    ReplacedSets(t.kids, i, u);
    Rechained(h, Exchanged(h, Kid(t.kids, i).at, u.at), l, t, ReplaceAt(t.kids, i, u));
  }

  lemma ExchangedKid(h: Heap, l: Heap, t: Tree, i: nat, u: Tree)
    requires MayExchange(h, t, i, u) && KidExchanged(h, l, t, i, u)
    ensures var c := Kid(t.kids, i); Holds(l, c, false) && Apart(c) && l.nodes[c.at].next == 0
    ensures OnlyTouches(h, l, Nodes(t, false) + Nodes(u, false))
  {
    KidLinks(h, t, i);
    HeldIsAllocated(h, u, false);
    var c := Kid(t.kids, i);
    var k := Exchanged(h, c.at, u.at);
    var where := ForestNodes(t.kids, false) + Nodes(u, false);
    ExchangeTouches(h, c.at, u.at, where);
    ChildTouched(h, k, l, where, t.at, First(ReplaceAt(t.kids, i, u)));
    assert Nodes(t, false) + Nodes(u, false) == {t.at} + where;
    ChainExchanged(h, t.kids, 0, i, u);
    RemovedSets(t.kids, i);
    HoldsFrame(k, l, c, false);
  }

  lemma ReplacedApart(t: Tree, i: nat, u: Tree)
    requires Apart(t) && !t.reference && i < Length(t.kids) && Apart(u)
    requires Nodes(t, false) !! Nodes(u, false) && Texts(t, false) !! Texts(u, false)
    ensures Nodes(ReplacedTree(t, i, u), false) !! Nodes(Kid(t.kids, i), false)
    ensures Texts(ReplacedTree(t, i, u), false) !! Texts(Kid(t.kids, i), false)
    ensures Nodes(Kid(t.kids, i), false) <= Nodes(t, false)
  {
    RemovedSets(t.kids, i);
    ReplacedSets(t.kids, i, u);
  }

  function ReplacedTree(t: Tree, i: nat, u: Tree): Tree
    requires i < Length(t.kids)
  {
    t.(kids := ReplaceAt(t.kids, i, u))
  }

  // cJSON_ReplaceItemInArray: the new item takes the place of the kid, which is freed.
  method ReplaceItemInArray(m: Memory, list: Ptr, which: int, newitem: Ptr, ghost t: Tree, ghost u: Tree)
    requires list == t.at && Container(m, t)
    requires newitem == u.at && Holds(m.View(), u, false) && Apart(u)
    requires Nodes(t, false) !! Nodes(u, false) && Texts(t, false) !! Texts(u, false)
    modifies m
    ensures var i := Steps(which);
            if i < Length(t.kids) then
              && Container(m, ReplacedTree(t, i, u))
              && Loses(old(m.View()), m.View(), Kid(t.kids, i), Nodes(t, false) + Nodes(u, false))
            else m.View() == old(m.View())
  {
    ghost var i := Steps(which);
    var c := Walk(m, m.nodes[list].child, which, t.kids, false);
    if i < Length(t.kids) { KidLinks(m.View(), t, i); }
    if c == 0 { return; }
    PutInPlace(m, list, c, newitem, t, i, u);
    ghost var l := m.View();
    m.Delete(c, Cons(Kid(t.kids, i), Nil), m.nodes[c].prev);
    ReplacedApart(t, i, u);
    HoldsFrame(l, m.View(), ReplacedTree(t, i, u), false);
    FreedIsLost(old(m.View()), l, m.View(), Kid(t.kids, i), Nodes(t, false) + Nodes(u, false));
  }

  method PutInPlace(m: Memory, list: Ptr, c: Ptr, newitem: Ptr, ghost t: Tree, ghost i: nat, ghost u: Tree)
    requires list == t.at && newitem == u.at && MayExchange(m.View(), t, i, u) && c == Kid(t.kids, i).at
    modifies m
    ensures Holds(m.View(), ReplacedTree(t, i, u), false) && Apart(ReplacedTree(t, i, u))
    ensures Holds(m.View(), Kid(t.kids, i), false) && Apart(Kid(t.kids, i)) && m.nodes[c].next == 0
    ensures OnlyTouches(old(m.View()), m.View(), Nodes(t, false) + Nodes(u, false))
  {
    ghost var h := m.View();
    KidLinks(h, t, i);
    var first := m.nodes[list].child;
    Exchange(m, c, newitem);
    m.nodes := m.nodes[list := m.nodes[list].(child := if c == first then newitem else first)];
    ExchangedContainer(h, m.View(), t, i, u);
    ExchangedKid(h, m.View(), t, i, u);
  }

  // create_reference: one node that shares the value and children of the item.
  method CreateReference(m: Memory, item: Ptr, ghost t: Tree) returns (r: Ptr, ghost u: Tree)
    requires item == t.at && Holds(m.View(), t, true)
    modifies m
    ensures Extends(old(m.View()), m.View()) && m.texts == old(m.texts)
    ensures m.nodes.Keys == old(m.nodes.Keys) + {r} && r !in old(m.nodes)
    ensures u == t.(at := r, reference := true, name := Absent) && Holds(m.View(), u, true)
    ensures m.nodes[r].next == 0 && m.nodes[r].prev == 0
    ensures Nodes(u, false) == {r} && Texts(u, false) == {} && Apart(u)
  {
    ghost var h := m.View();
    r := m.NewItem();
    m.nodes := m.nodes[r := m.nodes[item].(name := 0, reference := true, next := 0, prev := 0)];
    u := t.(at := r, reference := true, name := Absent);
    HeldIsAllocated(h, t, true);
    ChainFrame(h, m.View(), t.kids, 0, true);
  }

  // Freeing a tree leaves every tree in place that shares nothing it owns, even
  // one that is seen through a reference in the freed tree.
  lemma OthersSurvive(h: Heap, k: Heap, f: Forest, t: Tree)
    requires Holds(h, t, true)
    requires k.nodes == h.nodes - ForestNodes(f, false) && k.texts == h.texts - ForestTexts(f, false)
    requires Nodes(t, true) !! ForestNodes(f, false) && Texts(t, true) !! ForestTexts(f, false)
    ensures Holds(k, t, true)
  {
    HoldsFrame(h, k, t, true);
  }

  // A deep copy costs nothing once it is deleted: the memory is as before.
  method CopyThenDelete(m: Memory, item: Ptr, ghost t: Tree)
    requires item == t.at && Holds(m.View(), t, true)
    modifies m
    ensures m.View() == old(m.View())
  {
    var copy, u := m.Duplicate(item, true, t);
    m.Delete(copy, Cons(u, Nil), 0);
    assert m.nodes == old(m.nodes);
    assert m.texts == old(m.texts);
  }

  // So does a reference, though the item it refers to is seen through it.
  method ReferThenDelete(m: Memory, item: Ptr, ghost t: Tree)
    requires item == t.at && Holds(m.View(), t, true)
    modifies m
    ensures m.View() == old(m.View()) && Holds(m.View(), t, true)
  {
    var r, u := CreateReference(m, item, t);
    m.Delete(r, Cons(u, Nil), 0);
    assert m.nodes == old(m.nodes);
    assert m.texts == old(m.texts);
  }
}
