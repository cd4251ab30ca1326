// The memory that cJSON works in: allocated nodes and allocated C strings, by
// address, and what it means for a tree of nodes to lie there.
module CJsonHeap {
  import CString

  // Address 0 is the null pointer.
  type Ptr = nat

  // struct cJSON. The number is kept as mantissa * 10^exponent.
  datatype Node = Node(next: Ptr, prev: Ptr, child: Ptr, kind: nat, reference: bool,
                       valuestring: Ptr, mantissa: int, exponent: int, name: Ptr)

  const FALSE_KIND := 0
  const TRUE_KIND := 1
  const NULL_KIND := 2
  const NUMBER_KIND := 3
  const STRING_KIND := 4
  const ARRAY_KIND := 5
  const OBJECT_KIND := 6

  // What memset leaves in a new node.
  const BLANK := Node(0, 0, 0, FALSE_KIND, false, 0, 0, 0, 0)

  datatype Heap = Heap(nodes: map<Ptr, Node>, texts: map<Ptr, string>)

  // A `char *` field: null, or the address of an allocated string.
  datatype Text = Absent | At(at: Ptr, text: string)

  // A tree of nodes with the addresses it occupies.
  datatype Tree = Tree(at: Ptr, kind: nat, reference: bool, mantissa: int, exponent: int,
                       value: Text, name: Text, kids: Forest)
  datatype Forest = Nil | Cons(head: Tree, tail: Forest)

  function Address(t: Text): Ptr {
    if t.Absent? then 0 else t.at
  }

  function First(f: Forest): Ptr {
    if f.Nil? then 0 else f.head.at
  }

  function Length(f: Forest): nat {
    if f.Nil? then 0 else 1 + Length(f.tail)
  }

  // Addresses of the nodes and of the strings of a tree. A reference node
  // shares its children and its string value with the item it refers to: they
  // are seen through it (`deep`) but not owned by it.
  function Nodes(t: Tree, deep: bool): set<Ptr> {
    {t.at} + (if deep || !t.reference then ForestNodes(t.kids, deep) else {})
  }

  function ForestNodes(f: Forest, deep: bool): set<Ptr> {
    if f.Nil? then {} else Nodes(f.head, deep) + ForestNodes(f.tail, deep)
  }

  function TextAt(t: Text): set<Ptr> {
    if t.Absent? then {} else {t.at}
  }

  function Texts(t: Tree, deep: bool): set<Ptr> {
    TextAt(t.name) + (if deep || !t.reference then TextAt(t.value) + ForestTexts(t.kids, deep) else {})
  }

  function ForestTexts(f: Forest, deep: bool): set<Ptr> {
    if f.Nil? then {} else Texts(f.head, deep) + ForestTexts(f.tail, deep)
  }

  predicate TextHolds(h: Heap, t: Text) {
    t.At? ==> t.at != 0 && t.at in h.texts && h.texts[t.at] == t.text && CString.NulFree(t.text)
  }

  // The fields of the node at t.at other than its sibling links.
  predicate NodeHolds(n: Node, t: Tree, deep: bool) {
    && n.kind == t.kind && n.reference == t.reference
    && n.mantissa == t.mantissa && n.exponent == t.exponent
    && n.name == Address(t.name)
    && (deep || !t.reference ==> n.valuestring == Address(t.value) && n.child == First(t.kids))
  }

  // The tree lies in memory; its root's own next and prev are left open.
  predicate Holds(h: Heap, t: Tree, deep: bool) {
    && t.at != 0 && t.at in h.nodes && NodeHolds(h.nodes[t.at], t, deep)
    && TextHolds(h, t.name)
    && (deep || !t.reference ==> TextHolds(h, t.value) && Chain(h, t.kids, 0, deep))
  }

  // The trees hang on one chain: every next and prev is right, and the first
  // prev is the one given.
  predicate Chain(h: Heap, f: Forest, prev: Ptr, deep: bool) {
    f.Cons? ==>
      && Holds(h, f.head, deep)
      && h.nodes[f.head.at].prev == prev && h.nodes[f.head.at].next == First(f.tail)
      && Chain(h, f.tail, f.head.at, deep)
  }

  // No node and no string is owned twice.
  predicate Apart(t: Tree) {
    && (t.name.At? && t.value.At? && !t.reference ==> t.name.at != t.value.at)
    && (!t.reference ==>
          && t.at !in ForestNodes(t.kids, false)
          && TextAt(t.name) + TextAt(t.value) !! ForestTexts(t.kids, false)
          && ForestApart(t.kids))
  }

  predicate ForestApart(f: Forest) {
    f.Cons? ==>
      && Apart(f.head) && ForestApart(f.tail)
      && Nodes(f.head, false) !! ForestNodes(f.tail, false)
      && Texts(f.head, false) !! ForestTexts(f.tail, false)
  }

  // The heaps agree on these addresses.
  predicate Agree(h: Heap, k: Heap, nodes: set<Ptr>, texts: set<Ptr>) {
    && (forall p :: p in nodes && p in h.nodes ==> p in k.nodes && k.nodes[p] == h.nodes[p])
    && (forall p :: p in texts && p in h.texts ==> p in k.texts && k.texts[p] == h.texts[p])
  }

  lemma {:induction false} HoldsFrame(h: Heap, k: Heap, t: Tree, deep: bool)
    requires Holds(h, t, deep) && Agree(h, k, Nodes(t, deep), Texts(t, deep))
    ensures Holds(k, t, deep)
    decreases t
  {
    if deep || !t.reference { ChainFrame(h, k, t.kids, 0, deep); }
  }

  lemma {:induction false} ChainFrame(h: Heap, k: Heap, f: Forest, prev: Ptr, deep: bool)
    requires Chain(h, f, prev, deep) && Agree(h, k, ForestNodes(f, deep), ForestTexts(f, deep))
    ensures Chain(k, f, prev, deep)
    decreases f
  {
    if f.Cons? {
      HoldsFrame(h, k, f.head, deep);
      ChainFrame(h, k, f.tail, f.head.at, deep);
    }
  }

  // Everything a tree occupies is allocated.
  lemma {:induction false} HeldIsAllocated(h: Heap, t: Tree, deep: bool)
    requires Holds(h, t, deep)
    ensures Nodes(t, deep) <= h.nodes.Keys && Texts(t, deep) <= h.texts.Keys && 0 !in Nodes(t, deep)
    decreases t
  {
    if deep || !t.reference { ChainIsAllocated(h, t.kids, 0, deep); }
  }

  lemma {:induction false} ChainIsAllocated(h: Heap, f: Forest, prev: Ptr, deep: bool)
    requires Chain(h, f, prev, deep)
    ensures ForestNodes(f, deep) <= h.nodes.Keys && ForestTexts(f, deep) <= h.texts.Keys
    ensures 0 !in ForestNodes(f, deep)
    decreases f
  {
    if f.Cons? {
      HeldIsAllocated(h, f.head, deep);
      ChainIsAllocated(h, f.tail, f.head.at, deep);
    }
  }

  // Nothing allocated in h is changed or freed in k.
  predicate Extends(h: Heap, k: Heap) {
    && (forall p :: p in h.nodes ==> p in k.nodes && k.nodes[p] == h.nodes[p])
    && (forall p :: p in h.texts ==> p in k.texts && k.texts[p] == h.texts[p])
  }

  // The same, but for the node at p.
  predicate ExtendsBut(h: Heap, k: Heap, p: Ptr) {
    && (forall q :: q in h.nodes && q != p ==> q in k.nodes && k.nodes[q] == h.nodes[q])
    && (forall q :: q in h.texts ==> q in k.texts && k.texts[q] == h.texts[q])
  }

  // The addresses in use are those from before and these new ones.
  predicate Gains(before: set<Ptr>, after: set<Ptr>, more: set<Ptr>) {
    after == before + more && before !! more
  }

  predicate Added(h: Heap, k: Heap, nodes: set<Ptr>, texts: set<Ptr>) {
    Gains(h.nodes.Keys, k.nodes.Keys, nodes) && Gains(h.texts.Keys, k.texts.Keys, texts)
  }

  lemma GainsMore(a: set<Ptr>, b: set<Ptr>, c: set<Ptr>, x: set<Ptr>, y: set<Ptr>)
    requires Gains(a, b, x) && Gains(b, c, y)
    ensures Gains(a, c, x + y) && x !! y
  {
  }

  // Changing only the sibling links of its root leaves a tree in place.
  lemma HoldsRelinked(h: Heap, k: Heap, t: Tree)
    requires Holds(h, t, false) && Apart(t)
    requires t.at in k.nodes && NodeHolds(k.nodes[t.at], t, false)
    requires Agree(h, k, Nodes(t, false) - {t.at}, Texts(t, false))
    ensures Holds(k, t, false)
  {
    if !t.reference { ChainFrame(h, k, t.kids, 0, false); }
  }

  function Append(f: Forest, t: Tree): Forest {
    if f.Nil? then Cons(t, Nil) else Cons(f.head, Append(f.tail, t))
  }

  function Last(f: Forest): Ptr
    requires f.Cons?
  {
    if f.tail.Nil? then f.head.at else Last(f.tail)
  }

  lemma {:induction false} LastIsInside(f: Forest, deep: bool)
    requires f.Cons?
    ensures Last(f) in ForestNodes(f, deep)
  {
    if f.tail.Cons? { LastIsInside(f.tail, deep); }
  }

  lemma {:induction false} AppendedSets(f: Forest, t: Tree)
    ensures ForestNodes(Append(f, t), false) == ForestNodes(f, false) + Nodes(t, false)
    ensures ForestTexts(Append(f, t), false) == ForestTexts(f, false) + Texts(t, false)
    ensures Append(f, t).Cons? && Last(Append(f, t)) == t.at
    ensures First(Append(f, t)) == if f.Nil? then t.at else First(f)
  {
    if f.Cons? { AppendedSets(f.tail, t); }
  }

  lemma {:induction false} AppendedApart(f: Forest, t: Tree)
    requires ForestApart(f) && Apart(t)
    requires ForestNodes(f, false) !! Nodes(t, false) && ForestTexts(f, false) !! Texts(t, false)
    ensures ForestApart(Append(f, t))
  {
    if f.Cons? {
      AppendedApart(f.tail, t);
      AppendedSets(f.tail, t);
    }
  }

  // suffix_object: linking a tree behind the last node of a chain.
  lemma {:induction false} ChainAppended(h: Heap, k: Heap, f: Forest, prev: Ptr, t: Tree)
    requires f.Cons? && Chain(h, f, prev, false) && ForestApart(f) && Holds(h, t, false) && Apart(t)
    requires ForestNodes(f, false) !! Nodes(t, false)
    requires h.nodes[t.at].next == 0
    requires var last := Last(f);
             && last in h.nodes && last != t.at
             && k.nodes == h.nodes[last := h.nodes[last].(next := t.at)][t.at := h.nodes[t.at].(prev := last)]
    requires k.texts == h.texts
    ensures Chain(k, Append(f, t), prev, false)
    decreases f
  {
    if f.tail.Nil? {
      HoldsRelinked(h, k, f.head);
      HoldsRelinked(h, k, t);
    } else {
      LastIsInside(f.tail, false);
      HoldsRelinked(h, k, f.head);
      ChainAppended(h, k, f.tail, f.head.at, t);
      AppendedSets(f.tail, t);
    }
  }
}
