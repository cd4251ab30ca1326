// Allocation, cJSON_Delete and cJSON_Duplicate.
module CJsonMemory {
  import opened CJsonHeap

  // The fields of a tree without its addresses, and with references resolved.
  datatype Shape = Shape(kind: nat, mantissa: int, exponent: int, value: Words, name: Words, kids: Shapes)
  datatype Shapes = NoShapes | MoreShapes(head: Shape, tail: Shapes)
  datatype Words = NoWords | Words(text: string)

  function WordsOf(t: Text): Words {
    if t.Absent? then NoWords else Words(t.text)
  }

  function ShapeOf(t: Tree): Shape {
    Shape(t.kind, t.mantissa, t.exponent, WordsOf(t.value), WordsOf(t.name), ShapesOf(t.kids))
  }

  function ShapesOf(f: Forest): Shapes {
    if f.Nil? then NoShapes else MoreShapes(ShapeOf(f.head), ShapesOf(f.tail))
  }

  // No reference bit anywhere.
  predicate Owned(t: Tree) {
    !t.reference && ForestOwned(t.kids)
  }

  predicate ForestOwned(f: Forest) {
    f.Cons? ==> Owned(f.head) && ForestOwned(f.tail)
  }

  lemma FreshAddress(used: set<Ptr>)
    ensures exists p: Ptr :: p != 0 && p !in used
  {
    var bound := Bound(used);
    assert bound + 1 !in used;
  }

  lemma Bound(used: set<Ptr>) returns (b: nat)
    ensures forall p :: p in used ==> p <= b
    decreases used
  {
    b := 0;
    if used != {} {
      var p :| p in used;
      b := Bound(used - {p});
      assert forall q :: q in used ==> q == p || q in used - {p};
      if b < p { b := p; }
    }
  }

  // The children of a tree stay where they are while memory only grows.
  lemma KidsStay(h: Heap, k: Heap, t: Tree)
    requires Holds(h, t, true) && Extends(h, k)
    ensures Chain(k, t.kids, 0, true) && ForestNodes(t.kids, true) <= h.nodes.Keys
  {
    ChainIsAllocated(h, t.kids, 0, true);
    ChainFrame(h, k, t.kids, 0, true);
  }

  // A tree that is in place, with every node and string its own.
  predicate Whole(h: Heap, t: Tree) {
    Holds(h, t, false) && Apart(t) && Owned(t)
  }

  // The text, standing at q.
  function CopyOf(q: Ptr, text: Text): Text {
    if text.Absent? then Absent else At(q, text.text)
  }

  // The strings x with a copy of the text at q, or as they were and q null.
  predicate Copied(w: map<Ptr, string>, x: map<Ptr, string>, text: Text, q: Ptr) {
    if text.Absent? then q == 0 && x == w else q != 0 && q !in w && x == w[q := text.text]
  }

  // u is a copy of the node at t.at, without its children, that k has more than h.
  predicate FieldsCopied(h: Heap, k: Heap, t: Tree, u: Tree) {
    && Extends(h, k) && Added(h, k, Nodes(u, false), Texts(u, false)) && Whole(k, u)
    && u.kids == Nil && ShapeOf(u) == ShapeOf(t).(kids := NoShapes)
    && k.nodes[u.at].next == 0 && k.nodes[u.at].prev == 0 && k.nodes[u.at].child == 0
  }

  lemma LeafCopied(h: Heap, k: Heap, t: Tree, u: Tree, w: map<Ptr, string>)
    requires Holds(h, t, true) && u.at != 0 && u.at !in h.nodes
    requires Copied(h.texts, w, t.value, Address(u.value)) && Copied(w, k.texts, t.name, Address(u.name))
    requires u == Tree(u.at, t.kind, false, t.mantissa, t.exponent,
                       CopyOf(Address(u.value), t.value), CopyOf(Address(u.name), t.name), Nil)
    requires k.nodes == h.nodes[u.at := Node(0, 0, 0, t.kind, false, Address(u.value),
                                             t.mantissa, t.exponent, Address(u.name))]
    ensures FieldsCopied(h, k, t, u)
  {
    TextsCopied(h.texts, w, k.texts, t.value, t.name, u.value, u.name);
    LeafTexts(u);
    LeafWhole(k, u);
  }

  lemma TextsCopied(w: map<Ptr, string>, x: map<Ptr, string>, y: map<Ptr, string>, a: Text, b: Text, c: Text, d: Text)
    requires Copied(w, x, a, Address(c)) && Copied(x, y, b, Address(d))
    requires c == CopyOf(Address(c), a) && d == CopyOf(Address(d), b)
    ensures Gains(w.Keys, y.Keys, TextAt(c) + TextAt(d)) && (c.At? && d.At? ==> c.at != d.at)
    ensures forall p :: p in w ==> p in y && y[p] == w[p]
    ensures c.At? ==> c.at != 0 && c.at in y && y[c.at] == a.text
    ensures d.At? ==> d.at != 0 && d.at in y && y[d.at] == b.text
  {
  }

  // A leaf is in place when its fields and strings are.
  lemma LeafWhole(k: Heap, t: Tree)
    requires t.at != 0 && t.at in k.nodes && NodeHolds(k.nodes[t.at], t, false)
    requires t.kids == Nil && !t.reference && TextHolds(k, t.name) && TextHolds(k, t.value)
    requires t.name.At? && t.value.At? ==> t.name.at != t.value.at
    ensures Whole(k, t)
  {
  }

  // The copy with its children is what l has more than h.
  lemma KidsCopied(h: Heap, k: Heap, l: Heap, u: Tree, kids: Forest)
    requires Extends(h, k) && Added(h, k, Nodes(u, false), Texts(u, false)) && u.kids == Nil && !u.reference
    requires Grown(k, l, u.at, kids)
    ensures Extends(h, l) && Added(h, l, {u.at} + ForestNodes(kids, false), Texts(u, false) + ForestTexts(kids, false))
  {
    LeafTexts(u);
    GainsMore(h.nodes.Keys, k.nodes.Keys, l.nodes.Keys, {u.at}, ForestNodes(kids, false));
    GainsMore(h.texts.Keys, k.texts.Keys, l.texts.Keys, Texts(u, false), ForestTexts(kids, false));
  }

  lemma LeafTexts(t: Tree)
    requires t.kids == Nil && !t.reference
    ensures Texts(t, false) == TextAt(t.name) + TextAt(t.value) && Nodes(t, false) == {t.at}
  {
  }

  lemma MinusMore<V>(m: map<Ptr, V>, a: set<Ptr>, b: set<Ptr>)
    ensures (m - a) - b == m - (a + b)
  {
  }

  class Memory {
    var nodes: map<Ptr, Node>
    var texts: map<Ptr, string>

    ghost function View(): Heap
      reads this
    {
      Heap(nodes, texts)
    }

    // cJSON_New_Item: any address that is not in use.
    method NewItem() returns (p: Ptr)
      modifies this
      ensures p != 0 && p !in old(nodes)
      ensures nodes == old(nodes)[p := BLANK] && texts == old(texts)
    {
      FreshAddress(nodes.Keys);
      p :| p != 0 && p !in nodes.Keys;
      nodes := nodes[p := BLANK];
    }

    // cJSON_strdup
    method Strdup(s: string) returns (p: Ptr)
      modifies this
      ensures p != 0 && p !in old(texts)
      ensures texts == old(texts)[p := s] && nodes == old(nodes)
    {
      FreshAddress(texts.Keys);
      p :| p != 0 && p !in texts.Keys;
      texts := texts[p := s];
    }

    // Only what is allocated can be freed.
    method FreeNode(p: Ptr)
      requires p in nodes
      modifies this
      ensures nodes == old(nodes) - {p} && texts == old(texts)
    {
      nodes := nodes - {p};
    }

    method FreeText(p: Ptr)
      requires p in texts
      modifies this
      ensures texts == old(texts) - {p} && nodes == old(nodes)
    {
      texts := texts - {p};
    }

    // cJSON_Delete on the chain that starts at c: every node and string the
    // chain owns is freed, once, and nothing else is touched.
    method Delete(c: Ptr, ghost f: Forest, ghost prev: Ptr)
      requires c == First(f) && Chain(View(), f, prev, false) && ForestApart(f)
      modifies this
      ensures nodes == old(nodes) - ForestNodes(f, false)
      ensures texts == old(texts) - ForestTexts(f, false)
      decreases f
    {
      var p := c;
      ghost var rest, before := f, prev;
      while p != 0
        invariant p == First(rest) && Chain(View(), rest, before, false) && ForestApart(rest)
        invariant rest == f || rest < f
        invariant nodes - ForestNodes(rest, false) == old(nodes) - ForestNodes(f, false)
        invariant texts - ForestTexts(rest, false) == old(texts) - ForestTexts(f, false)
        decreases rest
      {
        ghost var t := rest.head;
        var next := nodes[p].next;
        ghost var h := View();
        DeleteOne(p, t);
        MinusMore(h.nodes, Nodes(t, false), ForestNodes(rest.tail, false));
        MinusMore(h.texts, Texts(t, false), ForestTexts(rest.tail, false));
        ChainFrame(h, View(), rest.tail, t.at, false);
        before, rest, p := t.at, rest.tail, next;
      }
    }

    // The body of the loop: the children and value unless they are shared, then
    // the name, then the node.
    method DeleteOne(p: Ptr, ghost t: Tree)
      requires p == t.at && Holds(View(), t, false) && Apart(t)
      modifies this
      ensures nodes == old(nodes) - Nodes(t, false) && texts == old(texts) - Texts(t, false)
      decreases t
    {
      var c := nodes[p];
      if !c.reference {
        assert t.kids.Cons? ==> Holds(View(), t.kids.head, false);
        if c.child != 0 { Delete(c.child, t.kids, 0); }
        if c.valuestring != 0 { FreeText(c.valuestring); }
        assert texts == old(texts) - (TextAt(t.value) + ForestTexts(t.kids, false));
        assert nodes == old(nodes) - ForestNodes(t.kids, false);
      }
      if c.name != 0 { FreeText(c.name); }
      FreeNode(p);
    }

    // cJSON_Duplicate: fresh nodes and strings of the same shape, no reference
    // bit, no sibling links, and every old node and string as it was.
    method Duplicate(item: Ptr, recurse: bool, ghost t: Tree) returns (copy: Ptr, ghost u: Tree)
      requires item == t.at && Holds(View(), t, true)
      modifies this
      ensures Extends(old(View()), View())
      ensures copy == u.at && Whole(View(), u)
      ensures ShapeOf(u) == if recurse then ShapeOf(t) else ShapeOf(t).(kids := NoShapes)
      ensures nodes[copy].next == 0 && nodes[copy].prev == 0
      ensures Added(old(View()), View(), Nodes(u, false), Texts(u, false))
      decreases t, 1
    {
      ghost var h := View();
      copy, u := DuplicateFields(item, t);
      if !recurse {
        return;
      }
      ghost var k := View();
      KidsStay(h, k, t);
      ghost var kids := DuplicateKids(copy, nodes[item].child, t.kids);
      GrownTree(k, View(), u, kids);
      KidsCopied(h, k, View(), u, kids);
      u := u.(kids := kids);
    }

    // A new node with copies of the type, number, value and name.
    method DuplicateFields(item: Ptr, ghost t: Tree) returns (copy: Ptr, ghost u: Tree)
      requires item == t.at && Holds(View(), t, true)
      modifies this
      ensures copy == u.at && FieldsCopied(old(View()), View(), t, u)
    {
      ghost var h := View();
      copy := NewItem();
      var n := nodes[item];
      var value := CopyText(n.valuestring, t.value);
      ghost var w := texts;
      var name := CopyText(n.name, t.name);
      nodes := nodes[copy := Node(0, 0, 0, n.kind, false, value, n.mantissa, n.exponent, name)];
      u := Tree(copy, t.kind, false, t.mantissa, t.exponent, CopyOf(value, t.value), CopyOf(name, t.name), Nil);
      LeafCopied(h, View(), t, u, w);
    }

    // A copy of a string of the source, or null for null.
    method CopyText(p: Ptr, ghost text: Text) returns (q: Ptr)
      requires p == Address(text) && TextHolds(View(), text)
      modifies this
      ensures nodes == old(nodes) && Copied(old(texts), texts, text, q)
    {
      q := 0;
      if p != 0 { q := Strdup(texts[p]); }
    }

    // The loop over the children: each copy is linked behind the last one.
    method DuplicateKids(copy: Ptr, first: Ptr, ghost f: Forest) returns (ghost kids: Forest)
      requires first == First(f) && Chain(View(), f, 0, true)
      requires copy in nodes && copy !in ForestNodes(f, true) && nodes[copy].child == 0
      modifies this
      ensures Grown(old(View()), View(), copy, kids) && ShapesOf(kids) == ShapesOf(f)
      decreases f, 1
    {
      ghost var h := View();
      var cptr, nptr: Ptr := first, 0;
      kids := Nil;
      ghost var rest, before: Ptr := f, 0;
      while cptr != 0
        invariant cptr == First(rest) && Chain(h, rest, before, true) && (rest == f || rest < f)
        invariant ForestNodes(rest, true) <= ForestNodes(f, true)
        invariant Grown(h, View(), copy, kids)
        invariant (nptr == 0 <==> kids.Nil?) && (kids.Cons? ==> nptr == Last(kids))
        invariant Joined(ShapesOf(kids), ShapesOf(rest)) == ShapesOf(f)
        decreases rest
      {
        ghost var u;
        var next := nodes[cptr].next;
        nptr, u := DuplicateKid(copy, cptr, nptr, rest.head, kids, h);
        AppendedSets(kids, u);
        AppendedShapes(kids, u, ShapesOf(rest.tail));
        kids := Append(kids, u);
        before, rest, cptr := rest.head.at, rest.tail, next;
      }
      JoinedNothing(ShapesOf(kids));
    }

    // One round: the child is duplicated and its copy linked.
    method DuplicateKid(copy: Ptr, cptr: Ptr, nptr: Ptr, ghost t: Tree, ghost kids: Forest, ghost h: Heap)
      returns (newchild: Ptr, ghost u: Tree)
      requires cptr == t.at && Holds(h, t, true) && copy !in Nodes(t, true)
      requires Grown(h, View(), copy, kids)
      requires (nptr == 0 <==> kids.Nil?) && (kids.Cons? ==> nptr == Last(kids))
      modifies this
      ensures newchild == u.at && newchild != 0 && ShapeOf(u) == ShapeOf(t)
      ensures Grown(h, View(), copy, Append(kids, u))
      decreases t, 2
    {
      ghost var k := View();
      HeldIsAllocated(h, t, true);
      HoldsFrame(h, k, t, true);
      newchild, u := Duplicate(cptr, true, t);
      ChainIsAllocated(k, kids, 0, false);
      ChainFrame(k, View(), kids, 0, false);
      ghost var l := View();
      LinkKid(copy, nptr, newchild, kids, u);
      GrownMore(h, k, l, View(), copy, kids, u);
    }

    // The crosswiring at the end of the loop body.
    method LinkKid(copy: Ptr, nptr: Ptr, newchild: Ptr, ghost kids: Forest, ghost u: Tree)
      requires copy in nodes && newchild in nodes && copy != newchild && newchild == u.at
      requires nodes[newchild].next == 0 && nodes[newchild].prev == 0
      requires Hung(View(), kids) && Whole(View(), u)
      requires ForestNodes(kids, false) !! Nodes(u, false) && ForestTexts(kids, false) !! Texts(u, false)
      requires copy !in ForestNodes(kids, false) && copy !in Nodes(u, false)
      requires (nptr == 0 <==> kids.Nil?) && (kids.Cons? ==> nptr == Last(kids))
      modifies this
      ensures KidLinked(old(View()), View(), copy, kids, u)
    {
      ghost var l := View();
      AppendedSets(kids, u);
      AppendedApart(kids, u);
      AppendedOwned(kids, u);
      if nptr != 0 {
        LastIsInside(kids, false);
        ChainIsAllocated(l, kids, 0, false);
        nodes := nodes[nptr := nodes[nptr].(next := newchild)];
        nodes := nodes[newchild := nodes[newchild].(prev := nptr)];
        ChainAppended(l, View(), kids, 0, u);
      } else {
        nodes := nodes[copy := nodes[copy].(child := newchild)];
        HoldsFrame(l, View(), u, false);
      }
    }
  }

  // The trees hang on one chain and share nothing.
  predicate Hung(h: Heap, f: Forest) {
    Chain(h, f, 0, false) && ForestApart(f) && ForestOwned(f)
  }

  // Of the nodes in h, only the one at copy has changed, and only its child.
  predicate Rooted(h: Heap, k: Heap, copy: Ptr, child: Ptr) {
    copy in h.nodes && ExtendsBut(h, k, copy) && copy in k.nodes && k.nodes[copy] == h.nodes[copy].(child := child)
  }

  // k is h with a new chain of owned trees hung below the node at copy.
  predicate Grown(h: Heap, k: Heap, copy: Ptr, kids: Forest) {
    && Rooted(h, k, copy, First(kids)) && Hung(k, kids)
    && Added(h, k, ForestNodes(kids, false), ForestTexts(kids, false))
  }

  // k is h but for links of the nodes in `where` and the child of the node at copy.
  predicate Relinked(h: Heap, k: Heap, copy: Ptr, child: Ptr, where: set<Ptr>) {
    && k.texts == h.texts && k.nodes.Keys == h.nodes.Keys && copy in h.nodes
    && (forall p :: p in h.nodes && p != copy && p !in where ==> k.nodes[p] == h.nodes[p])
    && k.nodes[copy] == h.nodes[copy].(child := child)
  }

  // k is h with the tree u put behind the chain kids below the node at copy.
  predicate KidLinked(h: Heap, k: Heap, copy: Ptr, kids: Forest, u: Tree) {
    && copy in h.nodes
    && Relinked(h, k, copy, if kids.Nil? then u.at else h.nodes[copy].child, {u.at} + ForestNodes(kids, false))
    && Hung(k, Append(kids, u))
  }

  lemma RootedMore(h: Heap, k: Heap, l: Heap, m: Heap, copy: Ptr, first: Ptr, child: Ptr, where: set<Ptr>)
    requires Rooted(h, k, copy, first) && Extends(k, l) && Relinked(l, m, copy, child, where)
    requires h.nodes.Keys !! where
    ensures Rooted(h, m, copy, child)
  {
  }

  lemma GrownMore(h: Heap, k: Heap, l: Heap, m: Heap, copy: Ptr, kids: Forest, u: Tree)
    requires Grown(h, k, copy, kids) && Extends(k, l) && Added(k, l, Nodes(u, false), Texts(u, false))
    requires KidLinked(l, m, copy, kids, u)
    ensures Grown(h, m, copy, Append(kids, u))
  {
    AppendedSets(kids, u);
    GainsMore(h.nodes.Keys, k.nodes.Keys, m.nodes.Keys, ForestNodes(kids, false), Nodes(u, false));
    GainsMore(h.texts.Keys, k.texts.Keys, m.texts.Keys, ForestTexts(kids, false), Texts(u, false));
    assert u.at in Nodes(u, false);
    RootedMore(h, k, l, m, copy, First(kids), First(Append(kids, u)), {u.at} + ForestNodes(kids, false));
  }

  // A node whose children have just been hung below it.
  lemma GrownTree(h: Heap, k: Heap, u: Tree, kids: Forest)
    requires Whole(h, u) && u.kids == Nil && Grown(h, k, u.at, kids)
    ensures var t := u.(kids := kids);
            && Whole(k, t) && ShapeOf(t) == ShapeOf(u).(kids := ShapesOf(kids))
            && Nodes(t, false) == {u.at} + ForestNodes(kids, false)
            && Texts(t, false) == Texts(u, false) + ForestTexts(kids, false)
  {
    HeldIsAllocated(h, u, false);
  }

  function Joined(a: Shapes, b: Shapes): Shapes {
    if a.NoShapes? then b else MoreShapes(a.head, Joined(a.tail, b))
  }

  lemma {:induction false} JoinedNothing(a: Shapes)
    ensures Joined(a, NoShapes) == a
  {
    if a.MoreShapes? { JoinedNothing(a.tail); }
  }

  lemma {:induction false} AppendedShapes(f: Forest, t: Tree, rest: Shapes)
    ensures Joined(ShapesOf(Append(f, t)), rest) == Joined(ShapesOf(f), MoreShapes(ShapeOf(t), rest))
  {
    if f.Cons? { AppendedShapes(f.tail, t, rest); }
  }

  lemma {:induction false} AppendedOwned(f: Forest, t: Tree)
    requires ForestOwned(f) && Owned(t)
    ensures ForestOwned(Append(f, t))
  {
    if f.Cons? { AppendedOwned(f.tail, t); }
  }
}
