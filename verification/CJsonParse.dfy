// cJSON_ParseWithOpts as it runs: parse_value and its helpers fill in nodes
// that are linked before they are parsed. The tree built denotes the value of
// JsonParser, and a failed parse leaves the memory as it was.
module CJsonParse {
  import opened CString
  import opened Outcome
  import opened JsonTree
  import opened CJsonHeap
  import opened CJsonMemory
  import P = JsonParser
  import L = StringLiteral
  import N = JsonNumber

  // The tree of nodes stands for the value.
  predicate Denotes(t: Tree, v: Json) {
    match v
    case Null => t.kind == NULL_KIND && t.kids == Nil
    case False => t.kind == FALSE_KIND && t.kids == Nil
    case True => t.kind == TRUE_KIND && t.kids == Nil
    case Number(m, e) => t.kind == NUMBER_KIND && t.mantissa == m && t.exponent == e && t.kids == Nil
    case String(text) => t.kind == STRING_KIND && t.value.At? && t.value.text == text && t.kids == Nil
    case Array(elements) => t.kind == ARRAY_KIND && DenoteElements(t.kids, elements)
    case Object(members) => t.kind == OBJECT_KIND && DenoteMembers(t.kids, members)
  }

  predicate DenoteElements(f: Forest, es: Elements) {
    match es
    case NoElements => f == Nil
    case Element(v, rest) =>
      f.Cons? && f.head.name == Absent && Denotes(f.head, v) && DenoteElements(f.tail, rest)
  }

  predicate DenoteMembers(f: Forest, ms: Members) {
    match ms
    case NoMembers => f == Nil
    case Member(name, v, rest) =>
      f.Cons? && f.head.name.At? && f.head.name.text == name && Denotes(f.head, v) && DenoteMembers(f.tail, rest)
  }

  // A node that is not filled in yet, but may have a name.
  predicate Empty(t: Tree) {
    !t.reference && t.value == Absent && t.kids == Nil
  }

  // From h to k the node of t0 grew into the tree t: new nodes and strings
  // belong to t, and nothing else changed.
  predicate Built(h: Heap, k: Heap, t0: Tree, t: Tree) {
    && t.at == t0.at && Whole(k, t) && KeepsLinks(h, k, t.at)
    && Gains(h.nodes.Keys, k.nodes.Keys, Nodes(t, false) - {t.at})
    && Texts(t0, false) <= Texts(t, false) && Gains(h.texts.Keys, k.texts.Keys, Texts(t, false) - Texts(t0, false))
  }

  // Of the nodes in h only the one at p has changed, and not its links.
  predicate KeepsLinks(h: Heap, k: Heap, p: Ptr) {
    && p in h.nodes && p in k.nodes && ExtendsBut(h, k, p)
    && k.nodes[p].next == h.nodes[p].next && k.nodes[p].prev == h.nodes[p].prev
  }

  lemma {:induction false} LastReplaced(h: Heap, k: Heap, f: Forest, prev: Ptr, t0: Tree, t: Tree)
    requires Chain(h, Append(f, t0), prev, false) && ForestApart(Append(f, t0))
    requires Built(h, k, t0, t)
    ensures Chain(k, Append(f, t), prev, false)
    decreases f
  {
    if f.Cons? {
      AppendedSets(f.tail, t0);
      AppendedSets(f.tail, t);
      HoldsFrame(h, k, f.head, false);
      LastReplaced(h, k, f.tail, f.head.at, t0, t);
    }
  }

  lemma {:induction false} PrefixApart(f: Forest, t: Tree)
    requires ForestApart(Append(f, t)) && ForestOwned(Append(f, t))
    ensures ForestApart(f) && ForestOwned(f) && Apart(t) && Owned(t)
    ensures ForestNodes(f, false) !! Nodes(t, false) && ForestTexts(f, false) !! Texts(t, false)
  {
    if f.Cons? {
      PrefixApart(f.tail, t);
      AppendedSets(f.tail, t);
    }
  }

  lemma RootedBuilt(h: Heap, k: Heap, l: Heap, item: Ptr, first: Ptr, p: Ptr)
    requires Rooted(h, k, item, first) && KeepsLinks(k, l, p) && p !in h.nodes
    ensures Rooted(h, l, item, first)
  {
  }

  // What the chain gained with a leaf and then with what the leaf became.
  lemma GainsBuilt(a: set<Ptr>, b: set<Ptr>, c: set<Ptr>, x: set<Ptr>, y: set<Ptr>, z: set<Ptr>)
    requires Gains(a, b, x + y) && y <= z && Gains(b, c, z - y) && x !! y
    ensures Gains(a, c, x + z) && x !! z
  {
  }

  // The last child of a growing node is itself built up.
  lemma GrownBuilt(h: Heap, k: Heap, l: Heap, item: Ptr, f: Forest, u0: Tree, u: Tree)
    requires Empty(u0) && Grown(h, k, item, Append(f, u0)) && Built(k, l, u0, u)
    ensures Grown(h, l, item, Append(f, u))
  {
    AppendedSets(f, u0);
    AppendedSets(f, u);
    PrefixApart(f, u0);
    LeafTexts(u0);
    assert u.at in Nodes(u, false);
    RootedBuilt(h, k, l, item, First(Append(f, u0)), u.at);
    GainsBuilt(h.nodes.Keys, k.nodes.Keys, l.nodes.Keys, ForestNodes(f, false), {u.at}, Nodes(u, false));
    GainsBuilt(h.texts.Keys, k.texts.Keys, l.texts.Keys, ForestTexts(f, false), Texts(u0, false), Texts(u, false));
    HungReplaced(k, l, f, u0, u);
  }

  lemma HungReplaced(k: Heap, l: Heap, f: Forest, u0: Tree, u: Tree)
    requires Hung(k, Append(f, u0)) && Built(k, l, u0, u)
    requires ForestNodes(f, false) !! Nodes(u, false) && ForestTexts(f, false) !! Texts(u, false)
    ensures Hung(l, Append(f, u))
  {
    PrefixApart(f, u0);
    LastReplaced(k, l, f, 0, u0, u);
    AppendedApart(f, u);
    AppendedOwned(f, u);
  }

  function BlankTree(child: Ptr): Tree {
    Tree(child, FALSE_KIND, false, 0, 0, Absent, Absent, Nil)
  }

  // A new node beside a chain.
  lemma BlankKid(k: Heap, l: Heap, f: Forest, child: Ptr)
    requires Hung(k, f) && child != 0 && child !in k.nodes && l == Heap(k.nodes[child := BLANK], k.texts)
    ensures Hung(l, f) && Whole(l, BlankTree(child)) && Extends(k, l) && child !in ForestNodes(f, false)
    ensures Nodes(BlankTree(child), false) == {child} && Texts(BlankTree(child), false) == {}
    ensures Added(k, l, {child}, {})
  {
    ChainFrame(k, l, f, 0, false);
    ChainIsAllocated(k, f, 0, false);
    LeafTexts(BlankTree(child));
  }

  // A blank node put at the end of the chain, as the loops do before parsing it.
  method NewKid(m: Memory, item: Ptr, last: Ptr, ghost h: Heap, ghost f: Forest)
    returns (child: Ptr, ghost u: Tree)
    requires Grown(h, m.View(), item, f)
    requires (last == 0 <==> f.Nil?) && (f.Cons? ==> last == Last(f))
    modifies m
    ensures u == BlankTree(child) && child != 0
    ensures Grown(h, m.View(), item, Append(f, u)) && Last(Append(f, u)) == child
    ensures child in m.nodes && Holds(m.View(), u, false)
  {
    ghost var k := m.View();
    child := m.NewItem();
    u := BlankTree(child);
    ghost var l := m.View();
    BlankKid(k, l, f, child);
    m.LinkKid(item, last, child, f, u);
    AppendedSets(f, u);
    GrownMore(h, k, l, m.View(), item, f, u);
    LastHolds(m.View(), f, 0, u);
  }

  lemma {:induction false} LastHolds(h: Heap, f: Forest, prev: Ptr, t: Tree)
    requires Chain(h, Append(f, t), prev, false)
    ensures Holds(h, t, false)
  {
    if f.Cons? { LastHolds(h, f.tail, f.head.at, t); }
  }

  // An empty node whose kind has been set.
  lemma KindSet(h: Heap, k: Heap, t0: Tree, t: Tree, kind: nat)
    requires Empty(t0) && Holds(h, t0, false) && Apart(t0) && t == t0.(kind := kind)
    requires k == Heap(h.nodes[t0.at := h.nodes[t0.at].(kind := kind)], h.texts)
    ensures Whole(k, t) && KeepsLinks(h, k, t0.at) && k.nodes.Keys == h.nodes.Keys
    ensures Texts(t, false) == Texts(t0, false)
  {
    LeafTexts(t0);
    LeafTexts(t);
    LeafWhole(k, t);
  }

  lemma RootedKeepsLinks(h: Heap, k: Heap, l: Heap, p: Ptr, first: Ptr)
    requires KeepsLinks(h, k, p) && Rooted(k, l, p, first)
    ensures KeepsLinks(h, l, p)
  {
  }

  // Once its children are grown, the node itself is built.
  lemma GrownIsBuilt(h: Heap, k: Heap, l: Heap, t0: Tree, kids: Forest, kind: nat)
    requires Empty(t0) && Holds(h, t0, false) && Apart(t0)
    requires k == Heap(h.nodes[t0.at := h.nodes[t0.at].(kind := kind)], h.texts)
    requires Grown(k, l, t0.at, kids)
    ensures Built(h, l, t0, t0.(kind := kind, kids := kids))
  {
    var t := t0.(kind := kind);
    KindSet(h, k, t0, t, kind);
    GrownTree(k, l, t, kids);
    RootedKeepsLinks(h, k, l, t0.at, First(kids));
    HeldIsAllocated(h, t0, false);
    GainsOnly(h.nodes.Keys, l.nodes.Keys, {t0.at}, ForestNodes(kids, false));
    GainsOnly(h.texts.Keys, l.texts.Keys, Texts(t0, false), ForestTexts(kids, false));
  }

  // What was there before is no gain.
  lemma GainsOnly(a: set<Ptr>, b: set<Ptr>, x: set<Ptr>, y: set<Ptr>)
    requires Gains(a, b, y) && x <= a
    ensures Gains(a, b, (x + y) - x)
  {
    assert (x + y) - x == y;
  }

  function AppendElement(es: Elements, v: Json): Elements {
    if es.NoElements? then Element(v, NoElements) else Element(es.value, AppendElement(es.rest, v))
  }

  function PrependElements(es: Elements, r: Parsed<Elements>): Parsed<Elements> {
    if es.NoElements? then r else P.PrependElement(es.value, PrependElements(es.rest, r))
  }

  lemma {:induction false} ElementAppended(f: Forest, es: Elements, t: Tree, v: Json, r: Parsed<Elements>)
    requires DenoteElements(f, es) && t.name == Absent && Denotes(t, v)
    ensures DenoteElements(Append(f, t), AppendElement(es, v))
    ensures PrependElements(AppendElement(es, v), r) == PrependElements(es, P.PrependElement(v, r))
    decreases es
  {
    if es.Element? { ElementAppended(f.tail, es.rest, t, v, r); }
  }

  lemma {:induction false} LastElementRead(es: Elements, v: Json, next: nat)
    ensures PrependElements(es, Ok(Element(v, NoElements), next)) == Ok(AppendElement(es, v), next)
  {
    if es.Element? { LastElementRead(es.rest, v, next); }
  }

  lemma {:induction false} FailedElements(es: Elements, r: Parsed<Elements>)
    requires !r.Ok?
    ensures PrependElements(es, r) == r
  {
    if es.Element? { FailedElements(es.rest, r); }
  }

  function AppendMember(ms: Members, name: string, v: Json): Members {
    if ms.NoMembers? then Member(name, v, NoMembers) else Member(ms.name, ms.value, AppendMember(ms.rest, name, v))
  }

  function PrependMembers(ms: Members, r: Parsed<Members>): Parsed<Members> {
    if ms.NoMembers? then r else P.PrependMember(ms.name, ms.value, PrependMembers(ms.rest, r))
  }

  lemma {:induction false} MemberAppended(f: Forest, ms: Members, t: Tree, v: Json, r: Parsed<Members>)
    requires DenoteMembers(f, ms) && t.name.At? && Denotes(t, v)
    ensures DenoteMembers(Append(f, t), AppendMember(ms, t.name.text, v))
    ensures PrependMembers(AppendMember(ms, t.name.text, v), r)
         == PrependMembers(ms, P.PrependMember(t.name.text, v, r))
    decreases ms
  {
    if ms.Member? { MemberAppended(f.tail, ms.rest, t, v, r); }
  }

  lemma {:induction false} LastMemberRead(ms: Members, name: string, v: Json, next: nat)
    ensures PrependMembers(ms, Ok(Member(name, v, NoMembers), next)) == Ok(AppendMember(ms, name, v), next)
  {
    if ms.Member? { LastMemberRead(ms.rest, name, v, next); }
  }

  lemma {:induction false} FailedMembers(ms: Members, r: Parsed<Members>)
    requires !r.Ok?
    ensures PrependMembers(ms, r) == r
  {
    if ms.Member? { FailedMembers(ms.rest, r); }
  }

  // The reply of a parsing routine agrees with the value read by the model.
  predicate Answers(r: Parsed<()>, want: Parsed<Json>, t: Tree) {
    match want
    case Ok(v, next) => r == Ok((), next) && Denotes(t, v)
    case Rejected(at) => r == Rejected(at)
    case Undefined => r == Undefined
  }

  // A leaf filled in: only fields of the node itself and perhaps one string.
  lemma LeafBuilt(h: Heap, k: Heap, t0: Tree, t: Tree)
    requires Empty(t0) && Holds(h, t0, false) && Apart(t0)
    requires t == t0.(kind := t.kind, mantissa := t.mantissa, exponent := t.exponent, value := t.value)
    requires k.nodes == h.nodes[t.at := h.nodes[t.at].(kind := t.kind, mantissa := t.mantissa,
                                                       exponent := t.exponent, valuestring := Address(t.value))]
    requires t.value.At? ==> t.value.at != 0 && t.value.at !in h.texts && NulFree(t.value.text)
    requires k.texts == if t.value.At? then h.texts[t.value.at := t.value.text] else h.texts
    ensures Built(h, k, t0, t)
  {
    LeafTexts(t0);
    LeafTexts(t);
    LeafWhole(k, t);
  }

  method ParseLeaf(m: Memory, item: Ptr, s: string, i: nat, ghost t0: Tree) returns (r: Parsed<()>, ghost t: Tree)
    requires i <= |s| && item == t0.at && Empty(t0) && Holds(m.View(), t0, false) && Apart(t0)
    requires Peek(s, i) != '[' && Peek(s, i) != '{'
    modifies m
    ensures !r.Undefined? ==> Built(old(m.View()), m.View(), t0, t) && t.name == t0.name
    ensures Answers(r, P.LeafAt(s, i), t)
  {
    ghost var h := m.View();
    t := t0;
    LeafBuilt(h, h, t0, t0);
    if Occurs(s, i, "null") {
      t, r := t0.(kind := NULL_KIND), Ok((), i + 4);
      m.nodes := m.nodes[item := m.nodes[item].(kind := NULL_KIND)];
    } else if Occurs(s, i, "false") {
      t, r := t0.(kind := FALSE_KIND), Ok((), i + 5);
      m.nodes := m.nodes[item := m.nodes[item].(kind := FALSE_KIND)];
    } else if Occurs(s, i, "true") {
      t, r := t0.(kind := TRUE_KIND), Ok((), i + 4);
      m.nodes := m.nodes[item := m.nodes[item].(kind := TRUE_KIND)];
    } else if Peek(s, i) == L.QUOTE {
      r, t := ParseStringInto(m, item, s, i, t0);
      return;
    } else if Peek(s, i) == '-' || N.IsDigit(Peek(s, i)) {
      var n := N.ParseNumber(s, i);
      r := Ok((), n.next);
      t := t0.(kind := NUMBER_KIND, mantissa := n.mantissa, exponent := n.exponent);
      m.nodes := m.nodes[item := m.nodes[item].(kind := NUMBER_KIND, mantissa := n.mantissa, exponent := n.exponent)];
    } else {
      return Rejected(i), t0;
    }
    LeafBuilt(h, m.View(), t0, t);
  }

  // parse_string: the decoded text becomes the item's value. As in all these
  // routines, nothing is said of the memory when the outcome is Undefined.
  method ParseStringInto(m: Memory, item: Ptr, s: string, i: nat, ghost t0: Tree)
    returns (r: Parsed<()>, ghost t: Tree)
    requires i <= |s| && item == t0.at && Empty(t0) && Holds(m.View(), t0, false) && Apart(t0)
    modifies m
    ensures !r.Undefined? ==> Built(old(m.View()), m.View(), t0, t) && t.name == t0.name
    ensures match L.StringAt(s, i)
            case Ok(text, next) => r == Ok((), next) && Denotes(t, String(text))
            case Rejected(at) => r == Rejected(at) && t == t0 && m.View() == old(m.View())
            case Undefined => r == Undefined
  {
    ghost var h := m.View();
    t := t0;
    LeafBuilt(h, h, t0, t0);
    var parsed := L.ParseString(s, i);
    match parsed
    case Rejected(at) => r := Rejected(at);
    case Undefined => r := Undefined;
    case Ok(text, next) =>
      L.StringIsNulFree(s, i);
      var out := m.Strdup(text);
      m.nodes := m.nodes[item := m.nodes[item].(kind := STRING_KIND, valuestring := out)];
      t, r := t0.(kind := STRING_KIND, value := At(out, text)), Ok((), next);
      LeafBuilt(h, m.View(), t0, t);
  }

  predicate Fresh(h: Heap, t0: Tree) {
    Empty(t0) && Holds(h, t0, false) && Apart(t0)
  }

  method ParseValue(m: Memory, item: Ptr, s: string, i: nat, ghost t0: Tree) returns (r: Parsed<()>, ghost t: Tree)
    requires i <= |s| && item == t0.at && Fresh(m.View(), t0)
    modifies m
    ensures !r.Undefined? ==> Built(old(m.View()), m.View(), t0, t) && t.name == t0.name
    ensures Answers(r, P.ValueAt(s, i), t)
    decreases |s| - i, 1
  {
    if Peek(s, i) == '[' {
      r, t := ParseArray(m, item, s, i, t0);
    } else if Peek(s, i) == '{' {
      r, t := ParseObject(m, item, s, i, t0);
    } else {
      r, t := ParseLeaf(m, item, s, i, t0);
    }
  }

  method ParseArray(m: Memory, item: Ptr, s: string, i: nat, ghost t0: Tree) returns (r: Parsed<()>, ghost t: Tree)
    requires i < |s| && s[i] == '[' && item == t0.at && Fresh(m.View(), t0)
    modifies m
    ensures !r.Undefined? ==> Built(old(m.View()), m.View(), t0, t) && t.name == t0.name
    ensures Answers(r, P.ArrayAt(s, i), t)
    decreases |s| - i, 0
  {
    ghost var h := m.View();
    m.nodes := m.nodes[item := m.nodes[item].(kind := ARRAY_KIND)];
    ghost var k := m.View();
    var p := SkipBlanks(s, i + 1);
    ghost var f := Nil;
    if Peek(s, p) == ']' {
      r := Ok((), p + 1);
    } else {
      r, f := ParseElements(m, item, s, p, k);
      if r.Undefined? { return r, t0; }
    }
    GrownIsBuilt(h, k, m.View(), t0, f, ARRAY_KIND);
    t := t0.(kind := ARRAY_KIND, kids := f);
  }

  // One element: its node is linked, then parsed.
  method ParseElement(m: Memory, item: Ptr, last: Ptr, s: string, p: nat, ghost h: Heap, ghost f: Forest)
    returns (r: Parsed<()>, child: Ptr, ghost u: Tree)
    requires p <= |s| && Grown(h, m.View(), item, f)
    requires (last == 0 <==> f.Nil?) && (f.Cons? ==> last == Last(f))
    modifies m
    ensures !r.Undefined? ==>
              Grown(h, m.View(), item, Append(f, u)) && child != 0 && child == Last(Append(f, u)) && u.name == Absent
    ensures Answers(r, P.ValueAt(s, Skip(s, p)), u)
    decreases |s| - p, 2
  {
    ghost var u0;
    child, u0 := NewKid(m, item, last, h, f);
    ghost var k := m.View();
    var i := SkipBlanks(s, p);
    r, u := ParseValue(m, child, s, i, u0);
    if r.Undefined? { return; }
    GrownBuilt(h, k, m.View(), item, f, u0, u);
    AppendedSets(f, u);
  }

  lemma ElementsRead(s: string, p: nat)
    requires p <= |s|
    ensures P.ElementsAt(s, p) ==
            match P.ValueAt(s, Skip(s, p))
            case Rejected(at) => Rejected(at)
            case Undefined => Undefined
            case Ok(v, next) =>
              match P.TurnAt(s, next, ']')
              case Again(k) => P.PrependElement(v, P.ElementsAt(s, k))
              case Closed(k) => Ok(Element(v, NoElements), k)
              case Malformed(at) => Rejected(at)
  {
  }

  // The answer to the elements from p, given the elements read before it.
  lemma ElementTurn(s: string, p: nat, f: Forest, es: Elements, u: Tree, v: Json, next: nat)
    requires p <= |s| && next <= |s| && P.ValueAt(s, Skip(s, p)) == Ok(v, next)
    requires DenoteElements(f, es) && u.name == Absent && Denotes(u, v)
    ensures DenoteElements(Append(f, u), AppendElement(es, v))
    ensures PrependElements(es, P.ElementsAt(s, p)) ==
            match P.TurnAt(s, next, ']')
            case Again(k) => PrependElements(AppendElement(es, v), P.ElementsAt(s, k))
            case Closed(k) => Ok(AppendElement(es, v), k)
            case Malformed(at) => Rejected(at)
  {
    ElementsRead(s, p);
    match P.TurnAt(s, next, ']')
    case Again(k) => ElementAppended(f, es, u, v, P.ElementsAt(s, k));
    case Closed(k) =>
      ElementAppended(f, es, u, v, Undefined);
      LastElementRead(es, v, k);
    case Malformed(at) =>
      ElementAppended(f, es, u, v, Undefined);
      FailedElements(es, Rejected(at));
  }

  lemma ElementFailed(s: string, p: nat, es: Elements)
    requires p <= |s| && !P.ValueAt(s, Skip(s, p)).Ok?
    ensures PrependElements(es, P.ElementsAt(s, p)) ==
            match P.ValueAt(s, Skip(s, p))
            case Rejected(at) => Rejected(at)
            case _ => Undefined
  {
    ElementsRead(s, p);
    FailedElements(es, P.ElementsAt(s, p));
  }

  // The comma, closing char or other text after a value.
  method ReadTurn(s: string, i: nat, close: char) returns (t: P.Turn)
    requires i <= |s| && close != '\0'
    ensures t == P.TurnAt(s, i, close)
  {
    var k := SkipBlanks(s, i);
    t := if Peek(s, k) == ',' then P.Again(k + 1)
         else if Peek(s, k) == close then P.Closed(k + 1)
         else P.Malformed(k);
  }

  predicate AnswersElements(r: Parsed<()>, want: Parsed<Elements>, f: Forest) {
    match want
    case Ok(es, next) => r == Ok((), next) && DenoteElements(f, es)
    case Rejected(at) => r == Rejected(at)
    case Undefined => r == Undefined
  }

  // The loop over the elements, from i through the closing bracket.
  method ParseElements(m: Memory, item: Ptr, s: string, i: nat, ghost h: Heap)
    returns (r: Parsed<()>, ghost f: Forest)
    requires i <= |s| && Grown(h, m.View(), item, Nil)
    modifies m
    ensures !r.Undefined? ==> Grown(h, m.View(), item, f)
    ensures AnswersElements(r, P.ElementsAt(s, i), f)
    decreases |s| - i, 3
  {
    var p, child: Ptr, more := i, 0, true;
    f, r := Nil, Undefined;
    ghost var es := NoElements;
    while more
      invariant i <= p <= |s|
      invariant Grown(h, m.View(), item, f)
      invariant (child == 0 <==> f.Nil?) && (f.Cons? ==> child == Last(f))
      invariant more ==> DenoteElements(f, es)
      invariant more ==> P.ElementsAt(s, i) == PrependElements(es, P.ElementsAt(s, p))
      invariant !more ==> AnswersElements(r, P.ElementsAt(s, i), f)
      decreases more, |s| - p
    {
      ghost var u, f0;
      f0 := f;
      r, child, u := ParseElement(m, item, child, s, p, h, f);
      f := Append(f0, u);
      if !r.Ok? {
        ElementFailed(s, p, es);
        if r.Undefined? { return; }
        more := false;
      } else {
        ghost var v := P.ValueAt(s, Skip(s, p)).value;
        ElementTurn(s, p, f0, es, u, v, r.next);
        es := AppendElement(es, v);
        var turn := ReadTurn(s, r.next, ']');
        match turn
        case Again(k) => p := k;
        case Closed(k) => r, more := Ok((), k), false;
        case Malformed(at) => r, more := Rejected(at), false;
      }
    }
  }

  method ParseObject(m: Memory, item: Ptr, s: string, i: nat, ghost t0: Tree) returns (r: Parsed<()>, ghost t: Tree)
    requires i < |s| && s[i] == '{' && item == t0.at && Fresh(m.View(), t0)
    modifies m
    ensures !r.Undefined? ==> Built(old(m.View()), m.View(), t0, t) && t.name == t0.name
    ensures Answers(r, P.ObjectAt(s, i), t)
    decreases |s| - i, 0
  {
    ghost var h := m.View();
    m.nodes := m.nodes[item := m.nodes[item].(kind := OBJECT_KIND)];
    ghost var k := m.View();
    var p := SkipBlanks(s, i + 1);
    ghost var f := Nil;
    if Peek(s, p) == '}' {
      r := Ok((), p + 1);
    } else {
      r, f := ParseMembers(m, item, s, p, k);
      if r.Undefined? { return r, t0; }
    }
    GrownIsBuilt(h, k, m.View(), t0, f, OBJECT_KIND);
    t := t0.(kind := OBJECT_KIND, kids := f);
  }

  // A leaf whose value has become its name.
  lemma NameMoved(h: Heap, k: Heap, l: Heap, u0: Tree, v: Tree, u: Tree)
    requires Built(h, k, u0, v) && v.kids == Nil && v.name == Absent && u == v.(name := v.value, value := Absent)
    requires l.nodes == k.nodes[v.at := k.nodes[v.at].(name := Address(v.value), valuestring := 0)]
    requires l.texts == k.texts
    ensures Built(h, l, u0, u) && Fresh(l, u)
  {
    LeafTexts(v);
    LeafTexts(u);
    LeafWhole(l, u);
  }

  method MoveName(m: Memory, child: Ptr)
    requires child in m.nodes
    modifies m
    ensures var n := old(m.nodes[child]);
            m.nodes == old(m.nodes)[child := n.(name := n.valuestring, valuestring := 0)]
    ensures m.texts == old(m.texts)
  {
    m.nodes := m.nodes[child := m.nodes[child].(name := m.nodes[child].valuestring)];
    m.nodes := m.nodes[child := m.nodes[child].(valuestring := 0)];
  }

  // The name of a member: parse_string fills the child's value, which is then
  // moved to its name, and a colon must follow.
  method ParseName(m: Memory, child: Ptr, s: string, p: nat, ghost u0: Tree) returns (r: Parsed<()>, ghost u: Tree)
    requires p <= |s| && child == u0.at && Fresh(m.View(), u0) && u0.name == Absent
    modifies m
    ensures !r.Undefined? ==> Built(old(m.View()), m.View(), u0, u) && Fresh(m.View(), u)
    ensures AnswersName(r, P.NameAt(s, p), u)
  {
    ghost var h := m.View();
    var i := SkipBlanks(s, p);
    r, u := ParseStringInto(m, child, s, i, u0);
    if !r.Ok? { return; }
    ghost var k, v := m.View(), u;
    var c := SkipBlanks(s, r.next);
    MoveName(m, child);
    u := v.(name := v.value, value := Absent);
    NameMoved(h, k, m.View(), u0, v, u);
    r := if Peek(s, c) == ':' then Ok((), c + 1) else Rejected(c);
  }

  predicate AnswersName(r: Parsed<()>, want: Parsed<string>, u: Tree) {
    match want
    case Ok(name, next) => r == Ok((), next) && u.name.At? && u.name.text == name
    case Rejected(at) => r == Rejected(at)
    case Undefined => r == Undefined
  }

  // One member: its node is linked, then its name and its value are parsed.
  method ParseMember(m: Memory, item: Ptr, last: Ptr, s: string, p: nat, ghost h: Heap, ghost f: Forest)
    returns (r: Parsed<()>, child: Ptr, ghost u: Tree)
    requires p <= |s| && Grown(h, m.View(), item, f)
    requires (last == 0 <==> f.Nil?) && (f.Cons? ==> last == Last(f))
    modifies m
    ensures !r.Undefined? ==> Grown(h, m.View(), item, Append(f, u)) && child != 0 && child == Last(Append(f, u))
    ensures match P.NameAt(s, p)
            case Ok(name, c) =>
              && Answers(r, P.ValueAt(s, Skip(s, c)), u)
              && (!r.Undefined? ==> u.name.At? && u.name.text == name)
            case Rejected(at) => r == Rejected(at)
            case Undefined => r == Undefined
    decreases |s| - p, 2
  {
    ghost var u0;
    child, u0 := NewKid(m, item, last, h, f);
    ghost var k := m.View();
    r, u := ParseName(m, child, s, p, u0);
    if r.Undefined? { return; }
    ghost var l := m.View();
    GrownBuilt(h, k, l, item, f, u0, u);
    AppendedSets(f, u);
    if !r.Ok? { return; }
    var i := SkipBlanks(s, r.next);
    ghost var u1 := u;
    r, u := ParseValue(m, child, s, i, u1);
    if r.Undefined? { return; }
    GrownBuilt(h, l, m.View(), item, f, u1, u);
    AppendedSets(f, u);
  }

  lemma MembersRead(s: string, p: nat)
    requires p <= |s|
    ensures P.MembersAt(s, p) ==
            match P.NameAt(s, p)
            case Rejected(at) => Rejected(at)
            case Undefined => Undefined
            case Ok(name, c) =>
              match P.ValueAt(s, Skip(s, c))
              case Rejected(at) => Rejected(at)
              case Undefined => Undefined
              case Ok(v, next) =>
                match P.TurnAt(s, next, '}')
                case Again(k) => P.PrependMember(name, v, P.MembersAt(s, k))
                case Closed(k) => Ok(Member(name, v, NoMembers), k)
                case Malformed(at) => Rejected(at)
  {
  }

  lemma MemberTurn(s: string, p: nat, f: Forest, ms: Members, u: Tree, c: nat, v: Json, next: nat)
    requires p <= |s| && next <= |s| && u.name.At? && P.NameAt(s, p) == Ok(u.name.text, c)
    requires P.ValueAt(s, Skip(s, c)) == Ok(v, next) && DenoteMembers(f, ms) && Denotes(u, v)
    ensures DenoteMembers(Append(f, u), AppendMember(ms, u.name.text, v))
    ensures PrependMembers(ms, P.MembersAt(s, p)) ==
            match P.TurnAt(s, next, '}')
            case Again(k) => PrependMembers(AppendMember(ms, u.name.text, v), P.MembersAt(s, k))
            case Closed(k) => Ok(AppendMember(ms, u.name.text, v), k)
            case Malformed(at) => Rejected(at)
  {
    MembersRead(s, p);
    match P.TurnAt(s, next, '}')
    case Again(k) => MemberAppended(f, ms, u, v, P.MembersAt(s, k));
    case Closed(k) =>
      MemberAppended(f, ms, u, v, Undefined);
      LastMemberRead(ms, u.name.text, v, k);
    case Malformed(at) =>
      MemberAppended(f, ms, u, v, Undefined);
      FailedMembers(ms, Rejected(at));
  }

  lemma MemberFailed(s: string, p: nat, ms: Members)
    requires p <= |s|
    requires P.NameAt(s, p).Ok? ==> !P.ValueAt(s, Skip(s, P.NameAt(s, p).next)).Ok?
    ensures PrependMembers(ms, P.MembersAt(s, p)) == P.MembersAt(s, p)
    ensures P.MembersAt(s, p) ==
            match P.NameAt(s, p)
            case Rejected(at) => Rejected(at)
            case Undefined => Undefined
            case Ok(_, c) =>
              match P.ValueAt(s, Skip(s, c))
              case Rejected(at) => Rejected(at)
              case _ => Undefined
  {
    MembersRead(s, p);
    FailedMembers(ms, P.MembersAt(s, p));
  }

  predicate AnswersMembers(r: Parsed<()>, want: Parsed<Members>, f: Forest) {
    match want
    case Ok(ms, next) => r == Ok((), next) && DenoteMembers(f, ms)
    case Rejected(at) => r == Rejected(at)
    case Undefined => r == Undefined
  }

  // The loop over the members, from i through the closing brace.
  method ParseMembers(m: Memory, item: Ptr, s: string, i: nat, ghost h: Heap)
    returns (r: Parsed<()>, ghost f: Forest)
    requires i <= |s| && Grown(h, m.View(), item, Nil)
    modifies m
    ensures !r.Undefined? ==> Grown(h, m.View(), item, f)
    ensures AnswersMembers(r, P.MembersAt(s, i), f)
    decreases |s| - i, 3
  {
    var p, child: Ptr, more := i, 0, true;
    f, r := Nil, Undefined;
    ghost var ms := NoMembers;
    while more
      invariant i <= p <= |s|
      invariant Grown(h, m.View(), item, f)
      invariant (child == 0 <==> f.Nil?) && (f.Cons? ==> child == Last(f))
      invariant more ==> DenoteMembers(f, ms)
      invariant more ==> P.MembersAt(s, i) == PrependMembers(ms, P.MembersAt(s, p))
      invariant !more ==> AnswersMembers(r, P.MembersAt(s, i), f)
      decreases more, |s| - p
    {
      ghost var u, f0;
      f0 := f;
      r, child, u := ParseMember(m, item, child, s, p, h, f);
      f := Append(f0, u);
      if !r.Ok? {
        MemberFailed(s, p, ms);
        if r.Undefined? { return; }
        more := false;
      } else {
        ghost var c := P.NameAt(s, p).next;
        ghost var v := P.ValueAt(s, Skip(s, c)).value;
        MemberTurn(s, p, f0, ms, u, c, v, r.next);
        ms := AppendMember(ms, u.name.text, v);
        var turn := ReadTurn(s, r.next, '}');
        match turn
        case Again(k) => p := k;
        case Closed(k) => r, more := Ok((), k), false;
        case Malformed(at) => r, more := Rejected(at), false;
      }
    }
  }

  // The memory k is h and, apart from it, the nodes and strings of t.
  predicate Adds(h: Heap, k: Heap, t: Tree) {
    && Extends(h, k)
    && k.nodes.Keys == h.nodes.Keys + Nodes(t, false) && Nodes(t, false) !! h.nodes.Keys
    && k.texts.Keys == h.texts.Keys + Texts(t, false) && Texts(t, false) !! h.texts.Keys
    && t.at in k.nodes && k.nodes[t.at].next == 0 && k.nodes[t.at].prev == 0
  }

  lemma RootBuilt(h: Heap, k: Heap, l: Heap, t: Tree)
    requires t.at !in h.nodes && k == Heap(h.nodes[t.at := BLANK], h.texts) && Built(k, l, BlankTree(t.at), t)
    ensures Adds(h, l, t)
  {
    LeafTexts(BlankTree(t.at));
    assert t.at in Nodes(t, false);
  }

  // Deleting a tree that is all the memory has more than h restores h.
  method Discard(m: Memory, c: Ptr, ghost h: Heap, ghost t: Tree)
    requires c == t.at && Holds(m.View(), t, false) && Apart(t) && Adds(h, m.View(), t)
    modifies m
    ensures m.View() == h
  {
    m.Delete(c, Cons(t, Nil), 0);
    assert m.nodes == h.nodes;
    assert m.texts == h.texts;
  }

  // cJSON_ParseWithOpts: a new tree that denotes the value read, or null and
  // the memory as it was before the call.
  method Parse(m: Memory, s: string, whole: bool) returns (r: Parsed<Ptr>, ghost t: Tree)
    modifies m
    ensures match P.Parse(s, whole)
            case Ok(v, next) =>
              && r == Ok(t.at, next) && Holds(m.View(), t, false) && Apart(t) && Owned(t) && Denotes(t, v)
              && Adds(old(m.View()), m.View(), t)
            case Rejected(at) => r == Rejected(at) && m.View() == old(m.View())
            case Undefined => r == Undefined
  {
    ghost var h := m.View();
    var c := m.NewItem();
    ghost var k := m.View();
    var i := SkipBlanks(s, 0);
    var reply;
    reply, t := ParseValue(m, c, s, i, BlankTree(c));
    if reply.Undefined? { return Undefined, t; }
    RootBuilt(h, k, m.View(), t);
    var end := 0;
    if reply.Ok? {
      end := reply.next;
      if whole {
        end := SkipBlanks(s, end);
        if Peek(s, end) == '\0' {
          return Ok(c, end), t;
        }
      } else {
        return Ok(c, end), t;
      }
    }
    Discard(m, c, h, t);
    r := Rejected(if reply.Ok? then end else reply.at);
  }

  // A tree that was parsed and deleted again leaves the memory as it was.
  method ParseThenDelete(m: Memory, s: string, whole: bool)
    requires !P.Parse(s, whole).Undefined?
    modifies m
    ensures m.View() == old(m.View())
  {
    ghost var h := m.View();
    var r, t := Parse(m, s, whole);
    if r.Ok? { Discard(m, r.value, h, t); }
  }
}
