// cJSON_Print and cJSON_PrintUnformatted on nodes in memory: the entries are
// printed first, their lengths pay for one buffer, and the text is composed in it.
module CJsonPrint {
  import opened Outcome
  import opened JsonTree
  import opened JsonPrinter
  import opened CJsonHeap
  import opened CJsonMemory
  import C = CJsonParse
  import S = PrintString
  import opened PrintCompose

  // The first loop: how many children there are.
  method Count(m: Memory, child: Ptr, ghost f: Forest) returns (n: nat)
    requires child == First(f) && Chain(m.View(), f, 0, true)
    ensures n == Length(f)
  {
    var c := child;
    n := 0;
    ghost var rest, prev: Ptr := f, 0;
    while c != 0
      invariant c == First(rest) && Chain(m.View(), rest, prev, true) && n + Length(rest) == Length(f)
      decreases rest
    {
      n, c := n + 1, m.nodes[c].next;
      prev, rest := rest.head.at, rest.tail;
    }
  }

  // An empty array's text in its three bytes.
  method PrintEmptyArray() returns (out: array<char>)
    ensures fresh(out) && out.Length == 3 && S.Holds(out, "[]")
  {
    out := S.Store("[]", 3);
  }

  method PrintValue(m: Memory, item: Ptr, depth: nat, formatted: bool, ghost t: Tree, ghost v: Json)
    returns (out: array<char>)
    requires item == t.at && Holds(m.View(), t, true) && C.Denotes(t, v) && Printable(v)
    requires !(v == Object(NoMembers) && formatted && depth == 0)
    ensures fresh(out) && S.Holds(out, Print(v, depth, formatted))
    ensures out.Length == Allocated(v, depth, formatted)
    decreases v, 4
  {
    var node := m.nodes[item];
    match node.kind
    case 0 => out := S.Store("false", 6);
    case 1 => out := S.Store("true", 5);
    case 2 => out := S.Store("null", 5);
    case 3 => out := S.PrintNumber(node.mantissa);
    case 4 =>
      out := S.PrintStringPtr(if node.valuestring == 0 then None else Some(m.texts[node.valuestring]));
      assert out.Length == |S.PrintText(v.text)| + 1;
    case 5 => out := PrintArray(m, node.child, depth, formatted, t.kids, v.elements);
    case _ => out := PrintObject(m, node.child, depth, formatted, t.kids, v.members);
  }

  method PrintArray(m: Memory, first: Ptr, depth: nat, formatted: bool, ghost f: Forest, ghost es: Elements)
    returns (out: array<char>)
    requires first == First(f) && Chain(m.View(), f, 0, true) && C.DenoteElements(f, es) && PrintableElements(es)
    ensures fresh(out) && S.Holds(out, Print(Array(es), depth, formatted))
    ensures out.Length == Allocated(Array(es), depth, formatted)
    decreases es, 2
  {
    var numentries := Count(m, first, f);
    if numentries == 0 {
      out := PrintEmptyArray();
      return;
    }
    var entries, len := CollectElements(m, first, numentries, depth + 1, formatted, f, es);
    out := ComposeArray(entries, len, depth + 1, formatted, es);
  }

  // One element, and the length it asks for.
  method PrintElement(m: Memory, child: Ptr, depth: nat, formatted: bool, ghost t: Tree, ghost es: Elements)
    returns (ret: array<char>, cost: nat)
    requires child == t.at && Holds(m.View(), t, true) && PrintableElements(es) && es.Element? && depth > 0
    requires C.Denotes(t, es.value)
    ensures S.Holds(ret, Print(es.value, depth, formatted))
    ensures cost + ElementsCost(es.rest, depth, formatted) == ElementsCost(es, depth, formatted)
    decreases es, 0
  {
    ret := PrintValue(m, child, depth, formatted, t, es.value);
    var n := S.Strlen(ret, Print(es.value, depth, formatted));
    cost := n + 2 + (if formatted then 1 else 0);
  }

  // The arrays hold the first texts, and `rest` are the others.
  ghost predicate Collected(held: seq<array<char>>, texts: seq<string>, rest: seq<string>)
    reads held
  {
    HoldAll(held, texts) && texts[|held|..] == rest
  }

  lemma NextCollected(held: seq<array<char>>, texts: seq<string>, rest: seq<string>, a: array<char>)
    requires Collected(held, texts, rest) && rest != [] && S.Holds(a, rest[0])
    ensures Collected(held + [a], texts, rest[1..])
  {
    NextTexts(texts, |held|);
    HoldMore(held, texts, a);
  }

  lemma AllCollected(held: seq<array<char>>, texts: seq<string>)
    requires Collected(held, texts, [])
    ensures |held| == |texts| && HoldAll(held, texts)
  {
  }

  // What is left of an array's chain and of its elements.
  ghost predicate ElementsLeft(m: Memory, child: Ptr, prev: Ptr, f: Forest, es: Elements)
    reads m
  {
    child == First(f) && Chain(m.View(), f, prev, true) && C.DenoteElements(f, es) && PrintableElements(es)
  }

  lemma NextElement(m: Memory, child: Ptr, prev: Ptr, f: Forest, es: Elements)
    requires ElementsLeft(m, child, prev, f, es)
    ensures child == 0 <==> f.Nil? && es.NoElements?
    ensures child != 0 ==> f.Cons? && es.Element? && child in m.nodes && child == f.head.at
    ensures child != 0 ==> Holds(m.View(), f.head, true) && C.Denotes(f.head, es.value)
    ensures child != 0 ==> ElementsLeft(m, m.nodes[child].next, child, f.tail, es.rest)
  {
    assert f.Cons? ==> Holds(m.View(), f.head, true);
  }

  ghost predicate MembersLeft(m: Memory, child: Ptr, prev: Ptr, f: Forest, ms: Members)
    reads m
  {
    child == First(f) && Chain(m.View(), f, prev, true) && C.DenoteMembers(f, ms) && PrintableMembers(ms)
  }

  lemma NextMember(m: Memory, child: Ptr, prev: Ptr, f: Forest, ms: Members)
    requires MembersLeft(m, child, prev, f, ms)
    ensures child == 0 <==> f.Nil? && ms.NoMembers?
    ensures child != 0 ==> f.Cons? && ms.Member? && child in m.nodes && child == f.head.at
    ensures child != 0 ==> Holds(m.View(), f.head, true) && C.Denotes(f.head, ms.value)
    ensures child != 0 ==> f.head.name.At? && f.head.name.text == ms.name
    ensures child != 0 ==> MembersLeft(m, m.nodes[child].next, child, f.tail, ms.rest)
  {
    assert f.Cons? ==> Holds(m.View(), f.head, true);
  }

  // All the entries, for which there is room, and the length they ask for.
  method CollectElements(m: Memory, first: Ptr, room: nat, depth: nat, formatted: bool, ghost f: Forest,
                         ghost es: Elements)
    returns (entries: seq<array<char>>, len: nat)
    requires first == First(f) && Chain(m.View(), f, 0, true) && C.DenoteElements(f, es) && PrintableElements(es)
    requires depth > 0 && room == Length(f)
    ensures |entries| == room
    ensures |entries| == |Entries(es, depth, formatted)| && HoldAll(entries, Entries(es, depth, formatted))
    ensures len == 5 + ElementsCost(es, depth, formatted)
    decreases es, 1
  {
    entries, len := [], 5;
    var child := first;
    ghost var rest, left, prev: Ptr := f, es, 0;
    ghost var ts := Entries(es, depth, formatted);
    assert ts[0..] == ts;
    while child != 0
      invariant ElementsLeft(m, child, prev, rest, left) && (left == es || left < es)
      invariant |entries| + Length(rest) == room
      invariant Collected(entries, ts, Entries(left, depth, formatted))
      invariant len + ElementsCost(left, depth, formatted) == 5 + ElementsCost(es, depth, formatted)
      decreases left
    {
      NextElement(m, child, prev, rest, left);
      assert |entries| < room;
      var ret, cost := PrintElement(m, child, depth, formatted, rest.head, left);
      NextCollected(entries, ts, Entries(left, depth, formatted), ret);
      entries, len := entries + [ret], len + cost;
      prev, child := child, m.nodes[child].next;
      rest, left := rest.tail, left.rest;
    }
    NextElement(m, child, prev, rest, left);
    AllCollected(entries, ts);
  }

  method PrintObject(m: Memory, first: Ptr, depth: nat, formatted: bool, ghost f: Forest, ghost ms: Members)
    returns (out: array<char>)
    requires first == First(f) && Chain(m.View(), f, 0, true) && C.DenoteMembers(f, ms) && PrintableMembers(ms)
    requires !(ms == NoMembers && formatted && depth == 0)
    ensures fresh(out) && S.Holds(out, Print(Object(ms), depth, formatted))
    ensures out.Length == Allocated(Object(ms), depth, formatted)
    decreases ms, 3
  {
    var numentries := Count(m, first, f);
    NoKidsNoMembers(f, ms);
    if numentries == 0 {
      out := PrintEmptyObject(depth, formatted);
      return;
    }
    FilledAllocated(ms, depth, formatted);
    assert depth + 1 - 1 == depth;
    out := PrintFilledObject(m, first, numentries, depth + 1, formatted, f, ms);
    assert S.Holds(out, Print(Object(ms), depth, formatted));
  }

  lemma NoKidsNoMembers(f: Forest, ms: Members)
    requires C.DenoteMembers(f, ms)
    ensures Length(f) == 0 <==> ms == NoMembers
  {
  }

  lemma FilledAllocated(ms: Members, depth: nat, formatted: bool)
    requires PrintableMembers(ms) && ms.Member?
    ensures Allocated(Object(ms), depth, formatted) == ObjectCost(ms, depth + 1, formatted)
  {
  }

  // The rest of the routine, once there are entries to print at the next depth.
  method PrintFilledObject(m: Memory, first: Ptr, numentries: nat, depth: nat, formatted: bool, ghost f: Forest,
                           ghost ms: Members)
    returns (out: array<char>)
    requires first == First(f) && Chain(m.View(), f, 0, true) && C.DenoteMembers(f, ms) && PrintableMembers(ms)
    requires ms.Member? && depth > 0 && numentries == Length(f)
    ensures fresh(out) && S.Holds(out, Print(Object(ms), depth - 1, formatted))
    ensures out.Length == ObjectCost(ms, depth, formatted)
    decreases ms, 2
  {
    var names, entries, len := CollectMembers(m, first, numentries, depth, formatted, f, ms);
    out := ComposeObject(names, entries, len, depth, formatted, ms);
  }

  // The name and the value of one member, and the length they ask for.
  method PrintMember(m: Memory, child: Ptr, depth: nat, formatted: bool, ghost t: Tree, ghost ms: Members)
    returns (str: array<char>, ret: array<char>, cost: nat)
    requires child == t.at && Holds(m.View(), t, true) && PrintableMembers(ms) && ms.Member? && depth > 0
    requires C.Denotes(t, ms.value) && t.name.At? && t.name.text == ms.name
    ensures S.Holds(str, S.PrintText(ms.name)) && S.Holds(ret, Print(ms.value, depth, formatted))
    ensures cost + MembersCost(ms.rest, depth, formatted) == MembersCost(ms, depth, formatted)
    decreases ms, 0
  {
    str := S.PrintStringPtr(Some(m.texts[m.nodes[child].name]));
    ret := PrintValue(m, child, depth, formatted, t, ms.value);
    var a := S.Strlen(ret, Print(ms.value, depth, formatted));
    var b := S.Strlen(str, S.PrintText(ms.name));
    cost := a + b + 2 + (if formatted then 2 + depth else 0);
  }

  // The texts of the members before `left`, and the length they ask for.
  ghost predicate MembersCollected(names: seq<array<char>>, entries: seq<array<char>>, len: nat, depth: nat,
                                   formatted: bool, ms: Members, left: Members)
    requires PrintableMembers(ms) && PrintableMembers(left) && depth > 0
    reads names, entries
  {
    && Collected(names, Names(ms), Names(left))
    && Collected(entries, Values(ms, depth, formatted), Values(left, depth, formatted))
    && len + MembersCost(left, depth, formatted) == ObjectCost(ms, depth, formatted)
  }

  lemma NextMemberCollected(names: seq<array<char>>, entries: seq<array<char>>, len: nat, depth: nat, formatted: bool,
                            ms: Members, left: Members, str: array<char>, ret: array<char>, cost: nat)
    requires PrintableMembers(ms) && PrintableMembers(left) && depth > 0 && left.Member?
    requires MembersCollected(names, entries, len, depth, formatted, ms, left)
    requires S.Holds(str, S.PrintText(left.name)) && S.Holds(ret, Print(left.value, depth, formatted))
    requires cost + MembersCost(left.rest, depth, formatted) == MembersCost(left, depth, formatted)
    ensures MembersCollected(names + [str], entries + [ret], len + cost, depth, formatted, ms, left.rest)
  {
    NextCollected(names, Names(ms), Names(left), str);
    NextCollected(entries, Values(ms, depth, formatted), Values(left, depth, formatted), ret);
  }

  method CollectMembers(m: Memory, first: Ptr, room: nat, depth: nat, formatted: bool, ghost f: Forest,
                        ghost ms: Members)
    returns (names: seq<array<char>>, entries: seq<array<char>>, len: nat)
    requires first == First(f) && Chain(m.View(), f, 0, true) && C.DenoteMembers(f, ms) && PrintableMembers(ms)
    requires depth > 0 && room == Length(f)
    ensures |names| == |entries| == room
    ensures NamesHeld(names, ms) && ValuesHeld(entries, ms, depth, formatted)
    ensures len == ObjectCost(ms, depth, formatted)
    decreases ms, 1
  {
    names, entries, len := [], [], if formatted then 7 + depth else 7;
    var child := first;
    ghost var rest, left, prev: Ptr := f, ms, 0;
    assert Names(ms)[0..] == Names(ms) && Values(ms, depth, formatted)[0..] == Values(ms, depth, formatted);
    while child != 0
      invariant MembersLeft(m, child, prev, rest, left) && (left == ms || left < ms)
      invariant |names| == |entries| && |entries| + Length(rest) == room
      invariant MembersCollected(names, entries, len, depth, formatted, ms, left)
      decreases left
    {
      NextMember(m, child, prev, rest, left);
      assert |entries| < room;
      var str, ret, cost := PrintMember(m, child, depth, formatted, rest.head, left);
      NextMemberCollected(names, entries, len, depth, formatted, ms, left, str, ret, cost);
      names, entries, len := names + [str], entries + [ret], len + cost;
      prev, child := child, m.nodes[child].next;
      rest, left := rest.tail, left.rest;
    }
    NextMember(m, child, prev, rest, left);
    AllCollected(names, Names(ms));
    AllCollected(entries, Values(ms, depth, formatted));
  }
}
