// The circular doubly linked lists of list.h: nodes that point at each other,
// and what every operation does to the circle as a sequence of nodes.
module ListHead {
  // A pointer to a node: null, one of the two poison values or a node.
  datatype Link = Null | Poison1 | Poison2 | To(node: ListHead)

  class ListHead {
    var next: Link
    var prev: Link

    constructor ()
      ensures next == Null && prev == Null
    {
      next, prev := Null, Null;
    }
  }

  predicate Distinct<T(==)>(s: seq<T>) {
    forall i, j :: 0 <= i < j < |s| ==> s[i] != s[j]
  }

  predicate Disjoint<T(==)>(s: seq<T>, t: seq<T>) {
    forall x :: x in s ==> x !in t
  }

  function After(s: seq<ListHead>, i: nat): ListHead
    requires i < |s|
  {
    if i + 1 < |s| then s[i + 1] else s[0]
  }

  // Node i and the one after it point at each other.
  predicate Joint(s: seq<ListHead>, i: nat)
    requires i < |s|
    reads s
  {
    s[i].next == To(After(s, i)) && After(s, i).prev == To(s[i])
  }

  // The nodes of s, all different, in a circle. The list with head h and entries
  // e is the circle [h] + e.
  ghost predicate Circle(s: seq<ListHead>)
    reads s
  {
    s != [] && Distinct(s) && forall i :: 0 <= i < |s| ==> Joint(s, i)
  }

  // A circle may be read from any of its nodes.
  lemma Turn(s: seq<ListHead>, t: seq<ListHead>)
    requires Circle(s + t)
    ensures Circle(t + s)
  {
    if s != [] && t != [] {
      forall i | 0 <= i < |t + s| ensures Joint(t + s, i) {
        var j := if i < |t| then |s| + i else i - |t|;
        assert Joint(s + t, j);
      }
      DistinctTurn(s, t);
    } else {
      assert t + s == s + t;
    }
  }

  lemma DistinctTurn<T>(s: seq<T>, t: seq<T>)
    requires Distinct(s + t)
    ensures Distinct(t + s)
  {
    forall i, j | 0 <= i < j < |t + s| ensures (t + s)[i] != (t + s)[j] {
      var k, l := if i < |t| then |s| + i else i - |t|, if j < |t| then |s| + j else j - |t|;
      assert (s + t)[k] == (t + s)[i] && (s + t)[l] == (t + s)[j];
    }
  }

  // A circle none of whose nodes changed.
  twostate lemma StaysCircle(s: seq<ListHead>)
    requires old(Circle(s)) && forall x :: x in s ==> unchanged(x)
    ensures Circle(s)
  {
    forall i | 0 <= i < |s| ensures Joint(s, i) {
      assert old(Joint(s, i)) && s[i] in s && After(s, i) in s;
    }
  }

  method InitListHead(list: ListHead)
    modifies list
    ensures Circle([list])
  {
    list.next := To(list);
    list.prev := To(list);
    assert Joint([list], 0);
  }

  // __list_add: the circle, read from next to prev, gets one more node.
  method AddBetween(a: ListHead, prev: ListHead, next: ListHead, ghost s: seq<ListHead>)
    requires Circle(s) && s[0] == next && s[|s| - 1] == prev && a !in s
    modifies a, prev, next
    ensures Circle(s + [a])
  {
    next.prev := To(a);
    a.next := To(next);
    a.prev := To(prev);
    prev.next := To(a);
    forall i | 0 <= i < |s + [a]| ensures Joint(s + [a], i) {
      if i < |s| { assert old(Joint(s, i)); }
    }
  }

  method ListAdd(a: ListHead, head: ListHead, ghost e: seq<ListHead>)
    requires Circle([head] + e) && a !in [head] + e
    modifies a, head, e
    ensures Circle([head, a] + e)
  {
    assert Joint([head] + e, 0);
    Turn([head], e);
    AddBetween(a, head, head.next.node, e + [head]);
    assert e + [head] + [a] == e + [head, a];
    Turn(e, [head, a]);
  }

  method ListAddTail(a: ListHead, head: ListHead, ghost e: seq<ListHead>)
    requires Circle([head] + e) && a !in [head] + e
    modifies a, head, e
    ensures Circle([head] + e + [a])
  {
    assert Joint([head] + e, |e|);
    AddBetween(a, head.prev.node, head, [head] + e);
  }

  // __list_del: the circle loses the node between prev and next. A node that is
  // alone stays as it is.
  method DelBetween(prev: ListHead, next: ListHead, ghost entry: ListHead, ghost rest: seq<ListHead>)
    requires Circle([entry] + rest) && entry.prev == To(prev) && entry.next == To(next)
    modifies prev, next
    ensures rest != [] ==> Circle(rest) && entry.next == old(entry.next) && entry.prev == old(entry.prev)
    ensures rest == [] ==> Circle([entry])
  {
    ghost var s := [entry] + rest;
    assert Joint(s, 0) && Joint(s, |rest|);
    next.prev := To(prev);
    prev.next := To(next);
    if rest != [] {
      assert Distinct(rest) by {
        forall i, j | 0 <= i < j < |rest| ensures rest[i] != rest[j] { assert s[i + 1] != s[j + 1]; }
      }
      forall i | 0 <= i < |rest| ensures Joint(rest, i) { assert old(Joint(s, i + 1)); }
    } else {
      assert old(Joint(s, 0));
      assert [entry] + rest == [entry];
      assert Joint([entry], 0);
    }
  }

  // Entry k of the list, and the list without it.
  function Dropped<T>(e: seq<T>, k: nat): (r: seq<T>)
    requires k < |e|
    ensures |r| == |e| - 1
  {
    e[..k] + e[k + 1..]
  }

  lemma DroppedLacks(head: ListHead, e: seq<ListHead>, k: nat)
    requires Distinct([head] + e) && k < |e|
    ensures e[k] !in [head] + Dropped(e, k)
  {
    forall i | 0 <= i < |e| && i != k ensures e[i] != e[k] {
      assert ([head] + e)[i + 1] == e[i] && ([head] + e)[k + 1] == e[k];
    }
    assert ([head] + e)[0] != ([head] + e)[k + 1];
  }

  lemma DroppedWithin(head: ListHead, e: seq<ListHead>, k: nat)
    requires k < |e|
    ensures forall x :: x in [head] + Dropped(e, k) ==> x in [head] + e
  {
  }

  // The circle read from entry k.
  lemma FromEntry(head: ListHead, e: seq<ListHead>, k: nat)
    requires Circle([head] + e) && k < |e|
    ensures Circle([e[k]] + (e[k + 1..] + [head] + e[..k]))
    ensures e[k].next.To? && e[k].next.node in [head] + e && e[k].prev.To? && e[k].prev.node in [head] + e
  {
    assert ([head] + e[..k]) + e[k..] == [head] + e;
    Turn([head] + e[..k], e[k..]);
    ghost var s := [e[k]] + (e[k + 1..] + [head] + e[..k]);
    assert s == e[k..] + ([head] + e[..k]);
    assert Joint(s, 0) && Joint(s, |e|);
  }

  // The circle without entry k, read from the head.
  lemma FromHead(head: ListHead, e: seq<ListHead>, k: nat)
    requires k < |e| && Circle(e[k + 1..] + [head] + e[..k])
    ensures Circle([head] + Dropped(e, k))
  {
    assert e[k + 1..] + ([head] + e[..k]) == e[k + 1..] + [head] + e[..k];
    Turn(e[k + 1..], [head] + e[..k]);
    assert [head] + Dropped(e, k) == [head] + e[..k] + e[k + 1..];
  }

  // list_del poisons the entry it takes out.
  method ListDel(entry: ListHead, ghost head: ListHead, ghost e: seq<ListHead>, ghost k: nat)
    requires Circle([head] + e) && k < |e| && e[k] == entry
    modifies head, e
    ensures Circle([head] + Dropped(e, k)) && entry.next == Poison1 && entry.prev == Poison2
  {
    FromEntry(head, e, k);
    DelBetween(entry.prev.node, entry.next.node, entry, e[k + 1..] + [head] + e[..k]);
    FromHead(head, e, k);
    DroppedLacks(head, e, k);
    entry.next := Poison1;
    entry.prev := Poison2;
  }

  method ListDelInit(entry: ListHead, ghost head: ListHead, ghost e: seq<ListHead>, ghost k: nat)
    requires Circle([head] + e) && k < |e| && e[k] == entry
    modifies head, e
    ensures Circle([head] + Dropped(e, k)) && Circle([entry])
  {
    FromEntry(head, e, k);
    DelBetween(entry.prev.node, entry.next.node, entry, e[k + 1..] + [head] + e[..k]);
    FromHead(head, e, k);
    DroppedLacks(head, e, k);
    InitListHead(entry);
  }

  // list_replace: the new node stands where the old one stood, also where the
  // old one stood alone.
  method ListReplace(entry: ListHead, a: ListHead, ghost rest: seq<ListHead>)
    requires Circle([entry] + rest) && a !in [entry] + rest
    modifies a, entry, rest
    ensures Circle([a] + rest)
  {
    ghost var s := [entry] + rest;
    assert Joint(s, 0) && Joint(s, |rest|);
    a.next := entry.next;
    a.next.node.prev := To(a);
    a.prev := entry.prev;
    a.prev.node.next := To(a);
    assert Distinct([a] + rest) by {
      forall i, j | 0 <= i < j < |[a] + rest| ensures ([a] + rest)[i] != ([a] + rest)[j] {
        assert s[i] != s[j];
        assert rest[j - 1] in s;
      }
    }
    forall i | 0 <= i < |[a] + rest| ensures Joint([a] + rest, i) { assert old(Joint(s, i)); }
  }

  method ListReplaceInit(entry: ListHead, a: ListHead, ghost rest: seq<ListHead>)
    requires Circle([entry] + rest) && a !in [entry] + rest
    modifies a, entry, rest
    ensures Circle([a] + rest) && Circle([entry])
  {
    ListReplace(entry, a, rest);
    assert entry !in [a] + rest by {
      forall i | 0 <= i < |rest| ensures rest[i] != entry { assert ([entry] + rest)[0] != ([entry] + rest)[i + 1]; }
    }
    InitListHead(entry);
  }

  // list_move within one list, and from one list to another.
  method ListMove(entry: ListHead, head: ListHead, ghost from: ListHead, ghost e: seq<ListHead>, ghost k: nat,
                  ghost f: seq<ListHead>)
    requires Circle([from] + e) && k < |e| && e[k] == entry
    requires if from == head then f == e else Circle([head] + f) && Disjoint([head] + f, [from] + e)
    modifies head, from, e, f
    ensures from == head ==> Circle([head, entry] + Dropped(e, k))
    ensures from != head ==> Circle([from] + Dropped(e, k)) && Circle([head, entry] + f)
  {
    FromEntry(from, e, k);
    DelBetween(entry.prev.node, entry.next.node, entry, e[k + 1..] + [from] + e[..k]);
    FromHead(from, e, k);
    DroppedLacks(from, e, k);
    DroppedWithin(from, e, k);
    if from != head {
      forall x | x in [from] + Dropped(e, k) ensures x != entry && x != head && x !in f {
        assert x in [from] + e && x !in [head] + f;
      }
    }
    label Cut:
    ListAdd(entry, head, if from == head then Dropped(e, k) else f);
    if from != head { StaysCircle@Cut([from] + Dropped(e, k)); }
  }

  method ListMoveTail(entry: ListHead, head: ListHead, ghost from: ListHead, ghost e: seq<ListHead>, ghost k: nat,
                      ghost f: seq<ListHead>)
    requires Circle([from] + e) && k < |e| && e[k] == entry
    requires if from == head then f == e else Circle([head] + f) && Disjoint([head] + f, [from] + e)
    modifies head, from, e, f
    ensures from == head ==> Circle([head] + Dropped(e, k) + [entry])
    ensures from != head ==> Circle([from] + Dropped(e, k)) && Circle([head] + f + [entry])
  {
    FromEntry(from, e, k);
    DelBetween(entry.prev.node, entry.next.node, entry, e[k + 1..] + [from] + e[..k]);
    FromHead(from, e, k);
    DroppedLacks(from, e, k);
    DroppedWithin(from, e, k);
    if from != head {
      forall x | x in [from] + Dropped(e, k) ensures x != entry && x != head && x !in f {
        assert x in [from] + e && x !in [head] + f;
      }
    }
    label Cut:
    ListAddTail(entry, head, if from == head then Dropped(e, k) else f);
    if from != head { StaysCircle@Cut([from] + Dropped(e, k)); }
  }

  predicate ListIsLast(list: ListHead, head: ListHead)
    reads list
  {
    list.next == To(head)
  }

  predicate ListEmpty(head: ListHead)
    reads head
  {
    head.next == To(head)
  }

  predicate ListEmptyCareful(head: ListHead)
    reads head
  {
    var next := head.next;
    next == To(head) && next == head.prev
  }

  predicate ListIsSingular(head: ListHead)
    reads head
  {
    !ListEmpty(head) && head.next == head.prev
  }

  // The three tests look at one or two pointers and decide about the list.
  lemma TestsDecide(head: ListHead, e: seq<ListHead>, k: nat)
    requires Circle([head] + e)
    ensures ListEmpty(head) <==> e == []
    ensures ListEmptyCareful(head) <==> e == []
    ensures ListIsSingular(head) <==> |e| == 1
    ensures k < |e| ==> (ListIsLast(e[k], head) <==> k == |e| - 1)
  {
    var s := [head] + e;
    assert Joint(s, 0) && Joint(s, |e|);
    if e != [] { assert s[0] != s[1]; }
    if |e| > 1 { assert s[1] != s[|e|]; }
    if k < |e| {
      assert Joint(s, k + 1);
      if k + 1 < |e| { assert s[0] != s[k + 2]; }
    }
  }

  method ListRotateLeft(head: ListHead, ghost e: seq<ListHead>)
    requires Circle([head] + e)
    modifies head, e
    ensures Circle([head] + if e == [] then e else e[1..] + [e[0]])
  {
    TestsDecide(head, e, 0);
    if !ListEmpty(head) {
      assert Joint([head] + e, 0);
      var first := head.next.node;
      ListMoveTail(first, head, head, e, 0, e);
      assert [head] + Dropped(e, 0) + [first] == [head] + (e[1..] + [e[0]]);
    }
  }

  // __list_cut_position, for an entry on the list.
  method CutAt(list: ListHead, head: ListHead, entry: ListHead, ghost e: seq<ListHead>, ghost k: nat)
    requires Circle([head] + e) && k < |e| && e[k] == entry && list !in [head] + e
    modifies list, head, e
    ensures Circle([list] + e[..k + 1]) && Circle([head] + e[k + 1..])
  {
    ghost var s := [head] + e;
    assert Joint(s, k + 1) && Joint(s, 0);
    var newFirst := entry.next.node;
    list.next := head.next;
    list.next.node.prev := To(list);
    list.prev := To(entry);
    entry.next := To(list);
    head.next := To(newFirst);
    newFirst.prev := To(head);
    ghost var a, b := [list] + e[..k + 1], [head] + e[k + 1..];
    CutDistinct(list, head, e, k);
    forall i | 0 <= i < |a| ensures Joint(a, i) { assert old(Joint(s, i)); }
    forall i | 0 <= i < |b| ensures Joint(b, i) { assert old(Joint(s, if i == 0 then k + 1 else k + 1 + i)); }
  }

  lemma CutDistinct(list: ListHead, head: ListHead, e: seq<ListHead>, k: nat)
    requires Distinct([head] + e) && k < |e| && list !in [head] + e
    ensures Distinct([list] + e[..k + 1]) && Distinct([head] + e[k + 1..])
  {
    var s, a, b := [head] + e, [list] + e[..k + 1], [head] + e[k + 1..];
    forall i, j | 0 <= i < j < |a| ensures a[i] != a[j] {
      assert a[j] == s[j] && (i > 0 ==> a[i] == s[i]);
    }
    forall i, j | 0 <= i < j < |b| ensures b[i] != b[j] {
      assert b[j] == s[k + 1 + j] && b[i] == s[if i == 0 then 0 else k + 1 + i];
    }
  }

  // list_cut_position: the entries through `entry` become the list `list`. An
  // entry that is the head itself cuts nothing off; a list without entries, or
  // whose only entry is another one, is left alone and so is `list`.
  method ListCutPosition(list: ListHead, head: ListHead, entry: ListHead, ghost e: seq<ListHead>, ghost k: nat)
    requires Circle([head] + e) && list !in [head] + e
    requires entry == head || (k < |e| && entry == e[k]) || |e| <= 1
    modifies list, head, e
    ensures e != [] && k < |e| && entry == e[k] ==> Circle([list] + e[..k + 1]) && Circle([head] + e[k + 1..])
    ensures e != [] && entry == head ==> Circle([list]) && Circle([head] + e)
    ensures e == [] || entry !in [head] + e ==>
      Circle([head] + e) && list.next == old(list.next) && list.prev == old(list.prev)
  {
    TestsDecide(head, e, 0);
    assert Joint([head] + e, 0);
    if ListEmpty(head) { return; }
    if ListIsSingular(head) && head.next != To(entry) && head != entry {
      assert e == [e[0]];
      return;
    }
    if entry == head {
      assert k < |e| ==> ([head] + e)[0] != ([head] + e)[k + 1];
      InitListHead(list);
    } else {
      ghost var j := if k < |e| && entry == e[k] then k else 0;
      CutAt(list, head, entry, e, j);
    }
  }

  lemma DistinctJoin<T>(s: seq<T>, t: seq<T>)
    requires Distinct(s) && Distinct(t) && Disjoint(t, s)
    ensures Distinct(s + t)
  {
    forall i, j | 0 <= i < j < |s + t| ensures (s + t)[i] != (s + t)[j] {
      if i < |s| <= j { assert s[i] in s && t[j - |s|] in t; }
    }
  }

  // __list_splice: the entries of `list` go between prev and next.
  method SpliceBetween(list: ListHead, prev: ListHead, next: ListHead, ghost a: seq<ListHead>, ghost s: seq<ListHead>)
    requires Circle([list] + a) && a != [] && Circle(s) && s[0] == next && s[|s| - 1] == prev
    requires Disjoint([list] + a, s)
    modifies prev, next, a
    ensures Circle(s + a)
  {
    ghost var t := [list] + a;
    assert Joint(t, 0) && Joint(t, |a|);
    assert forall x :: x in a ==> x in t && x !in s;
    var first := list.next.node;
    var last := list.prev.node;
    first.prev := To(prev);
    prev.next := To(first);
    last.next := To(next);
    next.prev := To(last);
    assert Distinct(a) by {
      forall i, j | 0 <= i < j < |a| ensures a[i] != a[j] { assert t[i + 1] != t[j + 1]; }
    }
    DistinctJoin(s, a);
    forall i | 0 <= i < |s + a| ensures Joint(s + a, i) {
      if i < |s| {
        assert old(Joint(s, i)) && s[i] in s && After(s, i) in s;
        assert i + 1 < |s| ==> s[0] != s[i + 1];
      } else {
        var j := i - |s|;
        assert old(Joint(t, j + 1)) && a[j] in a;
        assert j + 1 < |a| ==> a[j + 1] in a && a[0] != a[j + 1];
      }
    }
  }

  method ListSplice(list: ListHead, head: ListHead, ghost a: seq<ListHead>, ghost e: seq<ListHead>)
    requires Circle([list] + a) && Circle([head] + e)
    requires Disjoint([list] + a, [head] + e)
    modifies head, e, a
    ensures Circle([head] + a + e)
  {
    TestsDecide(list, a, 0);
    if !ListEmpty(list) {
      assert Joint([head] + e, 0);
      Turn([head], e);
      SpliceBetween(list, head, head.next.node, a, e + [head]);
      assert e + [head] + a == e + ([head] + a);
      Turn(e, [head] + a);
    } else {
      assert [head] + a + e == [head] + e;
    }
  }

  method ListSpliceTail(list: ListHead, head: ListHead, ghost a: seq<ListHead>, ghost e: seq<ListHead>)
    requires Circle([list] + a) && Circle([head] + e)
    requires Disjoint([list] + a, [head] + e)
    modifies head, e, a
    ensures Circle([head] + e + a)
  {
    TestsDecide(list, a, 0);
    if !ListEmpty(list) {
      assert Joint([head] + e, |e|);
      SpliceBetween(list, head.prev.node, head, a, [head] + e);
    } else {
      assert [head] + e + a == [head] + e;
    }
  }

  method ListSpliceInit(list: ListHead, head: ListHead, ghost a: seq<ListHead>, ghost e: seq<ListHead>)
    requires Circle([list] + a) && Circle([head] + e)
    requires Disjoint([list] + a, [head] + e)
    modifies list, head, e, a
    ensures Circle([head] + a + e) && Circle([list])
  {
    TestsDecide(list, a, 0);
    if !ListEmpty(list) {
      assert list !in [head] + a + e by { assert list in [list] + a; ListNotIn(list, a); }
      ListSplice(list, head, a, e);
      InitListHead(list);
    } else {
      assert [head] + a + e == [head] + e && [list] + a == [list];
    }
  }

  lemma ListNotIn(list: ListHead, a: seq<ListHead>)
    requires Distinct([list] + a)
    ensures list !in a
  {
    forall i | 0 <= i < |a| ensures a[i] != list { assert ([list] + a)[0] != ([list] + a)[i + 1]; }
  }

  method ListSpliceTailInit(list: ListHead, head: ListHead, ghost a: seq<ListHead>, ghost e: seq<ListHead>)
    requires Circle([list] + a) && Circle([head] + e)
    requires Disjoint([list] + a, [head] + e)
    modifies list, head, e, a
    ensures Circle([head] + e + a) && Circle([list])
  {
    TestsDecide(list, a, 0);
    if !ListEmpty(list) {
      assert list !in [head] + e + a by { assert list in [list] + a; ListNotIn(list, a); }
      ListSpliceTail(list, head, a, e);
      InitListHead(list);
    } else {
      assert [head] + e + a == [head] + e && [list] + a == [list];
    }
  }

  // Cutting a list at one of its entries and splicing the cut part back in
  // front leaves every pointer of the list as it was.
  method CutThenSplice(list: ListHead, head: ListHead, entry: ListHead, ghost e: seq<ListHead>, ghost k: nat)
    requires Circle([head] + e) && k < |e| && entry == e[k] && list !in [head] + e
    modifies list, head, e
    ensures Circle([head] + e) && forall x :: x in [head] + e ==> x.next == old(x.next) && x.prev == old(x.prev)
  {
    ListCutPosition(list, head, entry, e, k);
    CutApart(list, head, e, k);
    ListSplice(list, head, e[..k + 1], e[k + 1..]);
    assert [head] + e[..k + 1] + e[k + 1..] == [head] + e;
    SamePointers([head] + e);
  }

  lemma CutApart(list: ListHead, head: ListHead, e: seq<ListHead>, k: nat)
    requires Distinct([head] + e) && k < |e| && list !in [head] + e
    ensures Disjoint([list] + e[..k + 1], [head] + e[k + 1..])
  {
    var s := [head] + e;
    forall i | 0 <= i <= k ensures e[i] !in [head] + e[k + 1..] {
      forall j | k < j < |e| ensures e[j] != e[i] { assert s[i + 1] != s[j + 1]; }
      assert s[0] != s[i + 1];
    }
  }

  // The circle determines both pointers of each of its nodes.
  twostate lemma SamePointers(s: seq<ListHead>)
    requires old(Circle(s)) && Circle(s)
    ensures forall x :: x in s ==> x.next == old(x.next) && x.prev == old(x.prev)
  {
    forall i | 0 <= i < |s| ensures s[i].next == old(s[i].next) && s[i].prev == old(s[i].prev) {
      assert Joint(s, i) && old(Joint(s, i));
      var j := if i == 0 then |s| - 1 else i - 1;
      assert Joint(s, j) && old(Joint(s, j));
    }
  }
}
