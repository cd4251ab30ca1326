// How often an element stands in a sequence, and removing one occurrence, as
// unlinking a node from a list does.
module Sequences {
  function Count<T(==)>(s: seq<T>, x: T): nat {
    if s == [] then 0 else (if s[0] == x then 1 else 0) + Count(s[1..], x)
  }

  function Without<T(==)>(s: seq<T>, x: T): (r: seq<T>) {
    if s == [] then [] else if s[0] == x then s[1..] else [s[0]] + Without(s[1..], x)
  }

  lemma CountPush<T>(s: seq<T>, y: T, x: T)
    ensures Count([y] + s, x) == Count(s, x) + (if y == x then 1 else 0)
  {
    assert ([y] + s)[1..] == s;
  }

  lemma {:induction false} CountAppend<T>(s: seq<T>, y: T, x: T)
    ensures Count(s + [y], x) == Count(s, x) + (if y == x then 1 else 0)
    decreases |s|
  {
    if s == [] {
      assert s + [y] == [y];
    } else {
      assert (s + [y])[1..] == s[1..] + [y];
      CountAppend(s[1..], y, x);
    }
  }

  lemma {:induction false} CountWithout<T>(s: seq<T>, y: T, x: T)
    ensures Count(Without(s, y), x) == Count(s, x) - (if y == x && Count(s, y) > 0 then 1 else 0)
    decreases |s|
  {
    if s != [] && s[0] != y {
      CountWithout(s[1..], y, x);
      CountPush(Without(s[1..], y), s[0], x);
    }
  }

  lemma {:induction false} CountIn<T>(s: seq<T>, x: T)
    ensures Count(s, x) > 0 <==> x in s
    decreases |s|
  {
    if s != [] { CountIn(s[1..], x); }
  }
}
