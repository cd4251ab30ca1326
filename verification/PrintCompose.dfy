// Composing printed entries in one buffer, with every write inside it.
module PrintCompose {
  import opened CString
  import opened JsonTree
  import opened JsonPrinter
  import S = PrintString

  lemma NulFreeJoin(a: string, b: string)
    requires NulFree(a) && NulFree(b)
    ensures NulFree(a + b)
  {
  }

  lemma {:induction false} PrintIsNulFree(v: Json, depth: nat, formatted: bool)
    requires Printable(v)
    ensures NulFree(Print(v, depth, formatted))
    decreases v
  {
    match v
    case String(text) => S.PrintTextIsNulFree(text);
    case Array(elements) => ElementsAreNulFree(elements, depth + 1, formatted);
    case Object(members) =>
      if members.Member? { MembersAreNulFree(members, depth + 1, formatted); }
    case _ =>
  }

  lemma {:induction false} ElementsAreNulFree(es: Elements, depth: nat, formatted: bool)
    requires PrintableElements(es)
    ensures NulFree(PrintElements(es, depth, formatted))
    decreases es
  {
    if es.Element? {
      PrintIsNulFree(es.value, depth, formatted);
      ElementsAreNulFree(es.rest, depth, formatted);
      var comma := if es.rest == NoElements then "" else Comma(formatted);
      NulFreeJoin(comma, PrintElements(es.rest, depth, formatted));
    }
  }

  lemma {:induction false} MembersAreNulFree(ms: Members, depth: nat, formatted: bool)
    requires PrintableMembers(ms) && depth > 0
    ensures NulFree(PrintMembers(ms, depth, formatted))
    decreases ms
  {
    if ms.Member? {
      S.PrintTextIsNulFree(ms.name);
      PrintIsNulFree(ms.value, depth, formatted);
      MembersAreNulFree(ms.rest, depth, formatted);
      var y := NewLine(formatted) + PrintMembers(ms.rest, depth, formatted);
      var z := (if ms.rest == NoMembers then "" else ",") + y;
      NulFreeJoin(Print(ms.value, depth, formatted), z);
      NulFreeJoin(Colon(formatted), Print(ms.value, depth, formatted) + z);
      NulFreeJoin(S.PrintText(ms.name), Colon(formatted) + (Print(ms.value, depth, formatted) + z));
    }
  }

  // The texts of the elements, in order.
  function Entries(es: Elements, depth: nat, formatted: bool): (ts: seq<string>)
    requires PrintableElements(es)
  {
    if es.NoElements? then [] else [Print(es.value, depth, formatted)] + Entries(es.rest, depth, formatted)
  }

  ghost predicate HoldAll(entries: seq<array<char>>, ts: seq<string>)
    reads entries
  {
    |entries| <= |ts| && forall k :: 0 <= k < |entries| ==> S.Holds(entries[k], ts[k])
  }

  lemma HoldMore(entries: seq<array<char>>, ts: seq<string>, ret: array<char>)
    requires HoldAll(entries, ts) && |entries| < |ts| && S.Holds(ret, ts[|entries|])
    ensures HoldAll(entries + [ret], ts)
  {
  }

  function Names(ms: Members): (ts: seq<string>)
    requires PrintableMembers(ms)
  {
    if ms.NoMembers? then [] else [S.PrintText(ms.name)] + Names(ms.rest)
  }

  function Values(ms: Members, depth: nat, formatted: bool): (ts: seq<string>)
    requires PrintableMembers(ms)
    ensures |ts| == |Names(ms)|
  {
    if ms.NoMembers? then [] else [Print(ms.value, depth, formatted)] + Values(ms.rest, depth, formatted)
  }

  // The arrays hold the names, or the values, of all the members.
  ghost predicate NamesHeld(names: seq<array<char>>, ms: Members)
    requires PrintableMembers(ms)
    reads names
  {
    |names| == |Names(ms)| && HoldAll(names, Names(ms))
  }

  ghost predicate ValuesHeld(entries: seq<array<char>>, ms: Members, depth: nat, formatted: bool)
    requires PrintableMembers(ms)
    reads entries
  {
    |entries| == |Values(ms, depth, formatted)| && HoldAll(entries, Values(ms, depth, formatted))
  }

  lemma NextTexts(ts: seq<string>, k: nat)
    requires k < |ts|
    ensures ts[k..][0] == ts[k] && ts[k..][1..] == ts[k + 1..]
  {
  }

  method WriteTabs(out: array<char>, p: nat, n: nat) returns (q: nat)
    requires p + n <= out.Length
    modifies out
    ensures q == p + n && out[..q] == old(out[..p]) + Tabs(n)
  {
    q := p;
    assert old(out[..p]) + Tabs(0) == old(out[..p]);
    while q < p + n
      invariant p <= q <= p + n && out[..q] == old(out[..p]) + Tabs(q - p)
    {
      assert Tabs(q - p) + "\t" == Tabs(q - p + 1);
      out[q] := '\t';
      q := q + 1;
    }
  }

  method PrintEmptyObject(depth: nat, formatted: bool) returns (out: array<char>)
    requires !(formatted && depth == 0)
    ensures fresh(out) && S.Holds(out, Print(Object(NoMembers), depth, formatted))
    ensures out.Length == Allocated(Object(NoMembers), depth, formatted)
  {
    out := new char[if formatted then depth + 3 else 3];
    var p := 1;
    out[0] := '{';
    assert out[..1] == "{";
    if formatted {
      out[1] := '\n';
      assert out[..2] == "{\n";
      p := WriteTabs(out, 2, depth - 1);
    }
    out[p] := '}';
    out[p + 1] := '\0';
    assert out[..p + 1] == Print(Object(NoMembers), depth, formatted);
    PrintIsNulFree(Object(NoMembers), depth, formatted);
  }

  // One entry of an array and what separates it from the next.
  method ComposeElement(out: array<char>, p: nat, entry: array<char>, depth: nat, formatted: bool, last: bool,
                        ghost es: Elements)
    returns (q: nat)
    requires PrintableElements(es) && es.Element? && (last <==> es.rest == NoElements)
    requires entry != out && S.Holds(entry, Print(es.value, depth, formatted))
    requires p + |PrintElements(es, depth, formatted)| < out.Length
    modifies out
    ensures p <= q && q + |PrintElements(es.rest, depth, formatted)| == p + |PrintElements(es, depth, formatted)|
    ensures out[..q] + PrintElements(es.rest, depth, formatted) == old(out[..p]) + PrintElements(es, depth, formatted)
  {
    ghost var a, y, tail := old(out[..p]), Print(es.value, depth, formatted), PrintElements(es.rest, depth, formatted);
    ghost var comma := if last then "" else Comma(formatted);
    q := S.Strcpy(out, p, entry, y);
    assert a + y + "" == a + y;
    if !last {
      out[q], q := ',', q + 1;
      if formatted { out[q], q := ' ', q + 1; }
    }
    assert out[..q] == a + y + comma;
    Regrouped(a, y, comma, tail);
  }

  lemma Regrouped(a: string, b: string, c: string, d: string)
    ensures a + (b + (c + d)) == a + b + c + d
  {
  }

  method ComposeArray(entries: seq<array<char>>, len: nat, depth: nat, formatted: bool, ghost es: Elements)
    returns (out: array<char>)
    requires PrintableElements(es) && es.Element? && depth > 0
    requires |entries| == |Entries(es, depth, formatted)| && HoldAll(entries, Entries(es, depth, formatted))
    requires len == 5 + ElementsCost(es, depth, formatted)
    ensures fresh(out) && S.Holds(out, Print(Array(es), depth - 1, formatted)) && out.Length == len
  {
    ghost var whole := Print(Array(es), depth - 1, formatted);
    ElementsFit(es, depth, formatted);
    PrintIsNulFree(Array(es), depth - 1, formatted);
    out := new char[len];
    out[0] := '[';
    assert out[..1] == "[";
    var p := ComposeEntries(out, 1, entries, depth, formatted, es, whole);
    CloseArray(out, p, whole);
  }

  method CloseArray(out: array<char>, p: nat, ghost whole: string)
    requires p + 1 == |whole| < out.Length && out[..p] + "]" == whole && NulFree(whole)
    modifies out
    ensures S.Holds(out, whole)
  {
    ghost var y := out[..p];
    out[p] := ']';
    out[p + 1] := '\0';
    assert out[..p + 1] == y + "]";
  }

  // The entries with the commas between them.
  method ComposeEntries(out: array<char>, start: nat, entries: seq<array<char>>, depth: nat, formatted: bool,
                        ghost es: Elements, ghost whole: string)
    returns (p: nat)
    requires PrintableElements(es) && out !in entries
    requires |entries| == |Entries(es, depth, formatted)| && HoldAll(entries, Entries(es, depth, formatted))
    requires start + |PrintElements(es, depth, formatted)| == |whole| < out.Length
    requires out[..start] + PrintElements(es, depth, formatted) == whole
    modifies out
    ensures p + 1 == |whole| && out[..p] + "]" == whole
  {
    ghost var ts, left := Entries(es, depth, formatted), es;
    var i := 0;
    p := start;
    while i < |entries|
      invariant i <= |entries| && PrintableElements(left) && Entries(left, depth, formatted) == ts[i..]
      invariant p + |PrintElements(left, depth, formatted)| == |whole|
      invariant out[..p] + PrintElements(left, depth, formatted) == whole
      invariant HoldAll(entries, ts)
    {
      NextTexts(ts, i);
      p := ComposeElement(out, p, entries[i], depth, formatted, i + 1 == |entries|, left);
      left, i := left.rest, i + 1;
    }
  }

  // The line of one member, up to and including its colon.
  method ComposeName(out: array<char>, p: nat, name: array<char>, depth: nat, formatted: bool, ghost y: string)
    returns (q: nat)
    requires name != out && S.Holds(name, y)
    requires p + |Indent(depth, formatted)| + |y| + |Colon(formatted)| < out.Length
    modifies out
    ensures q == p + |Indent(depth, formatted)| + |y| + |Colon(formatted)|
    ensures out[..q] == old(out[..p]) + (Indent(depth, formatted) + (y + Colon(formatted)))
  {
    ghost var a := old(out[..p]);
    q := p;
    assert a + "" == a;
    if formatted { q := WriteTabs(out, q, depth); }
    q := S.Strcpy(out, q, name, y);
    out[q], q := ':', q + 1;
    if formatted { out[q], q := '\t', q + 1; }
    assert out[..q] == a + Indent(depth, formatted) + y + Colon(formatted);
    Regrouped(a, Indent(depth, formatted), y, Colon(formatted));
  }

  // The text after a member's colon that belongs to its line.
  method ComposeValue(out: array<char>, p: nat, entry: array<char>, formatted: bool, last: bool, ghost y: string)
    returns (q: nat)
    requires entry != out && S.Holds(entry, y)
    requires p + |y| + 2 < out.Length
    modifies out
    ensures q == p + |y| + (if last then 0 else 1) + |NewLine(formatted)|
    ensures out[..q] == old(out[..p]) + (y + ((if last then "" else ",") + NewLine(formatted)))
  {
    ghost var a := old(out[..p]);
    q := S.Strcpy(out, p, entry, y);
    if !last { out[q], q := ',', q + 1; }
    if formatted { out[q], q := '\n', q + 1; }
    assert out[..q] == a + y + (if last then "" else ",") + NewLine(formatted);
  }

  lemma LineGlue(a: string, i: string, n: string, c: string, y: string, m: string, l: string, tail: string)
    ensures a + (i + (n + c)) + (y + (m + l)) + tail == a + (i + (n + (c + (y + (m + (l + tail))))))
  {
  }

  // One line of an object's text.
  method ComposeMember(out: array<char>, p: nat, name: array<char>, entry: array<char>, depth: nat, formatted: bool,
                       last: bool, ghost ms: Members)
    returns (q: nat)
    requires PrintableMembers(ms) && ms.Member? && depth > 0 && (last <==> ms.rest == NoMembers)
    requires name != out && entry != out
    requires S.Holds(name, S.PrintText(ms.name)) && S.Holds(entry, Print(ms.value, depth, formatted))
    requires p + |PrintMembers(ms, depth, formatted)| + 1 < out.Length
    modifies out
    ensures p < q && q + |PrintMembers(ms.rest, depth, formatted)| == p + |PrintMembers(ms, depth, formatted)|
    ensures out[..q] + PrintMembers(ms.rest, depth, formatted) == old(out[..p]) + PrintMembers(ms, depth, formatted)
  {
    ghost var n, y := S.PrintText(ms.name), Print(ms.value, depth, formatted);
    q := ComposeName(out, p, name, depth, formatted, n);
    q := ComposeValue(out, q, entry, formatted, last, y);
    LineGlue(old(out[..p]), Indent(depth, formatted), n, Colon(formatted), y, if last then "" else ",",
             NewLine(formatted), PrintMembers(ms.rest, depth, formatted));
  }

  method ComposeObject(names: seq<array<char>>, entries: seq<array<char>>, len: nat, depth: nat, formatted: bool,
                       ghost ms: Members)
    returns (out: array<char>)
    requires PrintableMembers(ms) && ms.Member? && depth > 0
    requires NamesHeld(names, ms) && ValuesHeld(entries, ms, depth, formatted)
    requires len == ObjectCost(ms, depth, formatted)
    ensures fresh(out) && S.Holds(out, Print(Object(ms), depth - 1, formatted)) && out.Length == len
  {
    ghost var whole := Print(Object(ms), depth - 1, formatted);
    ObjectText(ms, depth, formatted);
    var p;
    out, p := OpenObject(len, formatted);
    p := ComposeLines(out, p, names, entries, depth, formatted, ms, whole);
    CloseObject(out, p, depth - 1, formatted, whole);
  }

  lemma ObjectText(ms: Members, depth: nat, formatted: bool)
    requires PrintableMembers(ms) && ms.Member? && depth > 0
    ensures var whole := Print(Object(ms), depth - 1, formatted);
            && NulFree(whole)
            && whole == ("{" + NewLine(formatted)) + PrintMembers(ms, depth, formatted)
            && |whole| + 1 < ObjectCost(ms, depth, formatted)
  {
    MembersFit(ms, depth, formatted);
    PrintIsNulFree(Object(ms), depth - 1, formatted);
    var y := PrintMembers(ms, depth, formatted);
    assert "{" + (NewLine(formatted) + y) == ("{" + NewLine(formatted)) + y;
  }

  method OpenObject(len: nat, formatted: bool) returns (out: array<char>, p: nat)
    requires len > 2
    ensures fresh(out) && out.Length == len
    ensures p == 1 + |NewLine(formatted)| && out[..p] == "{" + NewLine(formatted)
  {
    out, p := new char[len], 1;
    out[0] := '{';
    if formatted { out[p], p := '\n', p + 1; }
  }

  method CloseObject(out: array<char>, p: nat, depth: nat, formatted: bool, ghost whole: string)
    requires p + |Indent(depth, formatted)| + 1 == |whole| < out.Length && NulFree(whole)
    requires out[..p] + (Indent(depth, formatted) + "}") == whole
    modifies out
    ensures S.Holds(out, whole)
  {
    var q := p;
    if formatted { q := WriteTabs(out, p, depth); }
    ghost var y := out[..q];
    assert y == old(out[..p]) + Indent(depth, formatted);
    out[q] := '}';
    out[q + 1] := '\0';
    assert out[..q + 1] == y + "}";
    assert y + "}" == old(out[..p]) + (Indent(depth, formatted) + "}");
  }

  method ComposeLines(out: array<char>, start: nat, names: seq<array<char>>, entries: seq<array<char>>, depth: nat,
                      formatted: bool, ghost ms: Members, ghost whole: string)
    returns (p: nat)
    requires PrintableMembers(ms) && depth > 0 && out !in names && out !in entries
    requires NamesHeld(names, ms) && ValuesHeld(entries, ms, depth, formatted)
    requires start + |PrintMembers(ms, depth, formatted)| == |whole| < out.Length - 1
    requires out[..start] + PrintMembers(ms, depth, formatted) == whole
    modifies out
    ensures p + |Indent(depth - 1, formatted)| + 1 == |whole|
    ensures out[..p] + (Indent(depth - 1, formatted) + "}") == whole
  {
    ghost var ns, ts, left := Names(ms), Values(ms, depth, formatted), ms;
    p := start;
    var i := 0;
    while i < |names|
      invariant i <= |names| && PrintableMembers(left)
      invariant Names(left) == ns[i..] && Values(left, depth, formatted) == ts[i..]
      invariant p + |PrintMembers(left, depth, formatted)| == |whole|
      invariant out[..p] + PrintMembers(left, depth, formatted) == whole
      invariant HoldAll(names, ns) && HoldAll(entries, ts)
    {
      NextTexts(ns, i);
      NextTexts(ts, i);
      p := ComposeMember(out, p, names[i], entries[i], depth, formatted, i + 1 == |names|, left);
      left, i := left.rest, i + 1;
    }
  }
}
