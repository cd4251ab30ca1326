// Oracle connect descriptors, such as (DESCRIPTION=(CONNECT_DATA=(SID=x))), and
// the one-pass rewriting of their text to JSON.
module Descriptor {
  import opened CString
  import S = PrintString

  // A non-empty list of nodes; a value is an atom or a nested list.
  datatype Nodes = Last(name: string, value: Value) | More(name: string, value: Value, rest: Nodes)
  datatype Value = Atom(text: string) | Nested(nodes: Nodes)

  // The text has no char that means something to the scan.
  predicate Inert(s: string) {
    forall k :: 0 <= k < |s| ==> s[k] != '(' && s[k] != ')' && s[k] != '=' && s[k] != '\0'
  }

  // Names and atoms are such texts, so the parentheses are those of the tree.
  predicate Legible(ns: Nodes) {
    Inert(ns.name) && LegibleValue(ns.value) && (ns.More? ==> Legible(ns.rest))
  }

  predicate LegibleValue(v: Value) {
    match v
    case Atom(text) => Inert(text)
    case Nested(nodes) => Legible(nodes)
  }

  function Render(ns: Nodes): (s: string)
    ensures |s| >= 3
    decreases ns, 1
  {
    RenderNode(ns) + (if ns.More? then Render(ns.rest) else "")
  }

  function RenderNode(ns: Nodes): string
    decreases ns, 0
  {
    "(" + (ns.name + ("=" + (RenderValue(ns.value) + ")")))
  }

  function RenderValue(v: Value): string {
    match v
    case Atom(text) => text
    case Nested(nodes) => Render(nodes)
  }

  // The JSON text of a list, node by node: nested objects and strings in order.
  function Json(ns: Nodes): string
    decreases ns, 1
  {
    "{" + JsonFields(ns)
  }

  function JsonFields(ns: Nodes): string
    decreases ns, 0
  {
    "\"" + (ns.name + ("\":" + (JsonValue(ns.value) + (if ns.More? then "," + JsonFields(ns.rest) else "}"))))
  }

  function JsonValue(v: Value): string {
    match v
    case Atom(text) => "\"" + (text + "\"")
    case Nested(nodes) => Json(nodes)
  }

  // What the switch appends for a char, given its two neighbours.
  function Piece(before: char, c: char, after: char): string {
    match c
    case '(' => if before == ')' then "" else "{\""
    case '=' => if after == '(' then "\":" else "\":\""
    case ')' =>
      if after == '(' then (if before == ')' then ",\"" else "\",\"")
      else if before == ')' then "}" else "\"}"
    case _ => if c == '\0' then "" else [c]
  }

  function Before(s: string, k: nat): char
    requires k <= |s|
  {
    if k == 0 then '\0' else s[k - 1]
  }

  function PieceAt(s: string, k: nat): string
    requires k < |s|
  {
    Piece(Before(s, k), s[k], Peek(s, k + 1))
  }

  // The pieces of the chars from i up to j.
  function Emit(s: string, i: nat, j: nat): string
    requires i <= j <= |s|
    decreases j - i
  {
    if i == j then "" else PieceAt(s, i) + Emit(s, i + 1, j)
  }

  lemma {:induction false} EmitSplit(s: string, i: nat, j: nat, k: nat)
    requires i <= j <= k <= |s|
    ensures Emit(s, i, k) == Emit(s, i, j) + Emit(s, j, k)
    decreases j - i
  {
    if i < j {
      EmitSplit(s, i + 1, j, k);
      var x := EmitFirst(s, i, k, Emit(s, i + 1, k));
      var y := EmitFirst(s, i, j, Emit(s, i + 1, j));
      Regroup(PieceAt(s, i), Emit(s, i + 1, j), Emit(s, j, k));
    } else {
      assert "" + Emit(s, j, k) == Emit(s, j, k);
    }
  }

  lemma Regroup(a: string, b: string, c: string)
    ensures a + (b + c) == (a + b) + c
  {
  }

  lemma EmitFirst(s: string, i: nat, j: nat, rest: string) returns (x: string)
    requires i < j <= |s| && rest == Emit(s, i + 1, j)
    ensures x == Emit(s, i, j) && x == PieceAt(s, i) + rest
  {
    x := Emit(s, i, j);
  }

  // Any text without the signs and NUL is copied as it stands, quotes, backslashes
  // and control characters included, whatever is around it.
  lemma {:induction false} TextIsCopied(s: string, i: nat, y: string)
    requires Occurs(s, i, y) && Inert(y)
    ensures Emit(s, i, i + |y|) == y
    decreases |y|
  {
    if y != "" {
      OccursAt(s, i, y, 0);
      assert y == y[..1] + y[1..];
      OccursSplit(s, i, y[..1], y[1..]);
      TextIsCopied(s, i + 1, y[1..]);
      CharIsCopied(s, i);
    }
  }

  lemma CharIsCopied(s: string, i: nat)
    requires i < |s| && s[i] != '(' && s[i] != ')' && s[i] != '=' && s[i] != '\0'
    ensures PieceAt(s, i) == [s[i]]
  {
  }

  // What the scan has written of a node when it stands behind the quote that
  // opens its name.
  function Opened(ns: Nodes): string {
    ns.name + ("\":" + (JsonValue(ns.value) + (if ns.More? then ",\"" + Opened(ns.rest) else "}")))
  }

  lemma {:induction false} OpenedIsJson(ns: Nodes)
    ensures JsonFields(ns) == "\"" + Opened(ns)
    decreases ns
  {
    if ns.More? {
      OpenedIsJson(ns.rest);
      assert "," + ("\"" + Opened(ns.rest)) == ",\"" + Opened(ns.rest);
    }
  }

  // A node at i: its name ends at e, its value at c, and the node at c + 1.
  lemma NodeParts(s: string, i: nat, name: string, value: string, rest: string, e: nat, c: nat)
    requires Occurs(s, i, ("(" + (name + ("=" + (value + ")")))) + rest)
    requires e == i + 1 + |name| && c == e + 1 + |value|
    ensures c < |s| && s[i] == '(' && s[e] == '=' && s[c] == ')'
    ensures Occurs(s, i + 1, name) && Occurs(s, e + 1, value) && Occurs(s, c + 1, rest)
  {
    OccursSplit(s, i, "(" + (name + ("=" + (value + ")"))), rest);
    OccursSplit(s, i, "(", name + ("=" + (value + ")")));
    OccursAt(s, i, "(", 0);
    OccursSplit(s, i + 1, name, "=" + (value + ")"));
    ValueParts(s, e, value, c);
  }

  lemma ValueParts(s: string, e: nat, value: string, c: nat)
    requires Occurs(s, e, "=" + (value + ")")) && c == e + 1 + |value|
    ensures c < |s| && s[e] == '=' && s[c] == ')' && Occurs(s, e + 1, value)
  {
    OccursSplit(s, e, "=", value + ")");
    OccursAt(s, e, "=", 0);
    OccursSplit(s, e + 1, value, ")");
    OccursAt(s, c, ")", 0);
  }

  lemma RenderStarts(ns: Nodes)
    ensures Render(ns) != "" && Render(ns)[0] == '(' && Render(ns)[|Render(ns)| - 1] == ')'
  {
    if ns.More? { RenderStarts(ns.rest); }
  }

  // What the scan writes for a node's closing parenthesis.
  function Ending(atom: bool, more: bool): string {
    (if atom then "\"" else "") + (if more then ",\"" else "}")
  }

  lemma EndPiece(s: string, c: nat, atom: bool, more: bool)
    requires 0 < c < |s| && s[c] == ')'
    requires (atom <==> s[c - 1] != ')') && (more <==> Peek(s, c + 1) == '(')
    ensures PieceAt(s, c) == Ending(atom, more)
  {
  }

  lemma AtomEnds(s: string, e: nat, text: string, c: nat)
    requires Inert(text) && Occurs(s, e + 1, text) && c == e + 1 + |text|
    requires s[e] == '=' && c < |s| && s[c] == ')'
    ensures s[c - 1] != ')' && s[e + 1] != '('
  {
    if text != "" {
      OccursAt(s, e + 1, text, 0);
      OccursAt(s, e + 1, text, |text| - 1);
    }
  }

  lemma AtomScanned(s: string, e: nat, text: string, c: nat)
    requires Inert(text) && Occurs(s, e + 1, text) && c == e + 1 + |text|
    requires s[e] == '=' && c < |s| && s[c] == ')'
    ensures Emit(s, e, c) + "\"" == "\":" + JsonValue(Atom(text))
    ensures s[c - 1] != ')'
  {
    TextIsCopied(s, e + 1, text);
    AtomEnds(s, e, text, c);
    assert PieceAt(s, e) == "\":\"";
    assert "\":\"" + text + "\"" == "\":" + ("\"" + (text + "\""));
  }

  lemma OpensNested(ns: Nodes)
    ensures "{\"" + Opened(ns) == Json(ns)
  {
    OpenedIsJson(ns);
    assert "{" + ("\"" + Opened(ns)) == "{\"" + Opened(ns);
  }

  lemma {:induction false} NestedScanned(s: string, e: nat, ns: Nodes, c: nat)
    requires Legible(ns) && Occurs(s, e + 1, Render(ns)) && c == e + 1 + |Render(ns)|
    requires s[e] == '=' && c < |s| && s[c] == ')'
    ensures Emit(s, e, c) + "" == "\":" + JsonValue(Nested(ns))
    ensures s[c - 1] == ')'
    decreases ns, 2
  {
    NestedEnds(s, e, ns, c);
    NodesScanned(s, e + 1, ns, c);
    OpensNested(ns);
    var y := Emit(s, e + 1, c);
    assert Emit(s, e, c) == "\":" + y;
    assert ("\":" + y) + "" == "\":" + y;
  }

  lemma NestedEnds(s: string, e: nat, ns: Nodes, c: nat)
    requires Occurs(s, e + 1, Render(ns)) && c == e + 1 + |Render(ns)|
    requires s[e] == '=' && c < |s|
    ensures e + 1 < c && s[c - 1] == ')' && PieceAt(s, e) == "\":"
  {
    RenderStarts(ns);
    OccursAt(s, e + 1, Render(ns), 0);
    OccursAt(s, e + 1, Render(ns), |Render(ns)| - 1);
  }

  // The scan over a rendered list equals the recursive translation: the first
  // parenthesis opens the object unless a sibling stands before it.
  lemma {:induction false} NodesScanned(s: string, i: nat, ns: Nodes, j: nat)
    requires Legible(ns) && Occurs(s, i, Render(ns)) && j == i + |Render(ns)|
    requires Peek(s, j) != '('
    ensures Emit(s, i, j) == (if Before(s, i) == ')' then "" else "{\"") + Opened(ns)
    decreases ns, 1
  {
    var e := i + 1 + |ns.name|;
    var c := e + 1 + |RenderValue(ns.value)|;
    RenderParts(s, i, ns, e, c, j);
    ValueScanned(s, e, ns.value, c);
    TailScanned(s, c, ns, j);
    NodeScanned(s, i, ns, e, c, j);
  }

  lemma {:induction false} ValueScanned(s: string, e: nat, v: Value, c: nat)
    requires LegibleValue(v) && Occurs(s, e + 1, RenderValue(v)) && c == e + 1 + |RenderValue(v)|
    requires s[e] == '=' && c < |s| && s[c] == ')'
    ensures Emit(s, e, c) + (if v.Atom? then "\"" else "") == "\":" + JsonValue(v)
    ensures v.Atom? <==> s[c - 1] != ')'
    decreases v, 3
  {
    match v
    case Atom(text) => AtomScanned(s, e, text, c);
    case Nested(nodes) => NestedScanned(s, e, nodes, c);
  }

  lemma RenderParts(s: string, i: nat, ns: Nodes, e: nat, c: nat, j: nat)
    requires Occurs(s, i, Render(ns)) && j == i + |Render(ns)|
    requires e == i + 1 + |ns.name| && c == e + 1 + |RenderValue(ns.value)|
    ensures c < |s| && s[i] == '(' && s[e] == '=' && s[c] == ')'
    ensures Occurs(s, i + 1, ns.name) && Occurs(s, e + 1, RenderValue(ns.value))
    ensures if ns.More? then Occurs(s, c + 1, Render(ns.rest)) && j == c + 1 + |Render(ns.rest)| else j == c + 1
  {
    NodeParts(s, i, ns.name, RenderValue(ns.value), if ns.More? then Render(ns.rest) else "", e, c);
  }

  // The pieces of a node put together.
  lemma NodeScanned(s: string, i: nat, ns: Nodes, e: nat, c: nat, j: nat)
    requires i < |s| && s[i] == '(' && Inert(ns.name) && Occurs(s, i + 1, ns.name) && e == i + 1 + |ns.name|
    requires e <= c <= j <= |s|
    requires Emit(s, e, c) + Quote(ns) == "\":" + JsonValue(ns.value)
    requires Emit(s, c, j) == Quote(ns) + Continued(ns)
    ensures Emit(s, i, j) == (if Before(s, i) == ')' then "" else "{\"") + Opened(ns)
  {
    var mid, tail := Emit(s, e, c), Emit(s, c, j);
    var x := NodeEmits(s, i, ns.name, e, c, j, mid, tail);
    OpenedParts(ns);
    Glue(PieceAt(s, i), ns.name, mid, tail, Quote(ns), JsonValue(ns.value), Continued(ns));
  }

  // A parenthesis, the name, and what is written from e to c and from c to j.
  lemma NodeEmits(s: string, i: nat, name: string, e: nat, c: nat, j: nat, mid: string, tail: string)
    returns (x: string)
    requires i < |s| && Inert(name) && Occurs(s, i + 1, name) && e == i + 1 + |name|
    requires e <= c <= j <= |s| && mid == Emit(s, e, c) && tail == Emit(s, c, j)
    ensures x == Emit(s, i, j) && x == PieceAt(s, i) + ((name + mid) + tail)
  {
    x := Emit(s, i, j);
    TextIsCopied(s, i + 1, name);
    EmitSplit(s, i + 1, e, c);
    EmitSplit(s, i + 1, c, j);
  }

  function Quote(ns: Nodes): string { if ns.value.Atom? then "\"" else "" }
  function Continued(ns: Nodes): string { if ns.More? then ",\"" + Opened(ns.rest) else "}" }

  lemma OpenedParts(ns: Nodes)
    ensures Opened(ns) == ns.name + ("\":" + (JsonValue(ns.value) + Continued(ns)))
  {
  }

  lemma Glue(first: string, name: string, mid: string, tail: string, quote: string, value: string, rest: string)
    requires mid + quote == "\":" + value && tail == quote + rest
    ensures first + ((name + mid) + tail) == first + (name + ("\":" + (value + rest)))
  {
    assert (name + mid) + tail == name + ((mid + quote) + rest);
    assert ("\":" + value) + rest == "\":" + (value + rest);
  }

  lemma TailGlue(quote: string, rest: string)
    ensures (quote + ",\"") + ("" + rest) == quote + (",\"" + rest)
  {
  }

  // The closing parenthesis of a node and the nodes behind it.
  lemma {:induction false} TailScanned(s: string, c: nat, ns: Nodes, j: nat)
    requires Legible(ns) && 0 < c < |s| && s[c] == ')'
    requires ns.value.Atom? <==> s[c - 1] != ')'
    requires if ns.More? then Occurs(s, c + 1, Render(ns.rest)) && j == c + 1 + |Render(ns.rest)| else j == c + 1
    requires Peek(s, j) != '('
    ensures Emit(s, c, j) == Quote(ns) + Continued(ns)
    decreases ns, 0
  {
    if ns.More? {
      RenderStarts(ns.rest);
      OccursAt(s, c + 1, Render(ns.rest), 0);
      NodesScanned(s, c + 1, ns.rest, j);
      EndPiece(s, c, ns.value.Atom?, true);
      var x := EmitFirst(s, c, j, Emit(s, c + 1, j));
      TailGlue(Quote(ns), Opened(ns.rest));
    } else {
      EndPiece(s, c, ns.value.Atom?, false);
      assert PieceAt(s, c) + "" == PieceAt(s, c);
    }
  }

  // The text left in the output buffer for the first n chars of the input.
  // The last char is outside the loop and must be a closing parenthesis.
  function Scanned(b: string, n: nat): string
    requires 1 <= n <= |b| && 2 <= |b|
  {
    if b[0] != '(' then ""
    else
      var last := if n < 2 then 1 else n - 1;
      "{\"" + (Emit(b, 1, last) + Closing(b, last))
  }

  // What is written for the last char.
  function Closing(b: string, last: nat): string
    requires 0 < last < |b|
  {
    if b[last] != ')' then "" else if b[last - 1] == ')' then "}" else "\"}"
  }

  // On a rendered descriptor the scan is the recursive translation.
  lemma ScanIsJson(ns: Nodes)
    requires Legible(ns)
    ensures Scanned(Render(ns), |Render(ns)|) == Json(ns)
  {
    var s := Render(ns);
    RenderStarts(ns);
    OpensNested(ns);
    assert Occurs(s, 0, Render(ns));
    NodesScanned(s, 0, ns, |s|);
    ScanIsEmit(s);
  }

  // The first and last chars, handled outside the loop, fit the same rules.
  lemma ScanIsEmit(s: string)
    requires |s| >= 3 && s[0] == '(' && s[|s| - 1] == ')'
    ensures Scanned(s, |s|) == Emit(s, 0, |s|)
  {
    var last := |s| - 1;
    EmitSplit(s, 1, last, |s|);
    EndPiece(s, last, s[last - 1] != ')', false);
    var end := PieceAt(s, last);
    assert Emit(s, last, |s|) == end + "" == end;
    assert PieceAt(s, 0) == "{\"";
  }

  // Nodes with an atom, nodes with a nested list, and chars in names and atoms.
  function Leaves(ns: Nodes): nat {
    (match ns.value case Atom(_) => 1 case Nested(nodes) => Leaves(nodes)) +
    (if ns.More? then Leaves(ns.rest) else 0)
  }

  function Inner(ns: Nodes): nat {
    (match ns.value case Atom(_) => 0 case Nested(nodes) => 1 + Inner(nodes)) +
    (if ns.More? then Inner(ns.rest) else 0)
  }

  function Chars(ns: Nodes): nat {
    |ns.name| + (match ns.value case Atom(text) => |text| case Nested(nodes) => Chars(nodes)) +
    (if ns.More? then Chars(ns.rest) else 0)
  }

  lemma {:induction false} RenderLength(ns: Nodes)
    ensures |Render(ns)| == Chars(ns) + 3 * Leaves(ns) + 3 * Inner(ns)
    decreases ns
  {
    if ns.value.Nested? { RenderLength(ns.value.nodes); }
    assert |RenderValue(ns.value)| ==
           match ns.value case Atom(text) => |text| case Nested(nodes) => |Render(nodes)|;
    assert |RenderNode(ns)| == |ns.name| + |RenderValue(ns.value)| + 3;
    if ns.More? { RenderLength(ns.rest); }
  }

  lemma {:induction false} JsonLength(ns: Nodes)
    ensures |JsonFields(ns)| == Chars(ns) + 6 * Leaves(ns) + 5 * Inner(ns)
    decreases ns
  {
    if ns.value.Nested? { JsonLength(ns.value.nodes); }
    assert |JsonValue(ns.value)| ==
           match ns.value case Atom(text) => |text| + 2 case Nested(nodes) => |JsonFields(nodes)| + 1;
    if ns.More? { JsonLength(ns.rest); }
  }

  // The caller allots twice the input. That holds the output and its NUL for
  // every descriptor with at least two chars or inner nodes, and is exact for two.
  lemma TwiceTheInput(ns: Nodes)
    ensures |Json(ns)| + 1 <= 2 * |Render(ns)| <==> Chars(ns) + Inner(ns) >= 2
    ensures |Json(ns)| + 1 == 2 * |Render(ns)| <==> Chars(ns) + Inner(ns) == 2
  {
    RenderLength(ns);
    JsonLength(ns);
  }

  predicate NonEmptyWords(ns: Nodes) {
    ns.name != "" && (ns.value.Atom? ==> ns.value.text != "") &&
    (ns.value.Nested? ==> NonEmptyWords(ns.value.nodes)) && (ns.More? ==> NonEmptyWords(ns.rest))
  }

  // With names and atoms that are not empty it always holds, and only a single
  // leaf of one-char name and atom, as in (A=1), uses the buffer up.
  lemma {:induction false} WordsFit(ns: Nodes)
    requires NonEmptyWords(ns)
    ensures Chars(ns) + Inner(ns) >= 2
    ensures Chars(ns) + Inner(ns) == 2 <==>
              ns.Last? && |ns.name| == 1 && ns.value.Atom? && |ns.value.text| == 1
    decreases ns
  {
    if ns.value.Nested? { WordsFit(ns.value.nodes); }
    if ns.More? { WordsFit(ns.rest); }
  }

  lemma DescriptorFits(ns: Nodes)
    requires NonEmptyWords(ns)
    ensures |Json(ns)| + 1 <= 2 * |Render(ns)|
    ensures |Json(ns)| + 1 == 2 * |Render(ns)| <==>
              ns.Last? && |ns.name| == 1 && ns.value.Atom? && |ns.value.text| == 1
  {
    WordsFit(ns);
    TwiceTheInput(ns);
  }

  // What a char of the text writes beyond two bytes, as its neighbours decide.
  function Surplus(before: char, c: char, after: char): int {
    match c
    case '(' => if before == ')' then -2 else 0
    case '=' => if after == '(' then 0 else 1
    case ')' => if after == '(' then (if before == ')' then 0 else 1) else if before == ')' then -1 else 0
    case _ => if c == '\0' then -2 else -1
  }

  function SurplusSum(b: string, i: nat, j: nat): int
    requires i <= j <= |b|
    decreases j - i
  {
    if i == j then 0 else Surplus(Before(b, i), b[i], Peek(b, i + 1)) + SurplusSum(b, i + 1, j)
  }

  // What the last char adds.
  function EndCost(b: string, last: nat): nat
    requires 0 < last < |b|
  {
    if b[last] != ')' then 0 else if b[last - 1] == ')' then 1 else 2
  }

  // A text fits twice its length: it is refused at once, or its inner chars
  // make up for the brace and the NUL.
  predicate Fits(b: string, n: nat)
    requires 1 <= n <= |b| && 2 <= |b|
  {
    b[0] != '(' || (n >= 2 && SurplusSum(b, 1, n - 1) + EndCost(b, n - 1) <= 1)
  }

  lemma {:induction false} EmitLength(b: string, i: nat, j: nat)
    requires i <= j <= |b|
    ensures |Emit(b, i, j)| == 2 * (j - i) + SurplusSum(b, i, j)
    decreases j - i
  {
    if i < j {
      EmitLength(b, i + 1, j);
      PieceLength(Before(b, i), b[i], Peek(b, i + 1));
      EmitStep(b, i, j);
    }
  }

  lemma EmitStep(b: string, i: nat, j: nat)
    requires i < j <= |b|
    ensures |Emit(b, i, j)| == |Piece(Before(b, i), b[i], Peek(b, i + 1))| + |Emit(b, i + 1, j)|
  {
  }

  lemma PieceLength(before: char, c: char, after: char)
    ensures |Piece(before, c, after)| == 2 + Surplus(before, c, after)
  {
  }

  // For any text whatever: output and NUL fit twice its length exactly under
  // that condition on its chars.
  lemma TextFits(b: string, n: nat)
    requires 1 <= n <= |b| && 2 <= |b|
    ensures |Scanned(b, n)| + 1 <= 2 * n <==> Fits(b, n)
  {
    if n >= 2 { EmitLength(b, 1, n - 1); }
  }

  // So off the grammar the buffer can overflow, as the guard in the loop
  // compares a pointer that never moves: each of these signs has a surplus.
  lemma SignsOverflow()
    ensures !Fits("(=====)", 7) && |Scanned("(=====)", 7)| + 1 > 2 * 7
  {
    var b := "(=====)";
    assert SurplusSum(b, 5, 6) == 1 + SurplusSum(b, 6, 6);
    assert SurplusSum(b, 3, 6) == 3;
    assert SurplusSum(b, 1, 6) == 5;
    TextFits(b, 7);
  }

  // `strcat`: find the NUL, then copy.
  method Strcat(out: array<char>, y: string, ghost text: string)
    requires S.Holds(out, text) && NulFree(y) && |text| + |y| < out.Length
    modifies out
    ensures S.Holds(out, text + y)
  {
    var p := S.Strlen(out, text);
    var k := 0;
    while k < |y|
      invariant k <= |y| && out[..p + k] == text + y[..k]
    {
      out[p + k] := y[k];
      k := k + 1;
    }
    out[p + k] := '\0';
    assert y[..|y|] == y;
    assert out[..|text + y|] == text + y;
  }

  datatype Code = Done(outlen: nat) | BadFormat

  // Index of the char that must close the text.
  function LastIndex(n: nat): (last: nat)
    requires n >= 1
    ensures last >= 1 && (n >= 2 ==> last == n - 1)
  {
    if n < 2 then 1 else n - 1
  }

  // parse_connect_data_to_json on a text that fits the buffer of twice its
  // length; any other text would write past its end. The bytes after the first
  // n are whatever the packet holds there.
  method ParseConnectData(b: string, n: nat, out: array<char>) returns (code: Code)
    requires 1 <= n <= |b| && 2 <= |b| && out.Length == 2 * n
    requires Fits(b, n)
    modifies out
    ensures S.Holds(out, Scanned(b, n))
    ensures code == if b[0] == '(' && b[LastIndex(n)] == ')' then Done(|Scanned(b, n)| + 1) else BadFormat
  {
    TextFits(b, n);
    forall k | 0 <= k < out.Length { out[k] := '\0'; }
    assert S.Holds(out, "");
    if b[0] != '(' {
      return BadFormat;
    }
    ScanLoop(b, n, out);
    ScannedParts(b, n);
    code := CloseText(b, LastIndex(n), out, "{\"" + Emit(b, 1, LastIndex(n)));
  }

  // The last char, behind the loop.
  method CloseText(b: string, last: nat, out: array<char>, ghost text: string) returns (code: Code)
    requires 0 < last < |b| && S.Holds(out, text) && |text| + |Closing(b, last)| < out.Length
    modifies out
    ensures S.Holds(out, text + Closing(b, last))
    ensures code == if b[last] == ')' then Done(|text + Closing(b, last)| + 1) else BadFormat
  {
    if b[last] != ')' {
      assert text + "" == text;
      return BadFormat;
    }
    ghost var end := Closing(b, last);
    Strcat(out, if b[last - 1] == ')' then "}" else "\"}", text);
    var len := S.Strlen(out, text + end);
    code := Done(len + 1);
  }

  lemma ScannedParts(b: string, n: nat)
    requires 1 <= n <= |b| && 2 <= |b| && b[0] == '('
    ensures Scanned(b, n) == "{\"" + Emit(b, 1, LastIndex(n)) + Closing(b, LastIndex(n))
  {
  }

  // The opening brace and the loop over the inner chars.
  method ScanLoop(b: string, n: nat, out: array<char>)
    requires 1 <= n <= |b| && 2 <= |b| && out.Length == 2 * n && S.Holds(out, "")
    requires |"{\"" + Emit(b, 1, LastIndex(n))| < out.Length
    modifies out
    ensures S.Holds(out, "{\"" + Emit(b, 1, LastIndex(n)))
  {
    var outlen, last := out.Length, LastIndex(n);
    Strcat(out, "{\"", "");
    assert "" + "{\"" == "{\"" + Emit(b, 1, 1);
    var i := 0;
    while i < n - 2
      invariant i + 1 <= last && (n >= 2 ==> i <= n - 2) && (n < 2 ==> i == 0)
      invariant S.Holds(out, "{\"" + Emit(b, 1, i + 1))
    {
      if 0 + 2 < outlen {
        AppendPiece(b, i + 1, last, out);
      }
      i := i + 1;
    }
  }

  method AppendPiece(b: string, k: nat, last: nat, out: array<char>)
    requires 1 <= k < last < |b| && S.Holds(out, "{\"" + Emit(b, 1, k))
    requires |"{\"" + Emit(b, 1, last)| < out.Length
    modifies out
    ensures S.Holds(out, "{\"" + Emit(b, 1, k + 1))
  {
    NextPiece(b, k, last);
    ghost var text := Emit(b, 1, k);
    var y := Switch(b, k);
    Strcat(out, y, "{\"" + text);
    assert "{\"" + text + y == "{\"" + (text + y);
  }

  // The switch of the loop: the text that is appended for the char at k.
  method Switch(b: string, k: nat) returns (y: string)
    requires 0 < k && k + 1 < |b|
    ensures y == PieceAt(b, k)
  {
    y := "";
    if b[k] == '(' {
      if b[k - 1] != ')' { y := "{\""; }
    } else if b[k] == '=' {
      if b[k + 1] == '(' { y := "\":"; } else { y := "\":\""; }
    } else if b[k] == ')' {
      if b[k + 1] == '(' {
        if b[k - 1] == ')' { y := ",\""; } else { y := "\",\""; }
      } else if b[k - 1] == ')' {
        y := "}";
      } else {
        y := "\"}";
      }
    } else if b[k] != '\0' {
      y := [b[k]];
    }
  }

  lemma NextPiece(b: string, k: nat, last: nat)
    requires 1 <= k < last <= |b|
    ensures Emit(b, 1, k + 1) == Emit(b, 1, k) + PieceAt(b, k)
    ensures |Emit(b, 1, k)| + |PieceAt(b, k)| <= |Emit(b, 1, last)|
    ensures NulFree(PieceAt(b, k))
  {
    EmitSplit(b, 1, k, k + 1);
    EmitSplit(b, 1, k + 1, last);
    assert Emit(b, k, k + 1) == PieceAt(b, k) + "";
  }

  // For three chars and more the scan looks at the first n chars only.
  lemma ScanSeesOnly(b: string, n: nat)
    requires 3 <= n <= |b|
    ensures Scanned(b, n) == Scanned(b[..n], n)
  {
    EmitSeesOnly(b, b[..n], 1, n - 1);
  }

  lemma {:induction false} EmitSeesOnly(a: string, b: string, i: nat, j: nat)
    requires i <= j < |a| && j < |b| && forall k :: 0 <= k <= j ==> a[k] == b[k]
    ensures Emit(a, i, j) == Emit(b, i, j)
    decreases j - i
  {
    if i < j {
      EmitSeesOnly(a, b, i + 1, j);
      SamePiece(a, b, i);
    }
  }

  lemma SamePiece(a: string, b: string, i: nat)
    requires i + 1 < |a| && i + 1 < |b| && (i > 0 ==> a[i - 1] == b[i - 1]) && a[i] == b[i] && a[i + 1] == b[i + 1]
    ensures PieceAt(a, i) == PieceAt(b, i)
  {
  }
}
