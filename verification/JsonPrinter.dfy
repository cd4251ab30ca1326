// print_value, print_array and print_object: the text they compose, and the
// buffers they compose it in.
module JsonPrinter {
  import opened CString
  import opened JsonTree
  import S = PrintString

  // Values the printer is given here: 32-bit integers and C strings.
  predicate Printable(t: Json) {
    match t
    case Number(m, e) => e == 0 && S.IsInt32(m)
    case String(text) => NulFree(text)
    case Array(elements) => PrintableElements(elements)
    case Object(members) => PrintableMembers(members)
    case _ => true
  }

  predicate PrintableElements(es: Elements) {
    es.Element? ==> Printable(es.value) && PrintableElements(es.rest)
  }

  predicate PrintableMembers(ms: Members) {
    ms.Member? ==> NulFree(ms.name) && Printable(ms.value) && PrintableMembers(ms.rest)
  }

  function Tabs(n: nat): (t: string)
    ensures |t| == n
  {
    seq(n, _ => '\t')
  }

  function Comma(formatted: bool): string { if formatted then ", " else "," }
  function NewLine(formatted: bool): string { if formatted then "\n" else "" }
  function Indent(depth: nat, formatted: bool): string { if formatted then Tabs(depth) else "" }
  function Colon(formatted: bool): string { if formatted then ":\t" else ":" }

  function Print(t: Json, depth: nat, formatted: bool): string
    requires Printable(t)
  {
    match t
    case Null => "null"
    case False => "false"
    case True => "true"
    case Number(m, _) => S.PrintInt(m)
    case String(text) => S.PrintText(text)
    case Array(elements) => "[" + PrintElements(elements, depth + 1, formatted)
    case Object(members) =>
      if members == NoMembers then
        "{" + (NewLine(formatted) + (Indent(if depth > 0 then depth - 1 else 0, formatted) + "}"))
      else
        "{" + (NewLine(formatted) + PrintMembers(members, depth + 1, formatted))
  }

  // The elements with the commas between them, and the closing bracket.
  function PrintElements(es: Elements, depth: nat, formatted: bool): string
    requires PrintableElements(es)
  {
    match es
    case NoElements => "]"
    case Element(v, rest) =>
      Print(v, depth, formatted) +
      ((if rest == NoElements then "" else Comma(formatted)) + PrintElements(rest, depth, formatted))
  }

  // One line a member at the given depth, and the closing brace.
  function PrintMembers(ms: Members, depth: nat, formatted: bool): string
    requires PrintableMembers(ms) && depth > 0
  {
    match ms
    case NoMembers => Indent(depth - 1, formatted) + "}"
    case Member(name, v, rest) =>
      Indent(depth, formatted) + (S.PrintText(name) + (Colon(formatted) + (Print(v, depth, formatted) +
      ((if rest == NoMembers then "" else ",") + (NewLine(formatted) + PrintMembers(rest, depth, formatted))))))
  }

  // The bytes each routine allocates for its text and the NUL.
  function Allocated(t: Json, depth: nat, formatted: bool): nat
    requires Printable(t)
  {
    match t
    case Number(_, _) => 21
    case Array(elements) =>
      if elements == NoElements then 3 else 5 + ElementsCost(elements, depth + 1, formatted)
    case Object(members) =>
      if members == NoMembers then (if formatted then depth + 3 else 3)
      else ObjectCost(members, depth + 1, formatted)
    case _ => |Print(t, depth, formatted)| + 1
  }

  function ElementsCost(es: Elements, depth: nat, formatted: bool): nat
    requires PrintableElements(es)
  {
    if es == NoElements then 0
    else |Print(es.value, depth, formatted)| + 2 + (if formatted then 1 else 0)
         + ElementsCost(es.rest, depth, formatted)
  }

  function MembersCost(ms: Members, depth: nat, formatted: bool): nat
    requires PrintableMembers(ms)
  {
    if ms == NoMembers then 0
    else |Print(ms.value, depth, formatted)| + |S.PrintText(ms.name)| + 2
         + (if formatted then 2 + depth else 0) + MembersCost(ms.rest, depth, formatted)
  }

  // The room print_object asks for when there are members, at their depth.
  function ObjectCost(ms: Members, depth: nat, formatted: bool): nat
    requires PrintableMembers(ms)
  {
    7 + (if formatted then depth else 0) + MembersCost(ms, depth, formatted)
  }

  lemma {:induction false} ElementsFit(es: Elements, depth: nat, formatted: bool)
    requires PrintableElements(es)
    ensures |PrintElements(es, depth, formatted)| <= ElementsCost(es, depth, formatted) + 1
  {
    if es.Element? { ElementsFit(es.rest, depth, formatted); }
  }

  lemma {:induction false} MembersFit(ms: Members, depth: nat, formatted: bool)
    requires PrintableMembers(ms) && depth > 0
    ensures |PrintMembers(ms, depth, formatted)|
            <= MembersCost(ms, depth, formatted) + 1 + (if formatted then depth - 1 else 0)
  {
    if ms.Member? { MembersFit(ms.rest, depth, formatted); }
  }

  // The text and its NUL fit the buffer in every case but one: an empty object
  // printed formatted at the root needs four bytes and is given three.
  lemma BufferCoversText(t: Json, depth: nat, formatted: bool)
    requires Printable(t)
    ensures |Print(t, depth, formatted)| + 1 <= Allocated(t, depth, formatted)
       <==> !(t == Object(NoMembers) && formatted && depth == 0)
  {
    match t
    case Number(m, _) => S.DecimalLength(if m < 0 then -m else m, 10);
    case Array(elements) => ElementsFit(elements, depth + 1, formatted);
    case Object(members) => ObjectFits(members, depth, formatted);
    case _ =>
  }

  lemma ObjectFits(ms: Members, depth: nat, formatted: bool)
    requires PrintableMembers(ms)
    ensures |Print(Object(ms), depth, formatted)| + 1 <= Allocated(Object(ms), depth, formatted)
       <==> !(ms == NoMembers && formatted && depth == 0)
  {
    if ms.Member? { FilledFits(ms, depth, formatted); } else { EmptyFits(depth, formatted); }
  }

  lemma EmptyFits(depth: nat, formatted: bool)
    ensures |Print(Object(NoMembers), depth, formatted)| + 1 <= Allocated(Object(NoMembers), depth, formatted)
       <==> !(formatted && depth == 0)
  {
  }

  lemma FilledFits(ms: Members, depth: nat, formatted: bool)
    requires PrintableMembers(ms) && ms.Member?
    ensures |Print(Object(ms), depth, formatted)| + 1 <= Allocated(Object(ms), depth, formatted)
  {
    MembersFit(ms, depth + 1, formatted);
    FilledPrint(ms, depth, formatted);
  }

  lemma FilledPrint(ms: Members, depth: nat, formatted: bool)
    requires PrintableMembers(ms) && ms.Member?
    ensures |Print(Object(ms), depth, formatted)| == 1 + |NewLine(formatted)| + |PrintMembers(ms, depth + 1, formatted)|
    ensures Allocated(Object(ms), depth, formatted) == ObjectCost(ms, depth + 1, formatted)
  {
  }

  lemma EmptyRootOverflows()
    ensures Print(Object(NoMembers), 0, true) == "{\n}"
    ensures Allocated(Object(NoMembers), 0, true) == 3
  {
    assert Tabs(0) == "";
  }
}
