// The recursive descent of parse_value, parse_array and parse_object, as
// functions of the text and a position. Every success lies strictly later.
module JsonParser {
  import opened CString
  import opened Outcome
  import opened JsonTree
  import N = JsonNumber
  import L = StringLiteral

  // What stands after a value in an array or object: a comma starts another
  // round of the loop, the closing char ends it, anything else is malformed.
  datatype Turn = Again(next: nat) | Closed(next: nat) | Malformed(at: nat)

  function TurnAt(s: string, i: nat, close: char): (t: Turn)
    requires i <= |s| && close != '\0'
    ensures !t.Malformed? ==> i < t.next <= |s|
    ensures t.Malformed? ==> i <= t.at <= |s|
  {
    var k := Skip(s, i);
    if Peek(s, k) == ',' then Again(k + 1)
    else if Peek(s, k) == close then Closed(k + 1)
    else Malformed(k)
  }

  // A name and its colon.
  function NameAt(s: string, i: nat): (r: Parsed<string>)
    requires i <= |s|
    ensures r.Ok? ==> i < r.next <= |s|
    ensures r.Rejected? ==> i <= r.at <= |s|
  {
    match L.StringAt(s, Skip(s, i))
    case Rejected(at) => Rejected(at)
    case Undefined => Undefined
    case Ok(name, next) =>
      var c := Skip(s, next);
      if Peek(s, c) == ':' then Ok(name, c + 1) else Rejected(c)
  }

  // Values without parts.
  function LeafAt(s: string, i: nat): (r: Parsed<Json>)
    requires i <= |s|
    ensures r.Ok? ==> i < r.next <= |s|
    ensures r.Rejected? ==> i <= r.at <= |s|
  {
    if Occurs(s, i, "null") then Ok(Null, i + 4)
    else if Occurs(s, i, "false") then Ok(False, i + 5)
    else if Occurs(s, i, "true") then Ok(True, i + 4)
    else if Peek(s, i) == L.QUOTE then
      match L.StringAt(s, i)
      case Ok(text, next) => Ok(String(text), next)
      case Rejected(at) => Rejected(at)
      case Undefined => Undefined
    else if Peek(s, i) == '-' || N.IsDigit(Peek(s, i)) then
      var n := N.NumberAt(s, i);
      Ok(Number(n.mantissa, n.exponent), n.next)
    else Rejected(i)
  }

  // parse_value. The words start with letters, so the brackets may come first.
  function ValueAt(s: string, i: nat): (r: Parsed<Json>)
    requires i <= |s|
    ensures r.Ok? ==> i < r.next <= |s|
    ensures r.Rejected? ==> i <= r.at <= |s|
    decreases |s| - i, 1
  {
    if Peek(s, i) == '[' then ArrayAt(s, i)
    else if Peek(s, i) == '{' then ObjectAt(s, i)
    else LeafAt(s, i)
  }

  function ArrayAt(s: string, i: nat): (r: Parsed<Json>)
    requires i < |s| && s[i] == '['
    ensures r.Ok? ==> i < r.next <= |s|
    ensures r.Rejected? ==> i <= r.at <= |s|
    decreases |s| - i, 0
  {
    var j := Skip(s, i + 1);
    if Peek(s, j) == ']' then Ok(Array(NoElements), j + 1)
    else
      match ElementsAt(s, j)
      case Ok(elements, next) => Ok(Array(elements), next)
      case Rejected(at) => Rejected(at)
      case Undefined => Undefined
  }

  // The elements from i through the closing bracket.
  function ElementsAt(s: string, i: nat): (r: Parsed<Elements>)
    requires i <= |s|
    ensures r.Ok? ==> i < r.next <= |s|
    ensures r.Rejected? ==> i <= r.at <= |s|
    decreases |s| - i, 2
  {
    match ValueAt(s, Skip(s, i))
    case Rejected(at) => Rejected(at)
    case Undefined => Undefined
    case Ok(v, next) =>
      match TurnAt(s, next, ']')
      case Again(k) => PrependElement(v, ElementsAt(s, k))
      case Closed(k) => Ok(Element(v, NoElements), k)
      case Malformed(at) => Rejected(at)
  }

  function PrependElement(v: Json, r: Parsed<Elements>): Parsed<Elements> {
    match r
    case Ok(rest, next) => Ok(Element(v, rest), next)
    case _ => r
  }

  function ObjectAt(s: string, i: nat): (r: Parsed<Json>)
    requires i < |s| && s[i] == '{'
    ensures r.Ok? ==> i < r.next <= |s|
    ensures r.Rejected? ==> i <= r.at <= |s|
    decreases |s| - i, 0
  {
    var j := Skip(s, i + 1);
    if Peek(s, j) == '}' then Ok(Object(NoMembers), j + 1)
    else
      match MembersAt(s, j)
      case Ok(members, next) => Ok(Object(members), next)
      case Rejected(at) => Rejected(at)
      case Undefined => Undefined
  }

  // The members from i through the closing brace.
  function MembersAt(s: string, i: nat): (r: Parsed<Members>)
    requires i <= |s|
    ensures r.Ok? ==> i < r.next <= |s|
    ensures r.Rejected? ==> i <= r.at <= |s|
    decreases |s| - i, 2
  {
    match NameAt(s, i)
    case Rejected(at) => Rejected(at)
    case Undefined => Undefined
    case Ok(name, c) =>
      match ValueAt(s, Skip(s, c))
      case Rejected(at) => Rejected(at)
      case Undefined => Undefined
      case Ok(v, next) =>
        match TurnAt(s, next, '}')
        case Again(k) => PrependMember(name, v, MembersAt(s, k))
        case Closed(k) => Ok(Member(name, v, NoMembers), k)
        case Malformed(at) => Rejected(at)
  }

  function PrependMember(name: string, v: Json, r: Parsed<Members>): Parsed<Members> {
    match r
    case Ok(rest, next) => Ok(Member(name, v, rest), next)
    case _ => r
  }

  // cJSON_ParseWithOpts. With `whole` set, only blanks may follow the value.
  function Parse(s: string, whole: bool): (r: Parsed<Json>)
    ensures r.Ok? ==> 0 < r.next <= |s|
    ensures r.Ok? && whole ==> Peek(s, r.next) == '\0'
  {
    match ValueAt(s, Skip(s, 0))
    case Rejected(at) => Rejected(at)
    case Undefined => Undefined
    case Ok(v, next) =>
      if !whole then Ok(v, next)
      else if Peek(s, Skip(s, next)) != '\0' then Rejected(Skip(s, next))
      else Ok(v, Skip(s, next))
  }

  // What the routines read, as one fact: from i to end, and what it means.
  predicate ReadsLeaf(s: string, i: nat, v: Json, end: nat) {
    i <= |s| && LeafAt(s, i) == Ok(v, end)
  }

  predicate ReadsValue(s: string, i: nat, v: Json, end: nat) {
    i <= |s| && ValueAt(s, i) == Ok(v, end)
  }

  predicate ReadsName(s: string, i: nat, name: string, end: nat) {
    i <= |s| && NameAt(s, i) == Ok(name, end)
  }

  predicate ReadsElements(s: string, i: nat, es: Elements, end: nat) {
    i <= |s| && ElementsAt(s, i) == Ok(es, end)
  }

  predicate ReadsMembers(s: string, i: nat, ms: Members, end: nat) {
    i <= |s| && MembersAt(s, i) == Ok(ms, end)
  }
}
