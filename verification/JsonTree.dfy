// JSON values as the parser builds them and the printer reads them. A number
// is kept exact, as mantissa * 10^exponent.
module JsonTree {
  datatype Json =
    | Null
    | False
    | True
    | Number(mantissa: int, exponent: int)
    | String(text: string)
    | Array(elements: Elements)
    | Object(members: Members)

  datatype Elements = NoElements | Element(value: Json, rest: Elements)

  datatype Members = NoMembers | Member(name: string, value: Json, rest: Members)
}
