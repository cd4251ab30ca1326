// Printing a value, formatted or not, gives a text of RFC 8259 that denotes the
// value, so parsing it gives the value back and consumes the whole text.
module RoundTrip {
  import opened CString
  import opened Outcome
  import opened JsonTree
  import opened JsonPrinter
  import opened JsonGrammar
  import S = PrintString
  import N = JsonNumber
  import JsonParser
  import JsonAccepts

  // The syntax tree of the printed text.
  function Layout(t: Json, depth: nat, formatted: bool): (v: Syntax)
    requires Printable(t)
    decreases t
  {
    match t
    case Null => NullWord
    case False => FalseWord
    case True => TrueWord
    case Number(m, _) => Numeral(IntNumeral(m))
    case String(text) => Literal(S.Pieces(text))
    case Array(elements) =>
      if elements == NoElements then EmptyArray("") else ArrayOf(LayoutElements("", elements, depth + 1, formatted))
    case Object(members) =>
      if members == NoMembers then
        EmptyObject(NewLine(formatted) + Indent(if depth > 0 then depth - 1 else 0, formatted))
      else ObjectOf(LayoutMembers(members, depth + 1, formatted))
  }

  function LayoutElements(before: string, es: Elements, depth: nat, formatted: bool): (items: Items)
    requires PrintableElements(es) && es.Element?
    decreases es
  {
    var v := Layout(es.value, depth, formatted);
    if es.rest == NoElements then LastItem(before, v, "")
    else MoreItems(before, v, "", LayoutElements(if formatted then " " else "", es.rest, depth, formatted))
  }

  function LayoutMembers(ms: Members, depth: nat, formatted: bool): (f: Fields)
    requires PrintableMembers(ms) && ms.Member? && depth > 0
    decreases ms
  {
    var before := NewLine(formatted) + Indent(depth, formatted);
    var lead := if formatted then "\t" else "";
    var v := Layout(ms.value, depth, formatted);
    if ms.rest == NoMembers then
      LastField(before, S.Pieces(ms.name), "", lead, v, NewLine(formatted) + Indent(depth - 1, formatted))
    else
      MoreFields(before, S.Pieces(ms.name), "", lead, v, "", LayoutMembers(ms.rest, depth, formatted))
  }

  function IntNumeral(m: int): (n: N.Numeral) {
    N.Numeral(m < 0, m == 0, if m == 0 then "" else S.Decimal(if m < 0 then -m else m), "", None)
  }

  lemma IntNumeralMeans(m: int)
    ensures N.ProperNumeral(IntNumeral(m))
    ensures N.Mantissa(IntNumeral(m)) == m && N.Scale(IntNumeral(m)) == 0
  {
    var d := IntNumeral(m).whole;
    S.DecimalValue(if m < 0 then -m else m);
    assert d + "" == d;
  }

  lemma IntNumeralSpells(m: int)
    ensures N.SpellNumeral(IntNumeral(m)) == S.PrintInt(m)
  {
    var n := IntNumeral(m);
    assert S.Decimal(0) == "0";
    assert N.SpellStart(n) + ("" + "") == N.SpellStart(n);
    assert N.SpellZero(n) + n.whole == S.Decimal(if m < 0 then -m else m);
  }

  lemma BlankLayout(depth: nat, formatted: bool)
    ensures ProperBlanks(NewLine(formatted)) && ProperBlanks(Indent(depth, formatted))
    ensures ProperBlanks(NewLine(formatted) + Indent(depth, formatted))
    ensures Blanks(NewLine(formatted)) && Blanks(NewLine(formatted) + Indent(depth, formatted))
  {
  }

  lemma {:induction false} LayoutMeans(t: Json, depth: nat, formatted: bool)
    requires Printable(t)
    ensures Valid(Layout(t, depth, formatted))
    ensures Meaning(Layout(t, depth, formatted)) == t
    decreases t
  {
    match t
    case Number(m, _) => IntNumeralMeans(m);
    case String(text) => S.PiecesMean(text);
    case Array(elements) =>
      if elements.Element? { LayoutElementsMeans("", elements, depth + 1, formatted); }
    case Object(members) =>
      if members.Member? { LayoutMembersMeans(members, depth + 1, formatted); }
      else { BlankLayout(if depth > 0 then depth - 1 else 0, formatted); }
    case _ =>
  }

  lemma {:induction false} LayoutElementsMeans(before: string, es: Elements, depth: nat, formatted: bool)
    requires PrintableElements(es) && es.Element? && Blanks(before)
    ensures ValidItems(LayoutElements(before, es, depth, formatted))
    ensures MeaningOfItems(LayoutElements(before, es, depth, formatted)) == es
    decreases es
  {
    LayoutMeans(es.value, depth, formatted);
    if es.rest.Element? { LayoutElementsMeans(if formatted then " " else "", es.rest, depth, formatted); }
  }

  lemma {:induction false} LayoutMembersMeans(ms: Members, depth: nat, formatted: bool)
    requires PrintableMembers(ms) && ms.Member? && depth > 0
    ensures ValidFields(LayoutMembers(ms, depth, formatted))
    ensures MeaningOfFields(LayoutMembers(ms, depth, formatted)) == ms
    decreases ms
  {
    LayoutMeans(ms.value, depth, formatted);
    S.PiecesMean(ms.name);
    BlankLayout(depth, formatted);
    BlankLayout(depth - 1, formatted);
    if ms.rest.Member? { LayoutMembersMeans(ms.rest, depth, formatted); }
  }

  // The tree of the printed text is one of RFC 8259.
  lemma {:induction false} LayoutIsProper(t: Json, depth: nat, formatted: bool)
    requires Printable(t)
    ensures Proper(Layout(t, depth, formatted))
    decreases t
  {
    match t
    case Number(m, _) => IntNumeralMeans(m);
    case Array(elements) =>
      if elements.Element? { LayoutElementsAreProper("", elements, depth + 1, formatted); }
    case Object(members) =>
      if members.Member? { LayoutMembersAreProper(members, depth + 1, formatted); }
      else { BlankLayout(if depth > 0 then depth - 1 else 0, formatted); }
    case _ =>
  }

  lemma {:induction false} LayoutElementsAreProper(before: string, es: Elements, depth: nat, formatted: bool)
    requires PrintableElements(es) && es.Element? && ProperBlanks(before)
    ensures ProperItems(LayoutElements(before, es, depth, formatted))
    decreases es
  {
    LayoutIsProper(es.value, depth, formatted);
    if es.rest.Element? { LayoutElementsAreProper(if formatted then " " else "", es.rest, depth, formatted); }
  }

  lemma {:induction false} LayoutMembersAreProper(ms: Members, depth: nat, formatted: bool)
    requires PrintableMembers(ms) && ms.Member? && depth > 0
    ensures ProperFields(LayoutMembers(ms, depth, formatted))
    decreases ms
  {
    LayoutIsProper(ms.value, depth, formatted);
    BlankLayout(depth, formatted);
    BlankLayout(depth - 1, formatted);
    if ms.rest.Member? { LayoutMembersAreProper(ms.rest, depth, formatted); }
  }

  lemma {:induction false} LayoutSpells(t: Json, depth: nat, formatted: bool)
    requires Printable(t)
    ensures Spell(Layout(t, depth, formatted)) == Print(t, depth, formatted)
    decreases t
  {
    match t
    case Number(m, _) => IntNumeralSpells(m);
    case Array(elements) => ArraySpells(elements, depth, formatted);
    case Object(members) => ObjectSpells(members, depth, formatted);
    case _ =>
  }

  lemma {:induction false} ArraySpells(es: Elements, depth: nat, formatted: bool)
    requires PrintableElements(es)
    ensures Spell(Layout(Array(es), depth, formatted)) == Print(Array(es), depth, formatted)
    decreases es, 2
  {
    if es.Element? {
      LayoutElementsSpells("", es, depth + 1, formatted);
      assert "" + PrintElements(es, depth + 1, formatted) == PrintElements(es, depth + 1, formatted);
    }
  }

  lemma {:induction false} ObjectSpells(ms: Members, depth: nat, formatted: bool)
    requires PrintableMembers(ms)
    ensures Spell(Layout(Object(ms), depth, formatted)) == Print(Object(ms), depth, formatted)
    decreases ms, 2
  {
    if ms.Member? {
      LayoutMembersSpells(ms, depth + 1, formatted);
      BraceSpells(ms, LayoutMembers(ms, depth + 1, formatted), depth, formatted);
    } else {
      EmptyObjectSpells(depth, formatted);
    }
  }

  lemma BraceSpells(ms: Members, f: Fields, depth: nat, formatted: bool)
    requires PrintableMembers(ms) && ms.Member?
    requires SpellFields(f) == NewLine(formatted) + PrintMembers(ms, depth + 1, formatted)
    ensures Spell(ObjectOf(f)) == Print(Object(ms), depth, formatted)
  {
    var x, y := Spell(ObjectOf(f)), Print(Object(ms), depth, formatted);
    assert x == "{" + SpellFields(f);
  }

  lemma EmptyObjectSpells(depth: nat, formatted: bool)
    ensures Spell(Layout(Object(NoMembers), depth, formatted)) == Print(Object(NoMembers), depth, formatted)
  {
    var a, b := NewLine(formatted), Indent(if depth > 0 then depth - 1 else 0, formatted);
    assert a + b + "}" == a + (b + "}");
  }

  lemma {:induction false} LayoutElementsSpells(before: string, es: Elements, depth: nat, formatted: bool)
    requires PrintableElements(es) && es.Element?
    ensures SpellItems(LayoutElements(before, es, depth, formatted)) == before + PrintElements(es, depth, formatted)
    decreases es, 1
  {
    LayoutSpells(es.value, depth, formatted);
    ElementTailSpells(before, es, depth, formatted);
    var items := LayoutElements(before, es, depth, formatted);
    assert SpellItems(items) == before + (Print(es.value, depth, formatted) + ElementTail(es, depth, formatted));
  }

  // What the printer writes after the value of the first element.
  function ElementTail(es: Elements, depth: nat, formatted: bool): string
    requires PrintableElements(es) && es.Element?
  {
    (if es.rest == NoElements then "" else Comma(formatted)) + PrintElements(es.rest, depth, formatted)
  }

  lemma {:induction false} ElementTailSpells(before: string, es: Elements, depth: nat, formatted: bool)
    requires PrintableElements(es) && es.Element?
    ensures var items := LayoutElements(before, es, depth, formatted);
            items.after + ItemsTail(items) == ElementTail(es, depth, formatted)
    decreases es, 0
  {
    if es.rest.Element? {
      var gap := if formatted then " " else "";
      LayoutElementsSpells(gap, es.rest, depth, formatted);
      CommaSpells(gap, formatted, PrintElements(es.rest, depth, formatted));
    }
  }

  lemma CommaSpells(gap: string, formatted: bool, tail: string)
    requires gap == if formatted then " " else ""
    ensures "" + ("," + (gap + tail)) == Comma(formatted) + tail
  {
  }

  lemma {:induction false} LayoutMembersSpells(ms: Members, depth: nat, formatted: bool)
    requires PrintableMembers(ms) && ms.Member? && depth > 0
    ensures SpellFields(LayoutMembers(ms, depth, formatted)) == NewLine(formatted) + PrintMembers(ms, depth, formatted)
    decreases ms, 1
  {
    var f := LayoutMembers(ms, depth, formatted);
    LayoutSpells(ms.value, depth, formatted);
    MemberTailSpells(ms, depth, formatted);
    assert SpellRest(f) == f.lead + (Print(ms.value, depth, formatted) + MemberTail(ms, depth, formatted));
    NameSpells(ms, depth, formatted, Print(ms.value, depth, formatted) + MemberTail(ms, depth, formatted));
  }

  // What the printer writes after the value of the first member.
  function MemberTail(ms: Members, depth: nat, formatted: bool): string
    requires PrintableMembers(ms) && ms.Member? && depth > 0
  {
    (if ms.rest == NoMembers then "" else ",") + (NewLine(formatted) + PrintMembers(ms.rest, depth, formatted))
  }

  lemma {:induction false} MemberTailSpells(ms: Members, depth: nat, formatted: bool)
    requires PrintableMembers(ms) && ms.Member? && depth > 0
    ensures var f := LayoutMembers(ms, depth, formatted);
            f.after + FieldsTail(f) == MemberTail(ms, depth, formatted)
    decreases ms, 0
  {
    var line, indent := NewLine(formatted), Indent(depth - 1, formatted);
    if ms.rest.Member? {
      LayoutMembersSpells(ms.rest, depth, formatted);
      MoreTail(line, PrintMembers(ms.rest, depth, formatted));
    } else {
      LastTail(line, indent);
    }
  }

  lemma MoreTail(line: string, rest: string)
    ensures "" + ("," + (line + rest)) == "," + (line + rest)
  {
  }

  lemma LastTail(line: string, indent: string)
    ensures (line + indent) + "}" == "" + (line + (indent + "}"))
  {
  }

  lemma NameSpells(ms: Members, depth: nat, formatted: bool, rest: string)
    requires PrintableMembers(ms) && ms.Member? && depth > 0
    ensures (var f := LayoutMembers(ms, depth, formatted); SpellName(f) + (f.lead + rest))
         == NewLine(formatted) + (Indent(depth, formatted) + (S.PrintText(ms.name) + (Colon(formatted) + rest)))
  {
    var line, indent, name := NewLine(formatted), Indent(depth, formatted), S.PrintText(ms.name);
    var lead := if formatted then "\t" else "";
    assert ":" + lead == Colon(formatted);
    Regroup(line, indent, name, ":", lead, rest);
  }

  lemma Regroup(a: string, b: string, c: string, d: string, e: string, f: string)
    ensures (a + b) + (c + ("" + d)) + (e + f) == a + (b + (c + ((d + e) + f)))
  {
    assert "" + d == d;
  }

  // The parser undoes the printer, at any depth and in both formats.
  lemma PrintThenParse(t: Json, depth: nat, formatted: bool, whole: bool)
    requires Printable(t)
    ensures var s := Print(t, depth, formatted); JsonParser.Parse(s, whole) == Ok(t, |s|)
  {
    var v := Layout(t, depth, formatted);
    LayoutMeans(t, depth, formatted);
    LayoutIsProper(t, depth, formatted);
    LayoutSpells(t, depth, formatted);
    JsonAccepts.RfcAccepts("", v, "", whole);
    assert "" + (Spell(v) + "") == Spell(v);
  }

  // So the printed text determines the value, whatever the format.
  lemma PrintIsInjective(t: Json, u: Json, depth: nat, formatted: bool)
    requires Printable(t) && Printable(u)
    requires Print(t, depth, formatted) == Print(u, depth, formatted)
    ensures t == u
  {
    PrintThenParse(t, depth, formatted, true);
    PrintThenParse(u, depth, formatted, true);
  }
}
