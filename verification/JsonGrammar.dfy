// The grammar that the parser takes, as syntax trees: what text each one spells
// and which value it denotes. The grammar of RFC 8259 sections 2 to 7 is part of it.
module JsonGrammar {
  import opened CString
  import opened JsonTree
  import N = JsonNumber
  import G = StringGrammar
  import L = StringLiteral

  // White space is kept where the grammar allows it: before and after every
  // value, name, colon, comma and bracket.
  datatype Syntax =
    | NullWord
    | FalseWord
    | TrueWord
    | Numeral(numeral: N.Numeral)
    | Literal(pieces: seq<G.Piece>)
    | Unclosed(pieces: seq<G.Piece>)
    | EmptyArray(blank: string)
    | ArrayOf(items: Items)
    | EmptyObject(blank: string)
    | ObjectOf(fields: Fields)

  datatype Items =
    | LastItem(before: string, item: Syntax, after: string)
    | MoreItems(before: string, item: Syntax, after: string, rest: Items)

  datatype Fields =
    | LastField(before: string, name: seq<G.Piece>, gap: string, lead: string, item: Syntax, after: string)
    | MoreFields(before: string, name: seq<G.Piece>, gap: string, lead: string, item: Syntax, after: string,
                 rest: Fields)

  // Only a value that is not inside another may be an unclosed string.
  predicate Valid(v: Syntax) {
    match v
    case Numeral(n) => N.ValidNumeral(n)
    case Literal(ps) => G.ValidPieces(ps)
    case Unclosed(ps) => G.ValidPieces(ps)
    case EmptyArray(w) => Blanks(w)
    case ArrayOf(items) => ValidItems(items)
    case EmptyObject(w) => Blanks(w)
    case ObjectOf(fields) => ValidFields(fields)
    case _ => true
  }

  predicate ValidItems(items: Items) {
    && Blanks(items.before) && Valid(items.item) && !items.item.Unclosed? && Blanks(items.after)
    && (items.MoreItems? ==> ValidItems(items.rest))
  }

  predicate ValidFields(f: Fields) {
    && Blanks(f.before) && G.ValidPieces(f.name) && Blanks(f.gap)
    && Blanks(f.lead) && Valid(f.item) && !f.item.Unclosed? && Blanks(f.after)
    && (f.MoreFields? ==> ValidFields(f.rest))
  }

  // White space of RFC 8259.
  predicate ProperBlanks(w: string) {
    forall k :: 0 <= k < |w| ==> w[k] in " \t\n\r"
  }

  // What RFC 8259 has.
  predicate Proper(v: Syntax) {
    match v
    case Numeral(n) => N.ProperNumeral(n)
    case Literal(ps) => G.ProperPieces(ps)
    case Unclosed(_) => false
    case EmptyArray(w) => ProperBlanks(w)
    case ArrayOf(items) => ProperItems(items)
    case EmptyObject(w) => ProperBlanks(w)
    case ObjectOf(fields) => ProperFields(fields)
    case _ => true
  }

  predicate ProperItems(items: Items) {
    && ProperBlanks(items.before) && Proper(items.item) && ProperBlanks(items.after)
    && (items.MoreItems? ==> ProperItems(items.rest))
  }

  predicate ProperFields(f: Fields) {
    && ProperBlanks(f.before) && G.ProperPieces(f.name) && ProperBlanks(f.gap)
    && ProperBlanks(f.lead) && Proper(f.item) && ProperBlanks(f.after)
    && (f.MoreFields? ==> ProperFields(f.rest))
  }

  // No escape hides a quote or a backslash from the sizing pass.
  predicate Steady(v: Syntax) {
    match v
    case Literal(ps) => G.Steady(ps)
    case Unclosed(ps) => G.Steady(ps)
    case ArrayOf(items) => SteadyItems(items)
    case ObjectOf(fields) => SteadyFields(fields)
    case _ => true
  }

  predicate SteadyItems(items: Items) {
    Steady(items.item) && (items.MoreItems? ==> SteadyItems(items.rest))
  }

  predicate SteadyFields(f: Fields) {
    G.Steady(f.name) && Steady(f.item) && (f.MoreFields? ==> SteadyFields(f.rest))
  }

  lemma {:induction false} ProperIsValid(v: Syntax)
    requires Proper(v)
    ensures Valid(v) && Steady(v)
    decreases v
  {
    match v
    case Literal(ps) => G.ProperIsSteady(ps);
    case ArrayOf(items) => ProperItemsAreValid(items);
    case ObjectOf(fields) => ProperFieldsAreValid(fields);
    case _ =>
  }

  lemma {:induction false} ProperItemsAreValid(items: Items)
    requires ProperItems(items)
    ensures ValidItems(items) && SteadyItems(items)
    decreases items
  {
    ProperIsValid(items.item);
    if items.MoreItems? { ProperItemsAreValid(items.rest); }
  }

  lemma {:induction false} ProperFieldsAreValid(f: Fields)
    requires ProperFields(f)
    ensures ValidFields(f) && SteadyFields(f)
    decreases f
  {
    G.ProperIsSteady(f.name);
    ProperIsValid(f.item);
    if f.MoreFields? { ProperFieldsAreValid(f.rest); }
  }

  function Spell(v: Syntax): string {
    match v
    case NullWord => "null"
    case FalseWord => "false"
    case TrueWord => "true"
    case Numeral(n) => N.SpellNumeral(n)
    case Literal(ps) => G.Quoted(G.Spell(ps))
    case Unclosed(ps) => [L.QUOTE] + G.Spell(ps)
    case EmptyArray(w) => "[" + (w + "]")
    case ArrayOf(items) => "[" + SpellItems(items)
    case EmptyObject(w) => "{" + (w + "}")
    case ObjectOf(fields) => "{" + SpellFields(fields)
  }

  // The items and the bracket that closes them.
  function SpellItems(items: Items): string
    decreases items, 1
  {
    items.before + (Spell(items.item) + (items.after + ItemsTail(items)))
  }

  function ItemsTail(items: Items): (t: string)
    ensures t != "" && t[0] == if items.MoreItems? then ',' else ']'
    decreases items, 0
  {
    if items.MoreItems? then "," + SpellItems(items.rest) else "]"
  }

  // The members and the brace that closes them.
  function SpellFields(f: Fields): string
    decreases f, 2
  {
    SpellName(f) + SpellRest(f)
  }

  function SpellRest(f: Fields): string
    decreases f, 1
  {
    f.lead + (Spell(f.item) + (f.after + FieldsTail(f)))
  }

  function FieldsTail(f: Fields): (t: string)
    ensures t != "" && t[0] == if f.MoreFields? then ',' else '}'
    decreases f, 0
  {
    if f.MoreFields? then "," + SpellFields(f.rest) else "}"
  }

  // A member up to and including its colon.
  function SpellName(f: Fields): string {
    f.before + (G.Quoted(G.Spell(f.name)) + (f.gap + ":"))
  }

  function Meaning(v: Syntax): Json
    requires Valid(v)
  {
    match v
    case NullWord => Null
    case FalseWord => False
    case TrueWord => True
    case Numeral(n) => Number(N.Mantissa(n), N.Scale(n))
    case Literal(ps) => String(G.Meaning(ps))
    case Unclosed(ps) => String(G.Meaning(ps))
    case EmptyArray(_) => Array(NoElements)
    case ArrayOf(items) => Array(MeaningOfItems(items))
    case EmptyObject(_) => Object(NoMembers)
    case ObjectOf(fields) => Object(MeaningOfFields(fields))
  }

  function MeaningOfItems(items: Items): Elements
    requires ValidItems(items)
  {
    Element(Meaning(items.item), if items.MoreItems? then MeaningOfItems(items.rest) else NoElements)
  }

  function MeaningOfFields(f: Fields): Members
    requires ValidFields(f)
  {
    Member(G.Meaning(f.name), Meaning(f.item), if f.MoreFields? then MeaningOfFields(f.rest) else NoMembers)
  }

  // Every literal inside fits the buffer that is counted for it where it stands.
  predicate Settled(s: string, i: nat, v: Syntax)
    requires Valid(v)
    decreases v
  {
    match v
    case Literal(ps) => G.Steady(ps) || G.Fits(s, i, ps)
    case Unclosed(ps) => G.Steady(ps) || G.Fits(s, i, ps)
    case ArrayOf(items) => SettledItems(s, i + 1, items)
    case ObjectOf(fields) => SettledFields(s, i + 1, fields)
    case _ => true
  }

  predicate SettledItems(s: string, i: nat, items: Items)
    requires ValidItems(items)
    decreases items
  {
    var a := i + |items.before|;
    && Settled(s, a, items.item)
    && (items.MoreItems? ==> SettledItems(s, a + |Spell(items.item)| + |items.after| + 1, items.rest))
  }

  predicate SettledFields(s: string, i: nat, f: Fields)
    requires ValidFields(f)
    decreases f, 1
  {
    (G.Steady(f.name) || G.Fits(s, i + |f.before|, f.name)) && SettledRest(s, i + |SpellName(f)|, f)
  }

  // Behind the name, which ends at c.
  predicate SettledRest(s: string, c: nat, f: Fields)
    requires ValidFields(f)
    decreases f, 0
  {
    var a := c + |f.lead|;
    && Settled(s, a, f.item)
    && (f.MoreFields? ==> SettledFields(s, a + |Spell(f.item)| + |f.after| + 1, f.rest))
  }

  lemma {:induction false} SteadySettles(s: string, i: nat, v: Syntax)
    requires Valid(v) && Steady(v)
    ensures Settled(s, i, v)
    decreases v
  {
    match v
    case ArrayOf(items) => SteadyItemsSettle(s, i + 1, items);
    case ObjectOf(fields) => SteadyFieldsSettle(s, i + 1, fields);
    case _ =>
  }

  lemma {:induction false} SteadyItemsSettle(s: string, i: nat, items: Items)
    requires ValidItems(items) && SteadyItems(items)
    ensures SettledItems(s, i, items)
    decreases items
  {
    var a := i + |items.before|;
    SteadySettles(s, a, items.item);
    if items.MoreItems? { SteadyItemsSettle(s, a + |Spell(items.item)| + |items.after| + 1, items.rest); }
  }

  lemma {:induction false} SteadyFieldsSettle(s: string, i: nat, f: Fields)
    requires ValidFields(f) && SteadyFields(f)
    ensures SettledFields(s, i, f)
    decreases f
  {
    var a := i + |SpellName(f)| + |f.lead|;
    SteadySettles(s, a, f.item);
    if f.MoreFields? { SteadyFieldsSettle(s, a + |Spell(f.item)| + |f.after| + 1, f.rest); }
  }

  // A value is spelled from i to end and ends there: no loop of a number goes
  // on, and a string that is not closed ends the text.
  predicate Stands(s: string, i: nat, v: Syntax, end: nat) {
    && Valid(v) && Occurs(s, i, Spell(v)) && end == i + |Spell(v)| && Settled(s, i, v)
    && (v.Numeral? ==> N.Stops(s, end, v.numeral)) && (v.Unclosed? ==> Peek(s, end) == '\0')
  }

  // The items and their bracket, the members and their brace.
  predicate ItemsStand(s: string, i: nat, items: Items, end: nat) {
    ValidItems(items) && Occurs(s, i, SpellItems(items)) && end == i + |SpellItems(items)| && SettledItems(s, i, items)
  }

  predicate FieldsStand(s: string, i: nat, f: Fields, end: nat) {
    ValidFields(f) && Occurs(s, i, SpellFields(f)) && end == i + |SpellFields(f)| && SettledFields(s, i, f)
  }
}
