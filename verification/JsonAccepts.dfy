// Every text of the grammar that stands where it ends is accepted, consumed to
// that end and read as the value it denotes.
module JsonAccepts {
  import opened CString
  import opened Outcome
  import opened JsonTree
  import opened JsonParser
  import opened JsonGrammar
  import L = StringLiteral
  import N = JsonNumber
  import G = StringGrammar

  // The char a value starts with decides which branch of parse_value runs.
  function FirstChar(v: Syntax): char
    requires Valid(v)
  {
    match v
    case NullWord => 'n'
    case FalseWord => 'f'
    case TrueWord => 't'
    case Numeral(n) => if n.negative then '-' else if n.zero then '0' else n.whole[0]
    case Literal(_) => L.QUOTE
    case Unclosed(_) => L.QUOTE
    case EmptyArray(_) => '['
    case ArrayOf(_) => '['
    case EmptyObject(_) => '{'
    case ObjectOf(_) => '{'
  }

  lemma SpellStarts(v: Syntax)
    requires Valid(v)
    ensures Spell(v) != "" && Spell(v)[0] == FirstChar(v)
    ensures FirstChar(v) > ' ' && FirstChar(v) != ']' && FirstChar(v) != '}'
  {
  }

  lemma ValueStarts(s: string, i: nat, v: Syntax)
    requires Valid(v) && Occurs(s, i, Spell(v))
    ensures i < |s| && s[i] == FirstChar(v)
    ensures !IsBlank(s[i]) && s[i] != ']' && s[i] != '}'
  {
    SpellStarts(v);
    OccursAt(s, i, Spell(v), 0);
  }

  lemma WordStarts(s: string, i: nat, w: string)
    requires Occurs(s, i, w) && w != ""
    ensures i < |s| && s[i] == w[0]
  {
    OccursAt(s, i, w, 0);
  }

  // None of the three words stands where another char starts a value.
  lemma NoWord(s: string, i: nat)
    requires i < |s| && s[i] != 'n' && s[i] != 'f' && s[i] != 't'
    ensures !Occurs(s, i, "null") && !Occurs(s, i, "false") && !Occurs(s, i, "true")
  {
    if Occurs(s, i, "null") { WordStarts(s, i, "null"); }
    if Occurs(s, i, "false") { WordStarts(s, i, "false"); }
    if Occurs(s, i, "true") { WordStarts(s, i, "true"); }
  }

  lemma BlanksThen(s: string, i: nat, w: string, tail: string, j: nat)
    requires Blanks(w) && tail != "" && !IsBlank(tail[0]) && Occurs(s, i, w + tail) && j == i + |w|
    ensures Skip(s, i) == j && Occurs(s, j, tail) && s[j] == tail[0]
  {
    OccursSplit(s, i, w, tail);
    OccursAt(s, j, tail, 0);
    SkipOver(s, i, w);
  }

  // A blank, a comma and a closing bracket all delimit a number.
  lemma BlanksDelimit(s: string, i: nat, w: string, tail: string)
    requires Blanks(w) && tail != "" && Occurs(s, i, w + tail)
    requires tail[0] == ',' || tail[0] == ']' || tail[0] == '}'
    ensures N.Delimited(s, i)
  {
    OccursAt(s, i, w + tail, 0);
  }

  lemma WordAccepts(s: string, i: nat, v: Syntax, end: nat)
    requires (v.NullWord? || v.FalseWord? || v.TrueWord?) && Occurs(s, i, Spell(v)) && end == i + |Spell(v)|
    ensures ReadsLeaf(s, i, Meaning(v), end)
  {
    match v
    case NullWord =>
    case FalseWord =>
      WordStarts(s, i, "false");
      if Occurs(s, i, "null") { WordStarts(s, i, "null"); }
    case TrueWord =>
      WordStarts(s, i, "true");
      if Occurs(s, i, "null") { WordStarts(s, i, "null"); }
      if Occurs(s, i, "false") { WordStarts(s, i, "false"); }
  }

  lemma LeafAccepts(s: string, i: nat, v: Syntax, end: nat)
    requires v.NullWord? || v.FalseWord? || v.TrueWord? || v.Numeral? || v.Literal? || v.Unclosed?
    requires Stands(s, i, v, end)
    ensures ReadsLeaf(s, i, Meaning(v), end)
  {
    match v
    case Numeral(n) => NumeralAccepts(s, i, n, N.Mantissa(n), N.Scale(n), end);
    case Literal(ps) => LiteralAccepts(s, i, ps, end);
    case Unclosed(ps) => UnclosedAccepts(s, i, ps, end);
    case _ => WordAccepts(s, i, v, end);
  }

  lemma NumeralAccepts(s: string, i: nat, n: N.Numeral, m: int, e: int, end: nat)
    requires N.ValidNumeral(n) && Occurs(s, i, N.SpellNumeral(n)) && end == i + |N.SpellNumeral(n)|
    requires N.Stops(s, end, n) && m == N.Mantissa(n) && e == N.Scale(n)
    ensures ReadsLeaf(s, i, Number(m, e), end)
  {
    N.NumberAccepts(s, i, n, end);
    NumberLeaf(s, i, m, e, end);
  }

  lemma NumberLeaf(s: string, i: nat, m: int, e: int, end: nat)
    requires i < |s| && (s[i] == '-' || N.IsDigit(s[i])) && N.NumberAt(s, i) == N.Number(m, e, end)
    ensures ReadsLeaf(s, i, Number(m, e), end)
  {
    NoWord(s, i);
  }

  lemma LiteralAccepts(s: string, i: nat, ps: seq<G.Piece>, end: nat)
    requires G.ValidPieces(ps) && Occurs(s, i, G.Quoted(G.Spell(ps))) && end == i + |G.Quoted(G.Spell(ps))|
    requires G.Steady(ps) || G.Fits(s, i, ps)
    ensures ReadsLeaf(s, i, String(G.Meaning(ps)), end)
  {
    OccursAt(s, i, G.Quoted(G.Spell(ps)), 0);
    NoWord(s, i);
    G.StringAccepts(s, i, ps);
  }

  lemma UnclosedAccepts(s: string, i: nat, ps: seq<G.Piece>, end: nat)
    requires G.ValidPieces(ps) && Occurs(s, i, [L.QUOTE] + G.Spell(ps)) && end == i + |[L.QUOTE] + G.Spell(ps)|
    requires (G.Steady(ps) || G.Fits(s, i, ps)) && Peek(s, end) == '\0'
    ensures ReadsLeaf(s, i, String(G.Meaning(ps)), end)
  {
    OccursSplit(s, i, [L.QUOTE], G.Spell(ps));
    OccursAt(s, i, [L.QUOTE], 0);
    NoWord(s, i);
    G.UnclosedAccepts(s, i, ps);
  }

  lemma EmptyAccepts(s: string, i: nat, open: string, w: string, close: string)
    requires Blanks(w) && |open| == 1 && Occurs(s, i, open + (w + close)) && (close == "]" || close == "}")
    ensures i + 1 + |w| < |s| && Skip(s, i + 1) == i + 1 + |w| && s[i] == open[0] && s[i + 1 + |w|] == close[0]
  {
    OccursSplit(s, i, open, w + close);
    OccursAt(s, i, open, 0);
    BlanksThen(s, i + 1, w, close, i + 1 + |w|);
  }

  lemma EmptyRead(s: string, i: nat, v: Syntax, end: nat)
    requires (v.EmptyArray? || v.EmptyObject?) && Stands(s, i, v, end)
    ensures ReadsValue(s, i, Meaning(v), end)
  {
    match v
    case EmptyArray(w) => EmptyAccepts(s, i, "[", w, "]");
    case EmptyObject(w) => EmptyAccepts(s, i, "{", w, "}");
  }

  // Behind the bracket or the brace.
  lemma ListStands(s: string, i: nat, v: Syntax, end: nat)
    requires (v.ArrayOf? || v.ObjectOf?) && Stands(s, i, v, end)
    ensures i < |s| && s[i] == if v.ArrayOf? then '[' else '{'
    ensures v.ArrayOf? ==> ItemsStand(s, i + 1, v.items, end)
    ensures v.ObjectOf? ==> FieldsStand(s, i + 1, v.fields, end)
  {
    match v
    case ArrayOf(items) =>
      OccursSplit(s, i, "[", SpellItems(items));
      OccursAt(s, i, "[", 0);
    case ObjectOf(fields) =>
      OccursSplit(s, i, "{", SpellFields(fields));
      OccursAt(s, i, "{", 0);
  }

  lemma ArrayRead(s: string, i: nat, es: Elements, end: nat)
    requires i < |s| && s[i] == '[' && Peek(s, Skip(s, i + 1)) != ']' && ReadsElements(s, Skip(s, i + 1), es, end)
    ensures ReadsValue(s, i, Array(es), end)
  {
  }

  lemma ObjectRead(s: string, i: nat, ms: Members, end: nat)
    requires i < |s| && s[i] == '{' && Peek(s, Skip(s, i + 1)) != '}' && ReadsMembers(s, Skip(s, i + 1), ms, end)
    ensures ReadsValue(s, i, Object(ms), end)
  {
  }

  lemma LeafRead(s: string, i: nat, v: Json, end: nat)
    requires ReadsLeaf(s, i, v, end) && Peek(s, i) != '[' && Peek(s, i) != '{'
    ensures ReadsValue(s, i, v, end)
  {
  }

  lemma LeafValue(s: string, i: nat, v: Syntax, end: nat)
    requires Stands(s, i, v, end) && !v.EmptyArray? && !v.EmptyObject? && !v.ArrayOf? && !v.ObjectOf?
    ensures ReadsValue(s, i, Meaning(v), end)
  {
    ValueStarts(s, i, v);
    LeafAccepts(s, i, v, end);
    LeafRead(s, i, Meaning(v), end);
  }

  lemma {:induction false} ValueAccepts(s: string, i: nat, v: Syntax, end: nat)
    requires Stands(s, i, v, end)
    ensures ReadsValue(s, i, Meaning(v), end)
    decreases v, 2
  {
    match v
    case EmptyArray(_) => EmptyRead(s, i, v, end);
    case EmptyObject(_) => EmptyRead(s, i, v, end);
    case ArrayOf(items) =>
      ListStands(s, i, v, end);
      ItemsAccept(s, i + 1, Skip(s, i + 1), items, end);
      ArrayRead(s, i, MeaningOfItems(items), end);
    case ObjectOf(fields) =>
      ListStands(s, i, v, end);
      FieldsAccept(s, i + 1, Skip(s, i + 1), fields, end);
      ObjectRead(s, i, MeaningOfFields(fields), end);
    case _ => LeafValue(s, i, v, end);
  }

  lemma SkipTwice(s: string, i: nat)
    requires i <= |s|
    ensures Skip(s, Skip(s, i)) == Skip(s, i)
  {
  }

  // A text between blanks, and the comma or closing char after it.
  lemma PaddedText(s: string, i: nat, w: string, y: string, after: string, tail: string, a: nat, b: nat, k: nat)
    requires Occurs(s, i, w + (y + (after + tail)))
    requires a == i + |w| && b == a + |y| && k == b + |after|
    ensures Occurs(s, i, w) && Occurs(s, a, y) && Occurs(s, b, after + tail) && Occurs(s, k, tail)
  {
    OccursSplit(s, i, w, y + (after + tail));
    OccursSplit(s, a, y, after + tail);
    OccursSplit(s, b, after, tail);
  }

  lemma LeadingBlanks(s: string, i: nat, from: nat, w: string, v: Syntax, a: nat)
    requires Blanks(w) && Valid(v) && Occurs(s, i, w) && Occurs(s, a, Spell(v)) && a == i + |w|
    requires from == i || from == Skip(s, i)
    ensures Skip(s, i) == a && Skip(s, from) == a && a < |s| && s[a] != ']' && s[a] != '}'
  {
    ValueStarts(s, a, v);
    SkipOver(s, i, w);
    SkipTwice(s, i);
  }

  lemma TrailingBlanks(s: string, b: nat, after: string, tail: string, close: char, k: nat)
    requires Blanks(after) && Occurs(s, b, after + tail) && k == b + |after|
    requires (close == ']' || close == '}') && tail != "" && (tail[0] == ',' || tail[0] == close)
    ensures N.Delimited(s, b)
    ensures TurnAt(s, b, close) == if tail[0] == ',' then Again(k + 1) else Closed(k + 1)
  {
    BlanksThen(s, b, after, tail, k);
    BlanksDelimit(s, b, after, tail);
  }

  // A value between blanks, read from i or from the position after the blanks
  // there, and what stands behind it.
  lemma SlotAccepts(s: string, i: nat, from: nat, w: string, v: Syntax, after: string, tail: string, close: char,
                    a: nat, b: nat, k: nat)
    requires Blanks(w) && Valid(v) && !v.Unclosed? && Blanks(after) && Occurs(s, i, w + (Spell(v) + (after + tail)))
    requires (close == ']' || close == '}') && tail != "" && (tail[0] == ',' || tail[0] == close)
    requires a == i + |w| && b == a + |Spell(v)| && k == b + |after| && (from == i || from == Skip(s, i))
    requires Settled(s, a, v)
    ensures Skip(s, i) == a && Skip(s, from) == a && a < |s| && s[a] != ']' && s[a] != '}'
    ensures Stands(s, a, v, b) && Occurs(s, k, tail)
    ensures TurnAt(s, b, close) == if tail[0] == ',' then Again(k + 1) else Closed(k + 1)
  {
    PaddedText(s, i, w, Spell(v), after, tail, a, b, k);
    LeadingBlanks(s, i, from, w, v, a);
    TrailingBlanks(s, b, after, tail, close, k);
    if v.Numeral? { N.DelimitedStops(s, b, v.numeral); }
  }

  lemma ItemsEnd(s: string, i: nat, items: Items, k: nat)
    requires Occurs(s, k, ItemsTail(items))
    requires k == i + |items.before| + |Spell(items.item)| + |items.after|
    ensures i + |SpellItems(items)| == k + |ItemsTail(items)|
    ensures items.MoreItems? ==> Occurs(s, k + 1, SpellItems(items.rest))
    ensures items.MoreItems? ==> |ItemsTail(items)| == 1 + |SpellItems(items.rest)|
  {
    if items.MoreItems? { OccursSplit(s, k, ",", SpellItems(items.rest)); }
  }

  lemma FieldsEnd(s: string, c: nat, f: Fields, k: nat)
    requires Occurs(s, k, FieldsTail(f))
    requires k == c + |f.lead| + |Spell(f.item)| + |f.after|
    ensures c + |SpellRest(f)| == k + |FieldsTail(f)|
    ensures f.MoreFields? ==> Occurs(s, k + 1, SpellFields(f.rest)) && |FieldsTail(f)| == 1 + |SpellFields(f.rest)|
  {
    if f.MoreFields? { OccursSplit(s, k, ",", SpellFields(f.rest)); }
  }

  lemma ItemHead(s: string, i: nat, from: nat, items: Items, a: nat, b: nat, k: nat, end: nat)
    requires ItemsStand(s, i, items, end)
    requires from == i || from == Skip(s, i)
    requires a == i + |items.before| && b == a + |Spell(items.item)| && k == b + |items.after|
    ensures ValidItems(items) && i <= |s| && from <= |s| && Skip(s, i) == a && Skip(s, from) == a
    ensures a < |s| && s[a] != ']'
    ensures Stands(s, a, items.item, b)
    ensures items.MoreItems? ==> ItemsStand(s, k + 1, items.rest, end)
    ensures TurnAt(s, b, ']') == if items.MoreItems? then Again(k + 1) else Closed(end)
  {
    SlotAccepts(s, i, from, items.before, items.item, items.after, ItemsTail(items), ']', a, b, k);
    ItemsEnd(s, i, items, k);
  }

  // The first item: where it stands, and what follows it at k.
  lemma ItemOpens(s: string, i: nat, from: nat, items: Items, end: nat) returns (a: nat, b: nat, k: nat)
    requires ItemsStand(s, i, items, end)
    requires from == i || from == Skip(s, i)
    ensures i <= |s| && from <= |s| && b <= |s| && Peek(s, Skip(s, i)) != ']'
    ensures Skip(s, from) == a && Stands(s, a, items.item, b)
    ensures items.MoreItems? ==> ItemsStand(s, k, items.rest, end)
    ensures TurnAt(s, b, ']') == if items.MoreItems? then Again(k) else Closed(end)
  {
    a := i + |items.before|;
    b := a + |Spell(items.item)|;
    k := b + |items.after| + 1;
    ItemHead(s, i, from, items, a, b, k - 1, end);
  }

  // The items are read from i or, as parse_array does first, from the position
  // after the blanks at i.
  lemma {:induction false} ItemsAccept(s: string, i: nat, from: nat, items: Items, end: nat)
    requires ItemsStand(s, i, items, end)
    requires from == i || from == Skip(s, i)
    ensures Peek(s, Skip(s, i)) != ']'
    ensures ReadsElements(s, from, MeaningOfItems(items), end)
    decreases items, 0
  {
    var a, b, k := ItemOpens(s, i, from, items, end);
    ValueAccepts(s, a, items.item, b);
    if items.MoreItems? { ItemsAccept(s, k, k, items.rest, end); }
    ItemRead(s, from, items, a, b, k, end);
  }

  // One item read, and the others if there are any.
  lemma ItemRead(s: string, i: nat, items: Items, a: nat, b: nat, k: nat, end: nat)
    requires ValidItems(items) && i <= |s| && Skip(s, i) == a && ReadsValue(s, a, Meaning(items.item), b) && b <= |s|
    requires TurnAt(s, b, ']') == if items.MoreItems? then Again(k) else Closed(end)
    requires items.MoreItems? ==> ReadsElements(s, k, MeaningOfItems(items.rest), end)
    ensures ReadsElements(s, i, MeaningOfItems(items), end)
  {
  }

  // A name is read from i or from the position after the blanks at i.
  lemma NameAccepts(s: string, i: nat, from: nat, before: string, name: seq<G.Piece>, gap: string, c: nat)
    requires Blanks(before) && G.ValidPieces(name) && Blanks(gap)
    requires Occurs(s, i, before + (G.Quoted(G.Spell(name)) + (gap + ":")))
    requires c == i + |before| + |G.Quoted(G.Spell(name))| + |gap| + 1
    requires (G.Steady(name) || G.Fits(s, i + |before|, name)) && (from == i || from == Skip(s, i))
    ensures Peek(s, Skip(s, i)) == L.QUOTE
    ensures NameAt(s, from) == Ok(G.Meaning(name), c)
  {
    var a := i + |before|;
    var next := a + |G.Quoted(G.Spell(name))|;
    NamePlaces(s, i, before, name, gap, a, next, c);
    SkipTwice(s, i);
    NameRead(s, from, a, G.Meaning(name), next, c);
  }

  lemma NamePlaces(s: string, i: nat, before: string, name: seq<G.Piece>, gap: string, a: nat, next: nat, c: nat)
    requires Blanks(before) && G.ValidPieces(name) && Blanks(gap)
    requires Occurs(s, i, before + (G.Quoted(G.Spell(name)) + (gap + ":")))
    requires a == i + |before| && next == a + |G.Quoted(G.Spell(name))| && c == next + |gap| + 1
    requires G.Steady(name) || G.Fits(s, a, name)
    ensures Skip(s, i) == a && Peek(s, a) == L.QUOTE && L.StringAt(s, a) == Ok(G.Meaning(name), next)
    ensures c == Skip(s, next) + 1 && Peek(s, c - 1) == ':'
  {
    PaddedText(s, i, before, G.Quoted(G.Spell(name)), gap, ":", a, next, c - 1);
    ColonAt(s, next, gap, c);
    QuotedAt(s, i, before, name, a);
  }

  lemma ColonAt(s: string, next: nat, gap: string, c: nat)
    requires Blanks(gap) && Occurs(s, next, gap + ":") && c == next + |gap| + 1
    ensures c == Skip(s, next) + 1 && Peek(s, c - 1) == ':'
  {
    BlanksThen(s, next, gap, ":", c - 1);
  }

  lemma NameRead(s: string, from: nat, a: nat, name: string, next: nat, c: nat)
    requires from <= |s| && Skip(s, from) == a && L.StringAt(s, a) == Ok(name, next)
    requires c == Skip(s, next) + 1 && Peek(s, c - 1) == ':'
    ensures NameAt(s, from) == Ok(name, c)
  {
  }

  lemma QuotedAt(s: string, i: nat, before: string, name: seq<G.Piece>, a: nat)
    requires Blanks(before) && G.ValidPieces(name) && a == i + |before|
    requires Occurs(s, i, before) && Occurs(s, a, G.Quoted(G.Spell(name)))
    requires G.Steady(name) || G.Fits(s, a, name)
    ensures Skip(s, i) == a && Peek(s, a) == L.QUOTE
    ensures L.StringAt(s, a) == Ok(G.Meaning(name), a + |G.Quoted(G.Spell(name))|)
  {
    OccursAt(s, a, G.Quoted(G.Spell(name)), 0);
    SkipOver(s, i, before);
    G.StringAccepts(s, a, name);
  }

  lemma FieldHead(s: string, c: nat, f: Fields, a: nat, b: nat, k: nat, end: nat)
    requires ValidFields(f) && Occurs(s, c, SpellRest(f)) && end == c + |SpellRest(f)| && SettledRest(s, c, f)
    requires a == c + |f.lead| && b == a + |Spell(f.item)| && k == b + |f.after|
    ensures Skip(s, c) == a && Stands(s, a, f.item, b)
    ensures f.MoreFields? ==> FieldsStand(s, k + 1, f.rest, end)
    ensures TurnAt(s, b, '}') == if f.MoreFields? then Again(k + 1) else Closed(end)
  {
    SlotAccepts(s, c, c, f.lead, f.item, f.after, FieldsTail(f), '}', a, b, k);
    FieldsEnd(s, c, f, k);
  }

  // Where the value of a member stands, behind its name, and what follows it at k.
  lemma FieldSlot(s: string, c: nat, f: Fields, end: nat) returns (a: nat, b: nat, k: nat)
    requires ValidFields(f) && Occurs(s, c, SpellRest(f)) && end == c + |SpellRest(f)| && SettledRest(s, c, f)
    ensures c <= |s| && b <= |s| && Skip(s, c) == a && Stands(s, a, f.item, b)
    ensures f.MoreFields? ==> FieldsStand(s, k, f.rest, end)
    ensures TurnAt(s, b, '}') == if f.MoreFields? then Again(k) else Closed(end)
  {
    a := c + |f.lead|;
    b := a + |Spell(f.item)|;
    k := b + |f.after| + 1;
    FieldHead(s, c, f, a, b, k - 1, end);
  }

  // The name of the first member.
  lemma FieldNamed(s: string, i: nat, from: nat, f: Fields, end: nat) returns (c: nat)
    requires FieldsStand(s, i, f, end)
    requires from == i || from == Skip(s, i)
    ensures i <= |s| && c <= |s| && from <= |s| && Peek(s, Skip(s, i)) != '}'
    ensures ReadsName(s, from, G.Meaning(f.name), c)
    ensures ValidFields(f) && Occurs(s, c, SpellRest(f)) && end == c + |SpellRest(f)| && SettledRest(s, c, f)
  {
    c := i + |SpellName(f)|;
    OccursSplit(s, i, SpellName(f), SpellRest(f));
    NameAccepts(s, i, from, f.before, f.name, f.gap, c);
  }

  // The first member: its name, where its value stands, and what follows it at k.
  lemma FieldOpens(s: string, i: nat, from: nat, f: Fields, end: nat) returns (c: nat, a: nat, b: nat, k: nat)
    requires FieldsStand(s, i, f, end)
    requires from == i || from == Skip(s, i)
    ensures i <= |s| && c <= |s| && b <= |s| && from <= |s| && Peek(s, Skip(s, i)) != '}'
    ensures ReadsName(s, from, G.Meaning(f.name), c) && Skip(s, c) == a && Stands(s, a, f.item, b)
    ensures f.MoreFields? ==> FieldsStand(s, k, f.rest, end)
    ensures TurnAt(s, b, '}') == if f.MoreFields? then Again(k) else Closed(end)
  {
    c := FieldNamed(s, i, from, f, end);
    a, b, k := FieldSlot(s, c, f, end);
  }

  lemma {:induction false} FieldsAccept(s: string, i: nat, from: nat, f: Fields, end: nat)
    requires FieldsStand(s, i, f, end)
    requires from == i || from == Skip(s, i)
    ensures Peek(s, Skip(s, i)) != '}'
    ensures ReadsMembers(s, from, MeaningOfFields(f), end)
    decreases f, 0
  {
    var c, a, b, k := FieldOpens(s, i, from, f, end);
    ValueAccepts(s, a, f.item, b);
    if f.MoreFields? { FieldsAccept(s, k, k, f.rest, end); }
    FieldRead(s, from, f, c, a, b, k, end);
  }

  // One member read, and the others if there are any.
  lemma FieldRead(s: string, i: nat, f: Fields, c: nat, a: nat, b: nat, k: nat, end: nat)
    requires ValidFields(f) && ReadsName(s, i, G.Meaning(f.name), c)
    requires c <= |s| && Skip(s, c) == a && ReadsValue(s, a, Meaning(f.item), b) && b <= |s|
    requires TurnAt(s, b, '}') == if f.MoreFields? then Again(k) else Closed(end)
    requires f.MoreFields? ==> ReadsMembers(s, k, MeaningOfFields(f.rest), end)
    ensures ReadsMembers(s, i, MeaningOfFields(f), end)
  {
  }

  // A text between blanks, of which the last go to the end or, unless the whole
  // text is asked for, do not matter.
  lemma TextAccepts(before: string, v: Syntax, after: string, whole: bool)
    requires Blanks(before) && Valid(v) && Steady(v) && Blanks(after) && (v.Unclosed? ==> after == "")
    ensures var s := before + (Spell(v) + after);
            Parse(s, whole) == Ok(Meaning(v), if whole then |s| else |before| + |Spell(v)|)
  {
    var y := Spell(v);
    var s := before + (y + after);
    var a, b := |before|, |before| + |y|;
    assert Occurs(s, 0, before + (y + (after + ""))) by { assert after + "" == after; }
    PaddedText(s, 0, before, y, after, "", a, b, |s|);
    LeadingBlanks(s, 0, 0, before, v, a);
    SkipOver(s, b, after);
    assert N.Delimited(s, b) by { if after != "" { OccursAt(s, b, after, 0); } }
    if v.Numeral? { N.DelimitedStops(s, b, v.numeral); }
    SteadySettles(s, a, v);
    ValueAccepts(s, a, v, b);
  }

  // RFC 8259: JSON-text = ws value ws.
  lemma RfcAccepts(before: string, v: Syntax, after: string, whole: bool)
    requires ProperBlanks(before) && Proper(v) && ProperBlanks(after)
    ensures Valid(v)
    ensures var s := before + (Spell(v) + after);
            Parse(s, whole) == Ok(Meaning(v), if whole then |s| else |before| + |Spell(v)|)
  {
    ProperIsValid(v);
    TextAccepts(before, v, after, whole);
  }
}
