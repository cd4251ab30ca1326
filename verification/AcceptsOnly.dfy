// The converse of JsonAccepts: arrays, objects and whole texts that the parser
// takes are spelled by the grammar. Together the two say exactly which texts the
// parser takes, and as what.
module AcceptsOnly {
  import opened CString
  import opened Outcome
  import opened JsonTree
  import opened JsonParser
  import opened JsonGrammar
  import opened OnlySpelled
  import L = StringLiteral
  import A = JsonAccepts
  import G = StringGrammar

  // The items and their bracket stand from i to end and mean es.
  predicate ItemsMean(s: string, i: nat, items: Items, end: nat, es: Elements) {
    ItemsStand(s, i, items, end) && MeaningOfItems(items) == es
  }

  predicate FieldsMean(s: string, i: nat, f: Fields, end: nat, ms: Members) {
    FieldsStand(s, i, f, end) && MeaningOfFields(f) == ms
  }

  // The same for a value.
  predicate ValueMeans(s: string, i: nat, v: Syntax, end: nat, j: Json) {
    Stands(s, i, v, end) && Meaning(v) == j
  }

  lemma Join3(s: string, i: nat, a: string, b: string, c: string, j: nat, k: nat)
    requires Occurs(s, i, a) && j == i + |a| && Occurs(s, j, b) && k == j + |b| && Occurs(s, k, c)
    ensures Occurs(s, i, a + (b + c))
  {
    OccursJoin(s, j, b, c);
    OccursJoin(s, i, a, b + c);
  }

  lemma Join4(s: string, i: nat, a: string, b: string, c: string, d: string, j: nat, k: nat, l: nat)
    requires Occurs(s, i, a) && j == i + |a| && Occurs(s, j, b) && k == j + |b|
    requires Occurs(s, k, c) && l == k + |c| && Occurs(s, l, d)
    ensures Occurs(s, i, a + (b + (c + d)))
  {
    Join3(s, j, b, c, d, k, l);
    OccursJoin(s, i, a, b + (c + d));
  }

  lemma CommaThen(s: string, k: nat, rest: string)
    requires k < |s| && s[k] == ',' && Occurs(s, k + 1, rest)
    ensures Occurs(s, k, "," + rest)
  {
    CharOccurs(s, k);
    OccursJoin(s, k, ",", rest);
  }

  // A value with something after it is not an unclosed string.
  lemma ClosedInside(s: string, i: nat, v: Syntax, end: nat, k: nat)
    requires Stands(s, i, v, end) && end <= |s| && k == Skip(s, end) && k < |s| && s[k] != '\0'
    ensures !v.Unclosed?
  {
  }

  // The blanks that skip steps over.
  lemma BlanksAt(s: string, i: nat) returns (w: string)
    requires i <= |s|
    ensures Blanks(w) && Occurs(s, i, w) && Skip(s, i) == i + |w|
  {
    SkippedIsBlank(s, i);
    w := s[i..Skip(s, i)];
  }

  // What stands behind a value: blanks, and a comma or the closing char.
  lemma Behind(s: string, b: nat, close: char, next: nat, more: bool) returns (after: string, k: nat)
    requires b <= |s| && close != '\0' && close != ','
    requires TurnAt(s, b, close) == if more then Again(next) else Closed(next)
    ensures Blanks(after) && Occurs(s, b, after) && k == b + |after| == Skip(s, b)
    ensures k < |s| && s[k] == (if more then ',' else close) && next == k + 1
  {
    after := BlanksAt(s, b);
    k := Skip(s, b);
  }

  // Blanks w from i to a, a value up to b and blanks up to k.
  predicate SlotStands(s: string, i: nat, w: string, a: nat, v: Syntax, b: nat, after: string, k: nat, j: Json) {
    && Blanks(w) && Occurs(s, i, w) && a == i + |w| && ValueMeans(s, a, v, b, j) && !v.Unclosed?
    && Blanks(after) && Occurs(s, b, after) && k == b + |after|
  }

  lemma LastItemStands(s: string, i: nat, w: string, a: nat, v: Syntax, b: nat, after: string, k: nat, j: Json)
    requires SlotStands(s, i, w, a, v, b, after, k, j) && k < |s| && s[k] == ']'
    ensures ItemsMean(s, i, LastItem(w, v, after), k + 1, Element(j, NoElements))
  {
    CharOccurs(s, k);
    Join4(s, i, w, Spell(v), after, "]", a, b, k);
    var items := LastItem(w, v, after);
    assert SpellItems(items) == w + (Spell(v) + (after + "]"));
    assert SettledItems(s, i, items);
  }

  lemma MoreItemsStand(s: string, i: nat, w: string, a: nat, v: Syntax, b: nat, after: string, k: nat, j: Json,
                       rest: Items, end: nat, es: Elements)
    requires SlotStands(s, i, w, a, v, b, after, k, j) && k < |s| && s[k] == ','
    requires ItemsMean(s, k + 1, rest, end, es)
    ensures ItemsMean(s, i, MoreItems(w, v, after, rest), end, Element(j, es))
  {
    var y := SpellItems(rest);
    CommaThen(s, k, y);
    Join4(s, i, w, Spell(v), after, "," + y, a, b, k);
    MoreItemsJoined(s, i, MoreItems(w, v, after, rest), a, b, k, y);
  }

  lemma MoreItemsJoined(s: string, i: nat, items: Items, a: nat, b: nat, k: nat, y: string)
    requires items.MoreItems? && ValidItems(items) && y == SpellItems(items.rest)
    requires Occurs(s, i, items.before + (Spell(items.item) + (items.after + ("," + y))))
    requires a == i + |items.before| && b == a + |Spell(items.item)| && k == b + |items.after|
    requires Settled(s, a, items.item) && SettledItems(s, k + 1, items.rest)
    ensures ItemsStand(s, i, items, k + 1 + |y|)
  {
    assert SpellItems(items) == items.before + (Spell(items.item) + (items.after + ("," + y)));
  }

  lemma {:induction false} ValueSpelled(s: string, i: nat, j: Json, end: nat) returns (v: Syntax)
    requires ReadsValue(s, i, j, end)
    ensures ValueMeans(s, i, v, end, j)
    decreases |s| - i, 1
  {
    if Peek(s, i) == '[' {
      v := ArraySpelled(s, i, j, end);
    } else if Peek(s, i) == '{' {
      v := ObjectSpelled(s, i, j, end);
    } else {
      v := LeafSpelled(s, i);
    }
  }

  lemma EmptyStands(s: string, i: nat, w: string, open: string, close: string)
    requires Occurs(s, i, open) && |open| == 1 && Occurs(s, i + 1, w) && Occurs(s, i + 1 + |w|, close)
    ensures Occurs(s, i, open + (w + close))
  {
    Join3(s, i, open, w, close, i + 1, i + 1 + |w|);
  }

  lemma ArrayStands(s: string, i: nat, items: Items, end: nat, es: Elements)
    requires i < |s| && s[i] == '[' && ItemsMean(s, i + 1, items, end, es)
    ensures ValueMeans(s, i, ArrayOf(items), end, Array(es))
  {
    CharOccurs(s, i);
    OccursJoin(s, i, "[", SpellItems(items));
  }

  lemma ObjectStands(s: string, i: nat, f: Fields, end: nat, ms: Members)
    requires i < |s| && s[i] == '{' && FieldsMean(s, i + 1, f, end, ms)
    ensures ValueMeans(s, i, ObjectOf(f), end, Object(ms))
  {
    CharOccurs(s, i);
    OccursJoin(s, i, "{", SpellFields(f));
  }

  // A list is read alike from the blanks before it and from behind them.
  lemma SkippedFirst(s: string, i: nat)
    requires i <= |s|
    ensures Skip(s, Skip(s, i)) == Skip(s, i)
    ensures ElementsAt(s, Skip(s, i)) == ElementsAt(s, i) && MembersAt(s, Skip(s, i)) == MembersAt(s, i)
  {
    assert Skip(s, Skip(s, i)) == Skip(s, i);
    assert NameAt(s, Skip(s, i)) == NameAt(s, i);
  }

  // What parse_array reads behind the bracket: blanks and another bracket, or elements.
  lemma ArrayParts(s: string, i: nat, j: Json, end: nat) returns (w: string, es: Elements)
    requires i < |s| && s[i] == '[' && ArrayAt(s, i) == Ok(j, end)
    ensures j == Array(es) && Blanks(w) && Occurs(s, i + 1, w)
    ensures es == NoElements ==> i + 1 + |w| < |s| && s[i + 1 + |w|] == ']' && end == i + 2 + |w|
    ensures es != NoElements ==> ReadsElements(s, i + 1, es, end)
  {
    w := BlanksAt(s, i + 1);
    es := ArrayUnfolds(s, i, j, end, Skip(s, i + 1));
    SkippedFirst(s, i + 1);
  }

  lemma ArrayUnfolds(s: string, i: nat, j: Json, end: nat, p: nat) returns (es: Elements)
    requires i < |s| && s[i] == '[' && ArrayAt(s, i) == Ok(j, end) && p == Skip(s, i + 1)
    ensures j == Array(es)
    ensures if es == NoElements then p < |s| && s[p] == ']' && end == p + 1 else ReadsElements(s, p, es, end)
  {
    es := j.elements;
  }

  lemma {:induction false} ArraySpelled(s: string, i: nat, j: Json, end: nat) returns (v: Syntax)
    requires i < |s| && s[i] == '[' && ArrayAt(s, i) == Ok(j, end)
    ensures ValueMeans(s, i, v, end, j)
    decreases |s| - i, 0
  {
    var w, es := ArrayParts(s, i, j, end);
    if es == NoElements {
      CharOccurs(s, i);
      CharOccurs(s, i + 1 + |w|);
      EmptyStands(s, i, w, "[", "]");
      v := EmptyArray(w);
    } else {
      var items := ElementsSpelled(s, i + 1, es, end);
      ArrayStands(s, i, items, end, es);
      v := ArrayOf(items);
    }
  }

  // What an element list reads: blanks up to a, a value up to b, and what follows it.
  lemma ElementParts(s: string, i: nat, es: Elements, end: nat)
    returns (w: string, a: nat, j: Json, b: nat, after: string, k: nat, more: bool)
    requires ReadsElements(s, i, es, end)
    ensures Blanks(w) && Occurs(s, i, w) && a == i + |w| <= |s| && ReadsValue(s, a, j, b)
    ensures b <= |s| && Blanks(after) && Occurs(s, b, after) && k == b + |after| == Skip(s, b)
    ensures k < |s| && s[k] == (if more then ',' else ']') && es.Element? && es.value == j
    ensures !more ==> es.rest == NoElements && end == k + 1
    ensures more ==> ReadsElements(s, k + 1, es.rest, end)
  {
    var next;
    a, j, b, next, more := ElementUnfolds(s, i, es, end);
    w := BlanksAt(s, i);
    after, k := Behind(s, b, ']', next, more);
  }

  lemma ElementUnfolds(s: string, i: nat, es: Elements, end: nat)
    returns (a: nat, j: Json, b: nat, k: nat, more: bool)
    requires ReadsElements(s, i, es, end)
    ensures es.Element? && es.value == j && a == Skip(s, i) && ReadsValue(s, a, j, b) && b <= |s|
    ensures TurnAt(s, b, ']') == if more then Again(k) else Closed(k)
    ensures if more then ReadsElements(s, k, es.rest, end) else es.rest == NoElements && end == k
  {
    a := Skip(s, i);
    j, b := ValueAt(s, a).value, ValueAt(s, a).next;
    k, more := TurnAt(s, b, ']').next, TurnAt(s, b, ']').Again?;
  }

  // The value read in a slot, spelled.
  lemma {:induction false} SlotSpelled(s: string, i: nat, w: string, a: nat, j: Json, b: nat, after: string, k: nat)
    returns (v: Syntax)
    requires Blanks(w) && Occurs(s, i, w) && a == i + |w| <= |s| && ReadsValue(s, a, j, b) && b <= |s|
    requires Blanks(after) && Occurs(s, b, after) && k == b + |after| == Skip(s, b) && k < |s| && s[k] != '\0'
    ensures SlotStands(s, i, w, a, v, b, after, k, j)
    decreases |s| - a, 2
  {
    v := ValueSpelled(s, a, j, b);
    ClosedInside(s, a, v, b, k);
  }

  // The first element, spelled, and what is left.
  lemma {:induction false} FirstElement(s: string, i: nat, es: Elements, end: nat)
    returns (w: string, a: nat, v: Syntax, b: nat, after: string, k: nat, more: bool)
    requires ReadsElements(s, i, es, end)
    ensures es.Element? && i < k < |s| && s[k] == if more then ',' else ']'
    ensures SlotStands(s, i, w, a, v, b, after, k, es.value)
    ensures !more ==> es.rest == NoElements && end == k + 1
    ensures more ==> ReadsElements(s, k + 1, es.rest, end)
    decreases |s| - i, 3
  {
    var j;
    w, a, j, b, after, k, more := ElementParts(s, i, es, end);
    v := SlotSpelled(s, i, w, a, j, b, after, k);
  }

  lemma {:induction false} ElementsSpelled(s: string, i: nat, es: Elements, end: nat) returns (items: Items)
    requires ReadsElements(s, i, es, end)
    ensures ItemsMean(s, i, items, end, es)
    decreases |s| - i, 4
  {
    var w, a, v, b, after, k, more := FirstElement(s, i, es, end);
    if more {
      var rest := ElementsSpelled(s, k + 1, es.rest, end);
      MoreItemsStand(s, i, w, a, v, b, after, k, es.value, rest, end, es.rest);
      items := MoreItems(w, v, after, rest);
    } else {
      LastItemStands(s, i, w, a, v, b, after, k, es.value);
      items := LastItem(w, v, after);
    }
  }

  // A name through its colon.
  predicate NameStands(s: string, i: nat, before: string, ps: seq<G.Piece>, gap: string, c: nat, name: string) {
    && Blanks(before) && G.ValidPieces(ps) && Blanks(gap) && G.Meaning(ps) == name
    && Occurs(s, i, before + (G.Quoted(G.Spell(ps)) + (gap + ":")))
    && c == i + |before| + |G.Quoted(G.Spell(ps))| + |gap| + 1 && G.Fits(s, i + |before|, ps)
  }

  // What NameAt reads: blanks, a string, blanks and a colon.
  lemma NameParts(s: string, i: nat, name: string, c: nat) returns (before: string, a: nat, next: nat, gap: string)
    requires ReadsName(s, i, name, c)
    ensures Blanks(before) && Occurs(s, i, before) && a == i + |before| <= |s|
    ensures L.StringAt(s, a) == Ok(name, next) && next <= |s| && Peek(s, next) != '\0'
    ensures Blanks(gap) && Occurs(s, next, gap) && c == next + |gap| + 1 && c <= |s| && s[c - 1] == ':'
  {
    before := BlanksAt(s, i);
    a := i + |before|;
    next := L.StringAt(s, a).next;
    gap := BlanksAt(s, next);
  }

  lemma NameSpelled(s: string, i: nat, name: string, c: nat) returns (before: string, ps: seq<G.Piece>, gap: string)
    requires ReadsName(s, i, name, c)
    ensures NameStands(s, i, before, ps, gap, c, name)
  {
    var a, next;
    before, a, next, gap := NameParts(s, i, name, c);
    var v := LiteralSpelled(s, a);
    ps := v.pieces;
    CharOccurs(s, c - 1);
    Join4(s, i, before, G.Quoted(G.Spell(ps)), gap, ":", a, next, c - 1);
  }

  // What a member list reads: a name up to c, blanks up to a, a value up to b,
  // and what follows it.
  lemma MemberParts(s: string, i: nat, ms: Members, end: nat)
    returns (c: nat, w: string, a: nat, j: Json, b: nat, after: string, k: nat, more: bool)
    requires ReadsMembers(s, i, ms, end)
    ensures ms.Member? && ReadsName(s, i, ms.name, c) && ms.value == j
    ensures Blanks(w) && Occurs(s, c, w) && a == c + |w| <= |s| && ReadsValue(s, a, j, b)
    ensures b <= |s| && Blanks(after) && Occurs(s, b, after) && k == b + |after| == Skip(s, b)
    ensures k < |s| && s[k] == if more then ',' else '}'
    ensures !more ==> ms.rest == NoMembers && end == k + 1
    ensures more ==> ReadsMembers(s, k + 1, ms.rest, end)
  {
    var next;
    c, a, j, b, next, more := MemberUnfolds(s, i, ms, end);
    w := BlanksAt(s, c);
    after, k := Behind(s, b, '}', next, more);
  }

  lemma MemberUnfolds(s: string, i: nat, ms: Members, end: nat)
    returns (c: nat, a: nat, j: Json, b: nat, k: nat, more: bool)
    requires ReadsMembers(s, i, ms, end)
    ensures ms.Member? && ReadsName(s, i, ms.name, c) && ms.value == j
    ensures a == Skip(s, c) && ReadsValue(s, a, j, b) && b <= |s|
    ensures TurnAt(s, b, '}') == if more then Again(k) else Closed(k)
    ensures if more then ReadsMembers(s, k, ms.rest, end) else ms.rest == NoMembers && end == k
  {
    c := NameAt(s, i).next;
    a := Skip(s, c);
    j, b := ValueAt(s, a).value, ValueAt(s, a).next;
    k, more := TurnAt(s, b, '}').next, TurnAt(s, b, '}').Again?;
  }

  // A name and what stands behind it.
  lemma FieldsJoined(s: string, i: nat, c: nat, name: string, f: Fields, end: nat, j: Json, ms: Members)
    requires NameStands(s, i, f.before, f.name, f.gap, c, name) && RestMeans(s, c, f, end, j, ms)
    ensures FieldsMean(s, i, f, end, Member(name, j, ms))
  {
    OccursJoin(s, i, SpellName(f), SpellRest(f));
  }

  // Behind its name a member is spelled from c to end, and means j and then ms.
  predicate RestMeans(s: string, c: nat, f: Fields, end: nat, j: Json, ms: Members) {
    && ValidFields(f) && Occurs(s, c, SpellRest(f)) && end == c + |SpellRest(f)| && SettledRest(s, c, f)
    && Meaning(f.item) == j && ms == if f.MoreFields? then MeaningOfFields(f.rest) else NoMembers
  }

  lemma LastRest(s: string, c: nat, f: Fields, a: nat, b: nat, k: nat, j: Json)
    requires f.LastField? && Blanks(f.before) && G.ValidPieces(f.name) && Blanks(f.gap)
    requires SlotStands(s, c, f.lead, a, f.item, b, f.after, k, j) && k < |s| && s[k] == '}'
    ensures RestMeans(s, c, f, k + 1, j, NoMembers)
  {
    CharOccurs(s, k);
    Join4(s, c, f.lead, Spell(f.item), f.after, "}", a, b, k);
    assert SpellRest(f) == f.lead + (Spell(f.item) + (f.after + "}"));
  }

  lemma MoreRest(s: string, c: nat, f: Fields, a: nat, b: nat, k: nat, j: Json, end: nat, ms: Members)
    requires f.MoreFields? && Blanks(f.before) && G.ValidPieces(f.name) && Blanks(f.gap)
    requires SlotStands(s, c, f.lead, a, f.item, b, f.after, k, j) && k < |s| && s[k] == ','
    requires FieldsMean(s, k + 1, f.rest, end, ms)
    ensures RestMeans(s, c, f, end, j, ms)
  {
    var y := SpellFields(f.rest);
    CommaThen(s, k, y);
    Join4(s, c, f.lead, Spell(f.item), f.after, "," + y, a, b, k);
    MoreRestJoined(s, c, f, a, b, k, y);
  }

  lemma MoreRestJoined(s: string, c: nat, f: Fields, a: nat, b: nat, k: nat, y: string)
    requires f.MoreFields? && ValidFields(f) && y == SpellFields(f.rest)
    requires Occurs(s, c, f.lead + (Spell(f.item) + (f.after + ("," + y))))
    requires a == c + |f.lead| && b == a + |Spell(f.item)| && k == b + |f.after|
    requires Settled(s, a, f.item) && SettledFields(s, k + 1, f.rest)
    ensures Occurs(s, c, SpellRest(f)) && c + |SpellRest(f)| == k + 1 + |y| && SettledRest(s, c, f)
  {
    assert SpellRest(f) == f.lead + (Spell(f.item) + (f.after + ("," + y)));
  }

  lemma LastFieldStands(s: string, i: nat, f: Fields, c: nat, name: string, a: nat, b: nat, k: nat, j: Json)
    requires f.LastField? && NameStands(s, i, f.before, f.name, f.gap, c, name)
    requires SlotStands(s, c, f.lead, a, f.item, b, f.after, k, j) && k < |s| && s[k] == '}'
    ensures FieldsMean(s, i, f, k + 1, Member(name, j, NoMembers))
  {
    LastRest(s, c, f, a, b, k, j);
    FieldsJoined(s, i, c, name, f, k + 1, j, NoMembers);
  }

  lemma MoreFieldsStand(s: string, i: nat, f: Fields, c: nat, name: string, a: nat, b: nat, k: nat, j: Json,
                        end: nat, ms: Members)
    requires f.MoreFields? && NameStands(s, i, f.before, f.name, f.gap, c, name)
    requires SlotStands(s, c, f.lead, a, f.item, b, f.after, k, j) && k < |s| && s[k] == ','
    requires FieldsMean(s, k + 1, f.rest, end, ms)
    ensures FieldsMean(s, i, f, end, Member(name, j, ms))
  {
    MoreRest(s, c, f, a, b, k, j, end, ms);
    FieldsJoined(s, i, c, name, f, end, j, ms);
  }

  // What parse_object reads behind the brace.
  lemma ObjectParts(s: string, i: nat, j: Json, end: nat) returns (w: string, ms: Members)
    requires i < |s| && s[i] == '{' && ObjectAt(s, i) == Ok(j, end)
    ensures j == Object(ms) && Blanks(w) && Occurs(s, i + 1, w)
    ensures ms == NoMembers ==> i + 1 + |w| < |s| && s[i + 1 + |w|] == '}' && end == i + 2 + |w|
    ensures ms != NoMembers ==> ReadsMembers(s, i + 1, ms, end)
  {
    w := BlanksAt(s, i + 1);
    ms := ObjectUnfolds(s, i, j, end, Skip(s, i + 1));
    SkippedFirst(s, i + 1);
  }

  lemma ObjectUnfolds(s: string, i: nat, j: Json, end: nat, p: nat) returns (ms: Members)
    requires i < |s| && s[i] == '{' && ObjectAt(s, i) == Ok(j, end) && p == Skip(s, i + 1)
    ensures j == Object(ms)
    ensures if ms == NoMembers then p < |s| && s[p] == '}' && end == p + 1 else ReadsMembers(s, p, ms, end)
  {
    ms := j.members;
  }

  lemma {:induction false} ObjectSpelled(s: string, i: nat, j: Json, end: nat) returns (v: Syntax)
    requires i < |s| && s[i] == '{' && ObjectAt(s, i) == Ok(j, end)
    ensures ValueMeans(s, i, v, end, j)
    decreases |s| - i, 0
  {
    var w, ms := ObjectParts(s, i, j, end);
    if ms == NoMembers {
      CharOccurs(s, i);
      CharOccurs(s, i + 1 + |w|);
      EmptyStands(s, i, w, "{", "}");
      v := EmptyObject(w);
    } else {
      var f := MembersSpelled(s, i + 1, ms, end);
      ObjectStands(s, i, f, end, ms);
      v := ObjectOf(f);
    }
  }

  // The value of the first member, spelled, and what is left.
  lemma {:induction false} FirstMember(s: string, i: nat, ms: Members, end: nat)
    returns (c: nat, w: string, a: nat, v: Syntax, b: nat, after: string, k: nat, more: bool)
    requires ReadsMembers(s, i, ms, end)
    ensures ms.Member? && ReadsName(s, i, ms.name, c) && i < k < |s| && s[k] == if more then ',' else '}'
    ensures SlotStands(s, c, w, a, v, b, after, k, ms.value)
    ensures !more ==> ms.rest == NoMembers && end == k + 1
    ensures more ==> ReadsMembers(s, k + 1, ms.rest, end)
    decreases |s| - i, 3
  {
    var j;
    c, w, a, j, b, after, k, more := MemberParts(s, i, ms, end);
    v := SlotSpelled(s, c, w, a, j, b, after, k);
  }

  lemma {:induction false} MembersSpelled(s: string, i: nat, ms: Members, end: nat) returns (f: Fields)
    requires ReadsMembers(s, i, ms, end)
    ensures FieldsMean(s, i, f, end, ms)
    decreases |s| - i, 4
  {
    var c, w, a, v, b, after, k, more := FirstMember(s, i, ms, end);
    var before, ps, gap := NameSpelled(s, i, ms.name, c);
    if more {
      var rest := MembersSpelled(s, k + 1, ms.rest, end);
      f := MoreFields(before, ps, gap, w, v, after, rest);
      MoreFieldsStand(s, i, f, c, ms.name, a, b, k, ms.value, end, ms.rest);
    } else {
      f := LastField(before, ps, gap, w, v, after);
      LastFieldStands(s, i, f, c, ms.name, a, b, k, ms.value);
    }
  }

  // What cJSON_Parse reads: blanks up to a, a value up to b and, for the whole
  // text, blanks up to a NUL.
  lemma TextUnfolds(s: string, whole: bool, j: Json, next: nat) returns (a: nat, b: nat)
    requires Parse(s, whole) == Ok(j, next)
    ensures a == Skip(s, 0) && b <= |s| && ReadsValue(s, a, j, b)
    ensures next == if whole then Skip(s, b) else b
    ensures whole ==> Peek(s, Skip(s, b)) == '\0'
  {
    a := Skip(s, 0);
    b := ValueAt(s, a).next;
  }

  // A text that stands up to next: blanks, a value and, when the whole text is
  // asked for, blanks up to a NUL.
  predicate TextStands(s: string, whole: bool, before: string, v: Syntax, after: string, next: nat) {
    var end := |before| + |Spell(v)|;
    && Blanks(before) && Blanks(after) && Occurs(s, 0, before + (Spell(v) + after))
    && Stands(s, |before|, v, end) && next == end + |after|
    && if whole then Peek(s, next) == '\0' else after == ""
  }

  lemma TextJoined(s: string, whole: bool, before: string, a: nat, v: Syntax, b: nat, after: string, next: nat)
    requires Blanks(before) && Occurs(s, 0, before) && a == |before| && Stands(s, a, v, b)
    requires Blanks(after) && Occurs(s, b, after) && next == b + |after|
    requires if whole then Peek(s, next) == '\0' else after == ""
    ensures TextStands(s, whole, before, v, after, next)
  {
    Join3(s, 0, before, Spell(v), after, a, b);
  }

  // Every text the parser takes is such a text, and means what is returned.
  lemma TextSpelled(s: string, whole: bool, j: Json, next: nat) returns (before: string, v: Syntax, after: string)
    requires Parse(s, whole) == Ok(j, next)
    ensures TextStands(s, whole, before, v, after, next) && Meaning(v) == j
  {
    before := BlanksAt(s, 0);
    var a, b := TextUnfolds(s, whole, j, next);
    v := ValueSpelled(s, a, j, b);
    after := AfterText(s, b, whole);
    TextJoined(s, whole, before, a, v, b, after, next);
  }

  lemma AfterText(s: string, b: nat, whole: bool) returns (after: string)
    requires b <= |s|
    ensures Blanks(after) && Occurs(s, b, after) && b + |after| == if whole then Skip(s, b) else b
    ensures whole || after == ""
  {
    if whole {
      after := BlanksAt(s, b);
    } else {
      after := "";
    }
  }

  // Every such text is taken.
  lemma TextRead(s: string, whole: bool, before: string, v: Syntax, after: string, next: nat)
    requires TextStands(s, whole, before, v, after, next)
    ensures Parse(s, whole) == Ok(Meaning(v), next)
  {
    var a, b := |before|, |before| + |Spell(v)|;
    OccursSplit(s, 0, before, Spell(v) + after);
    OccursSplit(s, a, Spell(v), after);
    A.ValueStarts(s, a, v);
    SkipOver(s, 0, before);
    A.ValueAccepts(s, a, v, b);
    if whole { SkipOver(s, b, after); }
  }

  ghost predicate Spells(s: string, whole: bool, j: Json, next: nat) {
    exists before, v, after :: TextStands(s, whole, before, v, after, next) && Meaning(v) == j
  }

  // Exactly which texts are accepted, up to where, and as what.
  lemma AcceptsExactly(s: string, whole: bool, j: Json, next: nat)
    ensures Parse(s, whole) == Ok(j, next) <==> Spells(s, whole, j, next)
  {
    if Parse(s, whole) == Ok(j, next) {
      var before, v, after := TextSpelled(s, whole, j, next);
    } else if Spells(s, whole, j, next) {
      var before, v, after :| TextStands(s, whole, before, v, after, next) && Meaning(v) == j;
      TextRead(s, whole, before, v, after, next);
    }
  }
}
