// The rewritten text of a descriptor is JSON for the same tree, so parsing it
// gives the descriptor back as nested objects and strings, in order.
module DescriptorJson {
  import opened Outcome
  import opened JsonTree
  import D = Descriptor
  import J = JsonGrammar
  import G = StringGrammar
  import JsonParser
  import JsonAccepts

  // The descriptor as a JSON value.
  function MembersOf(ns: D.Nodes): Members {
    Member(ns.name, ValueOf(ns.value), if ns.More? then MembersOf(ns.rest) else NoMembers)
  }

  function ValueOf(v: D.Value): Json {
    match v
    case Atom(text) => String(text)
    case Nested(nodes) => Object(MembersOf(nodes))
  }

  // The chars of a word as pieces of a JSON string: the scan copies backslashes,
  // and the parser takes them for escapes.
  function Pieces(y: string): seq<G.Piece>
    decreases |y|
  {
    if y == "" then []
    else if y[0] != '\\' || |y| == 1 then [G.Plain(y[0])] + Pieces(y[1..])
    else if y[1] != 'u' || |y| < 6 then [G.Short(y[1])] + Pieces(y[2..])
    else [G.Hex(y[2], y[3], y[4], y[5])] + Pieces(y[6..])
  }

  // The word is the body of a JSON string, and what that string denotes.
  predicate IsLiteral(y: string) {
    G.ValidPieces(Pieces(y)) && G.Steady(Pieces(y))
  }

  function Meant(y: string): string
    requires IsLiteral(y)
  {
    G.Meaning(Pieces(y))
  }

  lemma {:induction false} PiecesSpell(y: string)
    ensures G.Spell(Pieces(y)) == y
    decreases |y|
  {
    if y != "" {
      var p := Pieces(y)[0];
      var n := |G.SpellPiece(p)|;
      assert Pieces(y)[1..] == Pieces(y[n..]);
      PiecesSpell(y[n..]);
      assert G.SpellPiece(p) == y[..n];
      assert y == y[..n] + y[n..];
    }
  }

  // No pieces of a JSON string but these spell the word, so a word is a literal
  // exactly if valid pieces spell it.
  lemma {:induction false} SpellDetermines(ps: seq<G.Piece>)
    requires G.ValidPieces(ps)
    ensures Pieces(G.Spell(ps)) == ps
    decreases |ps|
  {
    if ps != [] {
      var y, first, rest := G.Spell(ps), G.SpellPiece(ps[0]), G.Spell(ps[1..]);
      SpellDetermines(ps[1..]);
      assert y == first + rest && y[|first|..] == rest;
      assert G.ValidPiece(ps[0]) && forall k :: 0 <= k < |first| ==> y[k] == first[k];
      assert Pieces(y) == [ps[0]] + Pieces(rest);
    }
  }

  predicate IsPlain(y: string) {
    forall k :: 0 <= k < |y| ==> y[k] != '\"' && y[k] != '\\' && y[k] != '\0'
  }

  // A plain char at the front of a word is read as it stands.
  lemma CharIsRead(c: char, w: string)
    requires c != '\"' && c != '\\' && c != '\0'
    ensures IsLiteral([c] + w) <==> IsLiteral(w)
    ensures IsLiteral(w) ==> Meant([c] + w) == [c] + Meant(w)
  {
    assert ([c] + w)[1..] == w;
    FirstIsRead(c, Pieces(w));
  }

  lemma FirstIsRead(c: char, ps: seq<G.Piece>)
    requires c != '\"' && c != '\\' && c != '\0'
    ensures var qs := [G.Plain(c)] + ps;
            && (G.ValidPieces(qs) && G.Steady(qs) <==> G.ValidPieces(ps) && G.Steady(ps))
            && (G.ValidPieces(ps) ==> G.ValidPieces(qs) && G.Meaning(qs) == [c] + G.Meaning(ps))
  {
    var qs := [G.Plain(c)] + ps;
    assert qs[1..] == ps;
    assert forall k :: 0 <= k < |ps| ==> qs[k + 1] == ps[k];
  }

  // So is a plain text.
  lemma {:induction false} PlainIsRead(y: string, z: string)
    requires IsPlain(y)
    ensures IsLiteral(y + z) <==> IsLiteral(z)
    ensures IsLiteral(z) ==> Meant(y + z) == y + Meant(z)
    decreases |y|
  {
    if y == "" {
      assert y + z == z;
      if IsLiteral(z) { assert "" + Meant(z) == Meant(z); }
    } else {
      var c, rest := y[0], y[1..];
      assert y + z == [c] + (rest + z) && y == [c] + rest;
      PlainIsRead(rest, z);
      CharIsRead(c, rest + z);
      if IsLiteral(z) { assert [c] + (rest + Meant(z)) == ([c] + rest) + Meant(z); }
    }
  }

  lemma PlainIsMeant(y: string)
    requires IsPlain(y)
    ensures IsLiteral(y) && Meant(y) == y
  {
    PlainIsRead(y, "");
    assert y + "" == y;
  }

  // A backslash is lost before any char that JSON has no escape for.
  lemma BackslashIsLost(y: string, c: char, z: string)
    requires IsPlain(y) && c != '\0' && c !in "bfnrtu" && IsPlain(z)
    ensures IsLiteral(y + (['\\', c] + z)) && Meant(y + (['\\', c] + z)) == y + ([c] + z)
  {
    PlainIsMeant(z);
    var w := ['\\', c] + z;
    assert w[2..] == z;
    var ps := Pieces(z);
    assert Pieces(w) == [G.Short(c)] + ps;
    assert ([G.Short(c)] + ps)[1..] == ps;
    assert Meant(w) == [c] + z;
    PlainIsRead(y, w);
  }

  // No piece leaves more bytes than it has chars, and every escape leaves fewer.
  lemma {:induction false} EscapesShorten(ps: seq<G.Piece>)
    requires G.ValidPieces(ps)
    ensures |G.Meaning(ps)| <= |G.Spell(ps)|
    ensures |G.Meaning(ps)| == |G.Spell(ps)| ==> forall k :: 0 <= k < |ps| ==> ps[k].Plain?
    decreases |ps|
  {
    if ps != [] {
      var (y, n) := G.First(ps);
      EscapesShorten(ps[n..]);
      SpelledLength(ps, n);
      assert forall k :: n <= k < |ps| ==> ps[k] == ps[n..][k - n];
    }
  }

  lemma SpelledLength(ps: seq<G.Piece>, n: nat)
    requires 1 <= n <= 2 && n <= |ps|
    ensures |G.Spell(ps)| >= |G.SpellPiece(ps[0])| + |G.Spell(ps[n..])|
  {
    if n == 2 { assert ps[1..][1..] == ps[2..]; }
  }

  // So the words that are read as they stand are those without a backslash.
  lemma PlainWordsSurvive(y: string)
    requires IsLiteral(y)
    ensures Meant(y) == y <==> IsPlain(y)
  {
    if IsPlain(y) {
      PlainIsMeant(y);
    } else if Meant(y) == y {
      PiecesSpell(y);
      EscapesShorten(Pieces(y));
      AllPlain(y);
    }
  }

  lemma {:induction false} AllPlain(y: string)
    requires G.ValidPieces(Pieces(y)) && forall k :: 0 <= k < |Pieces(y)| ==> Pieces(y)[k].Plain?
    ensures IsPlain(y)
    decreases |y|
  {
    if y != "" {
      var ps := Pieces(y);
      assert ps[0].Plain? && G.ValidPiece(ps[0]);
      assert ps[1..] == Pieces(y[1..]);
      AllPlain(y[1..]);
    }
  }

  // All names and atoms are bodies of JSON strings.
  predicate Literals(ns: D.Nodes) {
    IsLiteral(ns.name) && LiteralValue(ns.value) && (ns.More? ==> Literals(ns.rest))
  }

  predicate LiteralValue(v: D.Value) {
    match v
    case Atom(text) => IsLiteral(text)
    case Nested(nodes) => Literals(nodes)
  }

  // The tree with every word as the parser reads it.
  function Read(ns: D.Nodes): D.Nodes
    requires Literals(ns)
  {
    if ns.More? then D.More(Meant(ns.name), ReadValue(ns.value), Read(ns.rest))
    else D.Last(Meant(ns.name), ReadValue(ns.value))
  }

  function ReadValue(v: D.Value): D.Value
    requires LiteralValue(v)
  {
    match v
    case Atom(text) => D.Atom(Meant(text))
    case Nested(nodes) => D.Nested(Read(nodes))
  }

  predicate PlainWords(ns: D.Nodes) {
    IsPlain(ns.name) && PlainValue(ns.value) && (ns.More? ==> PlainWords(ns.rest))
  }

  predicate PlainValue(v: D.Value) {
    match v
    case Atom(text) => IsPlain(text)
    case Nested(nodes) => PlainWords(nodes)
  }

  lemma {:induction false} PlainWordsAreLiterals(ns: D.Nodes)
    requires PlainWords(ns)
    ensures Literals(ns)
    decreases ns
  {
    PlainIsMeant(ns.name);
    if ns.value.Nested? { PlainWordsAreLiterals(ns.value.nodes); } else { PlainIsMeant(ns.value.text); }
    if ns.More? { PlainWordsAreLiterals(ns.rest); }
  }

  lemma {:induction false} ReadKeepsPlain(ns: D.Nodes)
    requires Literals(ns)
    ensures Read(ns) == ns <==> PlainWords(ns)
    decreases ns
  {
    PlainWordsSurvive(ns.name);
    if ns.value.Nested? { ReadKeepsPlain(ns.value.nodes); } else { PlainWordsSurvive(ns.value.text); }
    if ns.More? { ReadKeepsPlain(ns.rest); }
  }

  function FieldsOf(ns: D.Nodes): (f: J.Fields) {
    var name := Pieces(ns.name);
    if ns.More? then J.MoreFields("", name, "", "", SyntaxOf(ns.value), "", FieldsOf(ns.rest))
    else J.LastField("", name, "", "", SyntaxOf(ns.value), "")
  }

  function SyntaxOf(v: D.Value): J.Syntax {
    match v
    case Atom(text) => J.Literal(Pieces(text))
    case Nested(nodes) => J.ObjectOf(FieldsOf(nodes))
  }

  lemma {:induction false} FieldsMean(ns: D.Nodes)
    requires Literals(ns)
    ensures J.ValidFields(FieldsOf(ns)) && J.SteadyFields(FieldsOf(ns))
    ensures J.MeaningOfFields(FieldsOf(ns)) == MembersOf(Read(ns))
    decreases ns, 1
  {
    SyntaxMeans(ns.value);
    if ns.More? { FieldsMean(ns.rest); }
  }

  lemma {:induction false} SyntaxMeans(v: D.Value)
    requires LiteralValue(v)
    ensures J.Valid(SyntaxOf(v)) && J.Steady(SyntaxOf(v)) && J.Meaning(SyntaxOf(v)) == ValueOf(ReadValue(v))
    decreases v, 0
  {
    if v.Nested? { FieldsMean(v.nodes); }
  }

  lemma {:induction false} FieldsSpell(ns: D.Nodes)
    ensures J.SpellFields(FieldsOf(ns)) == D.JsonFields(ns)
    decreases ns, 1
  {
    var f := FieldsOf(ns);
    PiecesSpell(ns.name);
    ItemSpells(ns.value);
    if ns.More? { FieldsSpell(ns.rest); }
    var tail := if ns.More? then "," + D.JsonFields(ns.rest) else "}";
    assert J.FieldsTail(f) == tail;
    assert J.SpellRest(f) == "" + (D.JsonValue(ns.value) + ("" + tail));
    FieldGlue(ns.name, D.JsonValue(ns.value), tail);
  }

  lemma FieldGlue(name: string, value: string, tail: string)
    ensures ("" + (G.Quoted(name) + ("" + ":"))) + ("" + (value + ("" + tail)))
         == "\"" + (name + ("\":" + (value + tail)))
  {
    assert G.Quoted(name) == "\"" + name + "\"";
    assert "\"" + ":" == "\":";
  }

  lemma {:induction false} ItemSpells(v: D.Value)
    ensures J.Spell(SyntaxOf(v)) == D.JsonValue(v)
    decreases v, 0
  {
    match v
    case Atom(text) =>
      PiecesSpell(text);
      assert G.Quoted(text) == "\"" + (text + "\"");
    case Nested(nodes) => FieldsSpell(nodes);
  }

  // The JSON text of a descriptor denotes its tree, with every word read as the
  // body of a JSON string.
  lemma JsonDenotesDescriptor(ns: D.Nodes, whole: bool)
    requires Literals(ns)
    ensures JsonParser.Parse(D.Json(ns), whole) == Ok(Object(MembersOf(Read(ns))), |D.Json(ns)|)
  {
    var v := J.ObjectOf(FieldsOf(ns));
    FieldsMean(ns);
    FieldsSpell(ns);
    JsonAccepts.TextAccepts("", v, "", whole);
    assert "" + (D.Json(ns) + "") == D.Json(ns);
  }

  // Render, scan, parse: the whole way from descriptor text to JSON tree. It gives
  // the descriptor back exactly if no word has a backslash.
  lemma DescriptorIsRead(ns: D.Nodes, whole: bool)
    requires D.Legible(ns) && Literals(ns)
    ensures var s := D.Scanned(D.Render(ns), |D.Render(ns)|);
            && JsonParser.Parse(s, whole) == Ok(Object(MembersOf(Read(ns))), |s|)
            && (JsonParser.Parse(s, whole) == Ok(Object(MembersOf(ns)), |s|) <==> PlainWords(ns))
  {
    D.ScanIsJson(ns);
    JsonDenotesDescriptor(ns, whole);
    ReadKeepsPlain(ns);
    if MembersOf(Read(ns)) == MembersOf(ns) { MembersDetermineNodes(Read(ns), ns); }
  }

  lemma DescriptorIsPreserved(ns: D.Nodes, whole: bool)
    requires D.Legible(ns) && PlainWords(ns)
    ensures var s := D.Scanned(D.Render(ns), |D.Render(ns)|);
            JsonParser.Parse(s, whole) == Ok(Object(MembersOf(ns)), |s|)
  {
    PlainWordsAreLiterals(ns);
    DescriptorIsRead(ns, whole);
  }

  // Two descriptors with the same JSON text are the same.
  lemma TranslationIsInjective(a: D.Nodes, b: D.Nodes)
    requires D.Legible(a) && PlainWords(a) && D.Legible(b) && PlainWords(b)
    requires D.Scanned(D.Render(a), |D.Render(a)|) == D.Scanned(D.Render(b), |D.Render(b)|)
    ensures a == b
  {
    DescriptorIsPreserved(a, false);
    DescriptorIsPreserved(b, false);
    MembersDetermineNodes(a, b);
  }

  lemma {:induction false} MembersDetermineNodes(a: D.Nodes, b: D.Nodes)
    requires MembersOf(a) == MembersOf(b)
    ensures a == b
    decreases a
  {
    if a.value.Nested? { MembersDetermineNodes(a.value.nodes, b.value.nodes); }
    if a.More? { MembersDetermineNodes(a.rest, b.rest); }
  }
}
