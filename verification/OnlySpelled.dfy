// The parser accepts nothing else: whatever it reads is spelled by the grammar,
// stands up to the position it returns, and means the value it returns.
module OnlySpelled {
  import opened CString
  import opened Outcome
  import opened JsonTree
  import opened JsonParser
  import opened JsonGrammar
  import L = StringLiteral
  import G = StringGrammar
  import N = JsonNumber
  import Utf8

  lemma {:induction false} SkippedIsBlank(s: string, i: nat)
    requires i <= |s|
    ensures Blanks(s[i..Skip(s, i)])
    decreases |s| - i
  {
    if i < |s| && IsBlank(s[i]) {
      SkippedIsBlank(s, i + 1);
      assert s[i..Skip(s, i)] == [s[i]] + s[i + 1..Skip(s, i)];
    }
  }

  lemma SliceOccurs(s: string, i: nat, j: nat)
    requires i <= j <= |s|
    ensures Occurs(s, i, s[i..j])
  {
  }

  lemma CharOccurs(s: string, i: nat)
    requires i < |s|
    ensures Occurs(s, i, [s[i]])
  {
  }

  // The field that ReadHex found is a piece.
  lemma HexStands(s: string, i: nat) returns (p: G.Piece)
    requires i + 1 < |s| && s[i] == L.SLASH && s[i + 1] == 'u' && L.ReadHex(s, i + 2).Some?
    ensures p.Hex? && G.ValidPiece(p) && G.Unit(p) == L.ReadHex(s, i + 2).value && Occurs(s, i, G.SpellPiece(p))
  {
    p := G.Hex(s[i + 2], s[i + 3], s[i + 4], s[i + 5]);
    assert s[i..i + 6] == G.SpellPiece(p);
  }

  // Pieces ps stand at i, end where decoding stops, and mean what it gives.
  predicate Decoded(s: string, i: nat, ps: seq<G.Piece>)
    requires i <= |s|
  {
    && L.Decode(s, i).Ok? && G.ValidPieces(ps) && Occurs(s, i, G.Spell(ps))
    && i + |G.Spell(ps)| == L.Decode(s, i).next && G.Meaning(ps) == L.Decode(s, i).value
  }

  lemma PieceThenRest(s: string, i: nat, p: G.Piece, rest: seq<G.Piece>)
    requires Occurs(s, i, G.SpellPiece(p)) && Occurs(s, i + |G.SpellPiece(p)|, G.Spell(rest))
    ensures Occurs(s, i, G.Spell([p] + rest))
    ensures |G.Spell([p] + rest)| == |G.SpellPiece(p)| + |G.Spell(rest)|
  {
    assert ([p] + rest)[1..] == rest;
    OccursJoin(s, i, G.SpellPiece(p), G.Spell(rest));
  }

  lemma PlainDecoded(s: string, i: nat, rest: seq<G.Piece>)
    requires i < |s| && !L.AtEnd(s, i) && s[i] != L.SLASH && Decoded(s, i + 1, rest)
    ensures Decoded(s, i, [G.Plain(s[i])] + rest)
  {
    CharOccurs(s, i);
    PieceThenRest(s, i, G.Plain(s[i]), rest);
    assert ([G.Plain(s[i])] + rest)[1..] == rest;
  }

  lemma ShortDecoded(s: string, i: nat, rest: seq<G.Piece>)
    requires i + 1 < |s| && s[i] == L.SLASH && s[i + 1] != 'u' && s[i + 1] != '\0' && Decoded(s, i + 2, rest)
    ensures Decoded(s, i, [G.Short(s[i + 1])] + rest)
  {
    var p := G.Short(s[i + 1]);
    assert s[i..i + 2] == G.SpellPiece(p);
    PieceThenRest(s, i, p, rest);
    assert ([p] + rest)[1..] == rest;
  }

  // What stands at i is no \u escape.
  predicate NoHex(s: string, i: nat)
    requires i <= |s|
  {
    Peek(s, i) != L.SLASH || Peek(s, i + 1) != 'u'
  }

  lemma NoHexPiece(s: string, i: nat, ps: seq<G.Piece>)
    requires i <= |s| && NoHex(s, i) && G.ValidPieces(ps) && Occurs(s, i, G.Spell(ps))
    ensures ps != [] ==> !ps[0].Hex?
  {
    if ps != [] && ps[0].Hex? {
      G.SpellFirst(s, i, ps);
      G.HexAt(s, i, ps[0]);
    }
  }

  // One \u escape that is no pair with the next.
  lemma LoneDecoded(s: string, i: nat, rest: seq<G.Piece>) returns (p: G.Piece)
    requires i + 1 < |s| && s[i] == L.SLASH && s[i + 1] == 'u' && L.ReadHex(s, i + 2).Some?
    requires Utf8.IsHighSurrogate(L.ReadHex(s, i + 2).value) ==> NoHex(s, i + 6)
    requires Decoded(s, i + 6, rest)
    ensures Decoded(s, i, [p] + rest)
  {
    p := HexStands(s, i);
    PieceThenRest(s, i, p, rest);
    var ps := [p] + rest;
    assert ps[1..] == rest;
    if Utf8.IsHighSurrogate(G.Unit(p)) {
      NoHexPiece(s, i + 6, rest);
      assert rest != [] ==> ps[1] == rest[0];
    }
  }

  // A high surrogate and the escape after it.
  lemma TwoDecoded(s: string, i: nat, rest: seq<G.Piece>) returns (p: G.Piece, q: G.Piece)
    requires i + 7 < |s| && s[i] == L.SLASH && s[i + 1] == 'u' && L.ReadHex(s, i + 2).Some?
    requires s[i + 6] == L.SLASH && s[i + 7] == 'u' && L.ReadHex(s, i + 8).Some?
    requires Utf8.IsHighSurrogate(L.ReadHex(s, i + 2).value) && Decoded(s, i + 12, rest)
    ensures Decoded(s, i, [p] + ([q] + rest))
  {
    p := HexStands(s, i);
    q := HexStands(s, i + 6);
    PieceThenRest(s, i + 6, q, rest);
    PieceThenRest(s, i, p, [q] + rest);
    var ps := [p] + ([q] + rest);
    assert ps[1] == q && ps[2..] == rest;
  }

  lemma {:induction false} StringSpelled(s: string, i: nat) returns (ps: seq<G.Piece>)
    requires i <= |s| && L.Decode(s, i).Ok?
    ensures Decoded(s, i, ps)
    decreases |s| - i
  {
    if L.AtEnd(s, i) {
      ps := [];
    } else if s[i] != L.SLASH {
      var rest := StringSpelled(s, i + 1);
      PlainDecoded(s, i, rest);
      ps := [G.Plain(s[i])] + rest;
    } else {
      var next := L.EscapeAt(s, i).value.1;
      var rest := StringSpelled(s, next);
      if s[i + 1] != 'u' {
        ShortDecoded(s, i, rest);
        ps := [G.Short(s[i + 1])] + rest;
      } else if next == i + 6 {
        var p := LoneDecoded(s, i, rest);
        ps := [p] + rest;
      } else {
        var p, q := TwoDecoded(s, i, rest);
        ps := [p] + ([q] + rest);
      }
    }
  }

  lemma ClosedStands(s: string, i: nat, ps: seq<G.Piece>)
    requires i < |s| && s[i] == L.QUOTE && G.ValidPieces(ps) && Occurs(s, i + 1, G.Spell(ps))
    requires Peek(s, i + 1 + |G.Spell(ps)|) == L.QUOTE && G.Fits(s, i, ps)
    ensures Stands(s, i, Literal(ps), i + |G.Spell(ps)| + 2)
  {
    CharOccurs(s, i);
    OccursJoin(s, i, [L.QUOTE], G.Spell(ps));
    CharOccurs(s, i + 1 + |G.Spell(ps)|);
    OccursJoin(s, i, [L.QUOTE] + G.Spell(ps), [L.QUOTE]);
  }

  lemma UnclosedStands(s: string, i: nat, ps: seq<G.Piece>)
    requires i < |s| && s[i] == L.QUOTE && G.ValidPieces(ps) && Occurs(s, i + 1, G.Spell(ps))
    requires Peek(s, i + 1 + |G.Spell(ps)|) == '\0' && G.Fits(s, i, ps)
    ensures Stands(s, i, Unclosed(ps), i + |G.Spell(ps)| + 1)
  {
    CharOccurs(s, i);
    OccursJoin(s, i, [L.QUOTE], G.Spell(ps));
  }

  lemma LiteralSpelled(s: string, i: nat) returns (v: Syntax)
    requires i <= |s| && L.StringAt(s, i).Ok?
    ensures (v.Literal? || v.Unclosed?) && Stands(s, i, v, L.StringAt(s, i).next)
    ensures Meaning(v) == String(L.StringAt(s, i).value)
  {
    var ps := StringSpelled(s, i + 1);
    if Peek(s, i + 1 + |G.Spell(ps)|) == L.QUOTE {
      ClosedStands(s, i, ps);
      v := Literal(ps);
    } else {
      UnclosedStands(s, i, ps);
      v := Unclosed(ps);
    }
  }

  lemma FractionSpelled(s: string, c: nat)
    requires c <= |s|
    ensures Occurs(s, c, N.SpellFraction(N.FractionDigits(s, c)))
    ensures N.FractionEnd(s, c) == c + |N.SpellFraction(N.FractionDigits(s, c))|
    ensures N.FractionStops(s, N.FractionEnd(s, c), N.FractionDigits(s, c))
  {
    var d := N.FractionEnd(s, c);
    if d != c {
      CharOccurs(s, c);
      SliceOccurs(s, c + 1, d);
      OccursJoin(s, c, ".", s[c + 1..d]);
    }
  }

  lemma ExponentSpelled(s: string, d: nat) returns (e: Option<N.Exponent>)
    requires d <= |s|
    ensures e.Some? ==> N.ValidExponent(e.value)
    ensures N.ExponentStops(s, N.ExponentAt(s, d).1, e)
    ensures Occurs(s, d, N.SpellExponent(e)) && N.ExponentAt(s, d).1 == d + |N.SpellExponent(e)|
    ensures N.ExponentAt(s, d).0 == N.Power(e)
  {
    e := None;
    if N.HasExponent(s, d) {
      var a, f := N.ExponentStart(s, d), N.ExponentAt(s, d).1;
      e := Some(N.Exponent(s[d], s[d + 1..a], s[a..f]));
      CharOccurs(s, d);
      SliceOccurs(s, d + 1, a);
      SliceOccurs(s, a, f);
      OccursJoin(s, d + 1, s[d + 1..a], s[a..f]);
      OccursJoin(s, d, [s[d]], s[d + 1..a] + s[a..f]);
    }
  }

  // The sign, the zero and the digits before the point.
  lemma StartSpelled(s: string, i: nat) returns (n: N.Numeral)
    requires i < |s| && (s[i] == '-' || N.IsDigit(s[i]))
    ensures var a := if s[i] == '-' then i + 1 else i;
            && N.ValidNumeral(n) && n.fraction == "" && n.exponent == None && n.negative == (s[i] == '-')
            && n.whole == N.WholeDigits(s, a) && Occurs(s, i, N.SpellStart(n))
            && N.WholeEnd(s, a) == i + |N.SpellStart(n)| && N.WholeStops(s, N.WholeEnd(s, a), n)
  {
    var a := if s[i] == '-' then i + 1 else i;
    var b, c := N.WholeStart(s, a), N.WholeEnd(s, a);
    n := N.Numeral(s[i] == '-', Peek(s, a) == '0', s[b..c], "", None);
    SliceOccurs(s, b, c);
    assert Occurs(s, a, N.SpellZero(n)) && Occurs(s, i, N.SpellSign(n));
    OccursJoin(s, a, N.SpellZero(n), s[b..c]);
    OccursJoin(s, i, N.SpellSign(n), N.SpellZero(n) + s[b..c]);
  }

  // What NumberAt reads, part by part.
  lemma NumberParts(s: string, i: nat, a: nat, c: nat, f: string, d: nat)
    requires i < |s| && (s[i] == '-' || N.IsDigit(s[i])) && a == (if s[i] == '-' then i + 1 else i)
    requires c == N.WholeEnd(s, a) && f == N.FractionDigits(s, c) && d == N.FractionEnd(s, c)
    ensures d <= |s| && N.NumberAt(s, i).next == N.ExponentAt(s, d).1
    ensures N.NumberAt(s, i).exponent == N.ExponentAt(s, d).0 - |f|
    ensures N.NumberAt(s, i).mantissa == N.Signed(s[i] == '-', N.Value(N.WholeDigits(s, a) + f))
  {
  }

  // The parts of a numeral stand one after the other, stop where the next one
  // starts, and make up the number.
  predicate PartsStand(s: string, i: nat, number: N.Number, n: N.Numeral, c: nat, d: nat) {
    && N.ValidNumeral(n)
    && Occurs(s, i, N.SpellStart(n)) && c == i + |N.SpellStart(n)| && N.WholeStops(s, c, n)
    && Occurs(s, c, N.SpellFraction(n.fraction)) && d == c + |N.SpellFraction(n.fraction)|
    && N.FractionStops(s, d, n.fraction)
    && Occurs(s, d, N.SpellExponent(n.exponent)) && number.next == d + |N.SpellExponent(n.exponent)|
    && N.ExponentStops(s, number.next, n.exponent)
    && number.mantissa == N.Mantissa(n) && number.exponent == N.Scale(n)
  }

  lemma PartsRead(s: string, i: nat, number: N.Number) returns (n: N.Numeral, c: nat, d: nat)
    requires i < |s| && (s[i] == '-' || N.IsDigit(s[i])) && number == N.NumberAt(s, i)
    ensures PartsStand(s, i, number, n, c, d)
  {
    var start := StartSpelled(s, i);
    c := i + |N.SpellStart(start)|;
    var f := N.FractionDigits(s, c);
    d := N.FractionEnd(s, c);
    NumberParts(s, i, if s[i] == '-' then i + 1 else i, c, f, d);
    FractionSpelled(s, c);
    var e := ExponentSpelled(s, d);
    n := start.(fraction := f, exponent := e);
  }

  // The parts put together.
  lemma NumeralJoined(s: string, i: nat, number: N.Number, n: N.Numeral, c: nat, d: nat) returns (v: Syntax)
    requires PartsStand(s, i, number, n, c, d)
    ensures v.Numeral? && Stands(s, i, v, number.next) && Meaning(v) == Number(number.mantissa, number.exponent)
  {
    PartsOccur(s, i, n, c, d);
    NumeralStands(s, i, n, number.next);
    v := Numeral(n);
  }

  lemma PartsOccur(s: string, i: nat, n: N.Numeral, c: nat, d: nat)
    requires Occurs(s, i, N.SpellStart(n)) && c == i + |N.SpellStart(n)|
    requires Occurs(s, c, N.SpellFraction(n.fraction)) && d == c + |N.SpellFraction(n.fraction)|
    requires Occurs(s, d, N.SpellExponent(n.exponent))
    ensures Occurs(s, i, N.SpellNumeral(n)) && |N.SpellNumeral(n)| == d - i + |N.SpellExponent(n.exponent)|
  {
    OccursJoin(s, c, N.SpellFraction(n.fraction), N.SpellExponent(n.exponent));
    OccursJoin(s, i, N.SpellStart(n), N.SpellFraction(n.fraction) + N.SpellExponent(n.exponent));
  }

  lemma NumeralStands(s: string, i: nat, m: N.Numeral, end: nat)
    requires N.ValidNumeral(m) && Occurs(s, i, N.SpellNumeral(m)) && end == i + |N.SpellNumeral(m)|
    requires N.Stops(s, end, m)
    ensures Stands(s, i, Numeral(m), end) && Meaning(Numeral(m)) == Number(N.Mantissa(m), N.Scale(m))
  {
  }

  lemma NumberSpelled(s: string, i: nat) returns (v: Syntax)
    requires i < |s| && (s[i] == '-' || N.IsDigit(s[i]))
    ensures v.Numeral? && Stands(s, i, v, N.NumberAt(s, i).next)
    ensures Meaning(v) == Number(N.NumberAt(s, i).mantissa, N.NumberAt(s, i).exponent)
  {
    var number := N.NumberAt(s, i);
    var n, c, d := PartsRead(s, i, number);
    v := NumeralJoined(s, i, number, n, c, d);
  }

  lemma LeafSpelled(s: string, i: nat) returns (v: Syntax)
    requires i <= |s| && LeafAt(s, i).Ok?
    ensures Stands(s, i, v, LeafAt(s, i).next) && Meaning(v) == LeafAt(s, i).value
  {
    if Occurs(s, i, "null") {
      v := NullWord;
    } else if Occurs(s, i, "false") {
      v := FalseWord;
    } else if Occurs(s, i, "true") {
      v := TrueWord;
    } else if Peek(s, i) == L.QUOTE {
      v := LiteralSpelled(s, i);
    } else {
      v := NumberSpelled(s, i);
    }
  }
}
