// String literals as pieces: the syntax of section 7 of RFC 8259 and what this
// parser takes beyond it, and what each sequence of pieces denotes to it.
module StringGrammar {
  import opened CString
  import opened Outcome
  import opened Utf8
  import opened StringLiteral

  datatype Piece = Plain(c: char) | Short(c: char) | Hex(h0: char, h1: char, h2: char, h3: char)

  // What the parser takes. Plain also covers the control characters 1..31, Short
  // any char but u after the backslash, and Hex four chars of which only the
  // first need be a hex digit: RFC 8259 has none of these.
  predicate ValidPiece(p: Piece) {
    match p
    case Plain(c) => c != QUOTE && c != SLASH && c != '\0'
    case Short(c) => c != 'u' && c != '\0'
    case Hex(h0, h1, h2, h3) => Scans(h0, h1, h2, h3)
  }

  // What RFC 8259 has.
  predicate ProperPiece(p: Piece) {
    match p
    case Plain(c) => c != QUOTE && c != SLASH && c > 31 as char
    case Short(c) => c in "\"\\/bfnrt"
    case Hex(h0, h1, h2, h3) => IsHex(h0) && IsHex(h1) && IsHex(h2) && IsHex(h3)
  }

  predicate ProperPieces(ps: seq<Piece>) {
    forall k :: 0 <= k < |ps| ==> ProperPiece(ps[k])
  }

  predicate ValidPieces(ps: seq<Piece>) {
    forall k :: 0 <= k < |ps| ==> ValidPiece(ps[k])
  }

  function SpellPiece(p: Piece): string {
    match p
    case Plain(c) => [c]
    case Short(c) => [SLASH, c]
    case Hex(h0, h1, h2, h3) => [SLASH, 'u', h0, h1, h2, h3]
  }

  function Spell(ps: seq<Piece>): string {
    if ps == [] then "" else SpellPiece(ps[0]) + Spell(ps[1..])
  }

  function Unit(p: Piece): (u: nat)
    requires p.Hex? && ValidPiece(p)
    ensures u < 0x10000
  {
    ScanHex(p.h0, p.h1, p.h2, p.h3)
  }

  // The bytes the first piece leaves, and how many pieces it uses up. An escape
  // that is no scalar value by itself and starts no surrogate pair leaves
  // nothing, and an unpaired high surrogate also uses up a \u escape after it.
  function First(ps: seq<Piece>): (r: (string, nat))
    requires ps != [] && ValidPieces(ps)
    ensures 1 <= r.1 <= |ps|
  {
    match ps[0]
    case Plain(c) => ([c], 1)
    case Short(c) => ([Unescaped(c)], 1)
    case Hex(_, _, _, _) =>
      var u := Unit(ps[0]);
      if IsHighSurrogate(u) && 1 < |ps| && ps[1].Hex? then
        (if IsLowSurrogate(Unit(ps[1])) then Encode(Join(u, Unit(ps[1]))) else "", 2)
      else
        (if u == 0 || !IsScalar(u) then "" else Encode(u), 1)
  }

  // The text a literal denotes.
  function Meaning(ps: seq<Piece>): string
    requires ValidPieces(ps)
  {
    if ps == [] then "" else First(ps).0 + Meaning(ps[First(ps).1..])
  }

  lemma SpellFirst(s: string, i: nat, ps: seq<Piece>)
    requires ps != [] && Occurs(s, i, Spell(ps))
    ensures Occurs(s, i, SpellPiece(ps[0]))
    ensures Occurs(s, i + |SpellPiece(ps[0])|, Spell(ps[1..]))
  {
    OccursSplit(s, i, SpellPiece(ps[0]), Spell(ps[1..]));
  }

  lemma HexAt(s: string, i: nat, p: Piece)
    requires p.Hex? && ValidPiece(p) && Occurs(s, i, SpellPiece(p))
    ensures s[i] == SLASH && s[i + 1] == 'u'
    ensures ReadHex(s, i + 2) == Some(Unit(p))
  {
    var y := SpellPiece(p);
    assert y[0] == SLASH && y[1] == 'u' && y[2] == p.h0 && y[3] == p.h1 && y[4] == p.h2 && y[5] == p.h3;
  }

  lemma ShortAt(s: string, i: nat, p: Piece)
    requires !p.Hex? && ValidPiece(p) && Occurs(s, i, SpellPiece(p))
    ensures p.Plain? ==> s[i] == p.c
    ensures p.Short? ==> s[i] == SLASH && s[i + 1] == p.c
  {
    OccursAt(s, i, SpellPiece(p), 0);
    if p.Short? { OccursAt(s, i, SpellPiece(p), 1); }
  }

  // What follows an escape never looks like a \u escape unless it is one.
  lemma NextEscape(s: string, i: nat, ps: seq<Piece>)
    requires ValidPieces(ps) && Occurs(s, i, Spell(ps))
    requires AtEnd(s, i + |Spell(ps)|)
    ensures (Peek(s, i) == SLASH && Peek(s, i + 1) == 'u') <==> (ps != [] && ps[0].Hex?)
  {
    if ps != [] {
      SpellFirst(s, i, ps);
      if ps[0].Hex? { HexAt(s, i, ps[0]); } else { ShortAt(s, i, ps[0]); }
    }
  }

  // The escape at i leaves what its pieces say, and the text goes on with the others.
  predicate Escaped(s: string, i: nat, ps: seq<Piece>)
    requires ValidPieces(ps) && ps != []
  {
    && i < |s| && s[i] == SLASH && EscapeAt(s, i).Some?
    && var (y, j) := EscapeAt(s, i).value;
       var rest := ps[First(ps).1..];
       y == First(ps).0 && Occurs(s, j, Spell(rest)) && j + |Spell(rest)| == i + |Spell(ps)|
  }

  lemma ShortAccepts(s: string, i: nat, ps: seq<Piece>)
    requires ValidPieces(ps) && ps != [] && ps[0].Short? && Occurs(s, i, Spell(ps))
    ensures Escaped(s, i, ps)
  {
    SpellFirst(s, i, ps);
    ShortAt(s, i, ps[0]);
  }

  // An escape that is no pair with the next one.
  lemma LoneAccepts(s: string, i: nat, ps: seq<Piece>)
    requires ValidPieces(ps) && ps != [] && ps[0].Hex? && Occurs(s, i, Spell(ps))
    requires !(IsHighSurrogate(Unit(ps[0])) && Peek(s, i + 6) == SLASH && Peek(s, i + 7) == 'u')
    requires !(IsHighSurrogate(Unit(ps[0])) && 1 < |ps| && ps[1].Hex?)
    ensures Escaped(s, i, ps)
  {
    SpellFirst(s, i, ps);
    HexAt(s, i, ps[0]);
  }

  // A high surrogate and the escape after it.
  lemma TwoAccept(s: string, i: nat, ps: seq<Piece>)
    requires ValidPieces(ps) && 1 < |ps| && ps[0].Hex? && ps[1].Hex? && Occurs(s, i, Spell(ps))
    requires IsHighSurrogate(Unit(ps[0]))
    ensures Escaped(s, i, ps)
  {
    SpellFirst(s, i, ps);
    HexAt(s, i, ps[0]);
    PairAccepts(s, i, ps);
  }

  // One escape in the text is decoded as its pieces say.
  lemma EscapeAccepts(s: string, i: nat, ps: seq<Piece>)
    requires ValidPieces(ps) && ps != [] && !ps[0].Plain? && Occurs(s, i, Spell(ps))
    requires AtEnd(s, i + |Spell(ps)|)
    ensures Escaped(s, i, ps)
  {
    if ps[0].Short? {
      ShortAccepts(s, i, ps);
    } else {
      SpellFirst(s, i, ps);
      NextEscape(s, i + 6, ps[1..]);
      if IsHighSurrogate(Unit(ps[0])) && 1 < |ps| && ps[1].Hex? { TwoAccept(s, i, ps); } else { LoneAccepts(s, i, ps); }
    }
  }

  lemma PairAccepts(s: string, i: nat, ps: seq<Piece>)
    requires ValidPieces(ps) && 1 < |ps| && ps[0].Hex? && ps[1].Hex?
    requires Occurs(s, i + 6, Spell(ps[1..]))
    ensures Peek(s, i + 6) == SLASH && Peek(s, i + 7) == 'u'
    ensures ReadHex(s, i + 8) == Some(Unit(ps[1]))
    ensures Occurs(s, i + 12, Spell(ps[2..]))
    ensures |Spell(ps)| == 12 + |Spell(ps[2..])|
  {
    SpellFirst(s, i + 6, ps[1..]);
    HexAt(s, i + 6, ps[1]);
    assert ps[1..][1..] == ps[2..];
  }

  // The pieces stand from i to end, where a quote or the terminator stands.
  predicate PiecesStand(s: string, i: nat, ps: seq<Piece>, end: nat) {
    ValidPieces(ps) && Occurs(s, i, Spell(ps)) && end == i + |Spell(ps)| && AtEnd(s, end)
  }

  lemma EscapeOpens(s: string, i: nat, ps: seq<Piece>, end: nat) returns (j: nat, rest: seq<Piece>)
    requires PiecesStand(s, i, ps, end) && ps != [] && !ps[0].Plain?
    ensures ValidPieces(ps) && i < |s| && s[i] == SLASH && EscapeAt(s, i) == Some((First(ps).0, j))
    ensures |rest| < |ps| && PiecesStand(s, j, rest, end) && Meaning(ps) == First(ps).0 + Meaning(rest)
  {
    EscapeAccepts(s, i, ps);
    j, rest := EscapeAt(s, i).value.1, ps[First(ps).1..];
  }

  lemma PlainOpens(s: string, i: nat, ps: seq<Piece>, end: nat) returns (rest: seq<Piece>)
    requires PiecesStand(s, i, ps, end) && ps != [] && ps[0].Plain?
    ensures ValidPieces(ps) && i < |s| && !AtEnd(s, i) && s[i] != SLASH
    ensures |rest| < |ps| && PiecesStand(s, i + 1, rest, end) && Meaning(ps) == [s[i]] + Meaning(rest)
  {
    SpellFirst(s, i, ps);
    ShortAt(s, i, ps[0]);
    rest := ps[1..];
  }

  // Every literal of the grammar is decoded to its meaning, up to its closing
  // quote or the terminator.
  lemma {:induction false} DecodeAccepts(s: string, i: nat, ps: seq<Piece>, end: nat)
    requires PiecesStand(s, i, ps, end)
    ensures Decode(s, i) == Ok(Meaning(ps), end)
    decreases |ps|
  {
    if ps == [] { return; }
    if ps[0].Plain? {
      var rest := PlainOpens(s, i, ps, end);
      DecodeAccepts(s, i + 1, rest, end);
      CharDecodes(s, i, Meaning(rest), end);
    } else {
      var j, rest := EscapeOpens(s, i, ps, end);
      DecodeAccepts(s, j, rest, end);
      EscapeDecodes(s, i, First(ps).0, j, Meaning(rest), end);
    }
  }

  // The chars behind \u are ordinary ones to the sizing pass.
  predicate SteadyPiece(p: Piece) {
    p.Hex? ==> p.h1 != QUOTE && p.h1 != SLASH && p.h2 != QUOTE && p.h2 != SLASH && p.h3 != QUOTE && p.h3 != SLASH
  }

  predicate Steady(ps: seq<Piece>) {
    forall k :: 0 <= k < |ps| ==> SteadyPiece(ps[k])
  }

  lemma ProperIsSteady(ps: seq<Piece>)
    requires ProperPieces(ps)
    ensures ValidPieces(ps) && Steady(ps)
  {
  }

  lemma SteadyHex(s: string, i: nat, p: Piece)
    requires p.Hex? && ValidPiece(p) && SteadyPiece(p) && Occurs(s, i, SpellPiece(p))
    ensures Ordinary(s, i + 2)
  {
    var y := SpellPiece(p);
    assert y[2] == p.h0 && y[3] == p.h1 && y[4] == p.h2 && y[5] == p.h3;
  }

  lemma {:induction false} SteadyInStep(s: string, i: nat, ps: seq<Piece>)
    requires ValidPieces(ps) && Steady(ps) && Occurs(s, i, Spell(ps)) && AtEnd(s, i + |Spell(ps)|)
    ensures InStep(s, i)
    decreases |ps|
  {
    if ps == [] { return; }
    SpellFirst(s, i, ps);
    if ps[0].Plain? {
      ShortAt(s, i, ps[0]);
      SteadyInStep(s, i + 1, ps[1..]);
    } else {
      EscapeAccepts(s, i, ps);
      SteadyInStep(s, EscapeAt(s, i).value.1, ps[First(ps).1..]);
      SteadyEscape(s, i, ps);
    }
  }

  lemma SteadyEscape(s: string, i: nat, ps: seq<Piece>)
    requires ValidPieces(ps) && Steady(ps) && ps != [] && !ps[0].Plain? && Occurs(s, i, Spell(ps)) && Escaped(s, i, ps)
    ensures s[i + 1] == 'u' ==> Ordinary(s, i + 2)
    ensures EscapeAt(s, i).value.1 == i + 12 ==> Ordinary(s, i + 8)
  {
    SpellFirst(s, i, ps);
    if ps[0].Short? {
      ShortAt(s, i, ps[0]);
    } else {
      HexAt(s, i, ps[0]);
      SteadyHex(s, i, ps[0]);
      if EscapeAt(s, i).value.1 == i + 12 {
        SecondHex(s, i, ps);
        SpellFirst(s, i + 6, ps[1..]);
        SteadyHex(s, i + 6, ps[1]);
      }
    }
  }

  // An escape that takes twelve chars takes two pieces.
  lemma SecondHex(s: string, i: nat, ps: seq<Piece>)
    requires ValidPieces(ps) && ps != [] && ps[0].Hex? && Occurs(s, i, Spell(ps)) && Escaped(s, i, ps)
    requires EscapeAt(s, i).value.1 == i + 12
    ensures 1 < |ps| && ps[1].Hex?
  {
    assert |Spell(ps)| == 6 + |Spell(ps[1..])|;
  }

  // The pieces behind the quote at i denote a text that fits the buffer counted.
  predicate Fits(s: string, i: nat, ps: seq<Piece>)
    requires ValidPieces(ps)
  {
    i < |s| && Sized(s, i + 1, Meaning(ps))
  }

  lemma SteadyFits(s: string, i: nat, ps: seq<Piece>)
    requires i < |s| && ValidPieces(ps) && Steady(ps) && Occurs(s, i + 1, Spell(ps)) && AtEnd(s, i + 1 + |Spell(ps)|)
    ensures Fits(s, i, ps)
  {
    DecodeAccepts(s, i + 1, ps, i + 1 + |Spell(ps)|);
    SteadyInStep(s, i + 1, ps);
    PassesAgree(s, i + 1);
  }

  function Quoted(body: string): string {
    [QUOTE] + body + [QUOTE]
  }

  lemma QuotedParts(s: string, i: nat, y: string)
    requires Occurs(s, i, Quoted(y))
    ensures i < |s| && s[i] == QUOTE && Occurs(s, i + 1, y) && Peek(s, i + 1 + |y|) == QUOTE
  {
    var q := [QUOTE];
    OccursSplit(s, i, q + y, q);
    OccursSplit(s, i, q, y);
    OccursAt(s, i, q, 0);
    OccursAt(s, i + 1 + |y|, q, 0);
  }

  // A literal whose text fits is read to its quote with its meaning.
  lemma StringAccepts(s: string, i: nat, ps: seq<Piece>)
    requires ValidPieces(ps) && Occurs(s, i, Quoted(Spell(ps)))
    ensures Steady(ps) ==> Fits(s, i, ps)
    ensures StringAt(s, i) == if Fits(s, i, ps) then Ok(Meaning(ps), i + |Spell(ps)| + 2) else Undefined
  {
    var stop := i + 1 + |Spell(ps)|;
    QuotedParts(s, i, Spell(ps));
    DecodeAccepts(s, i + 1, ps, i + 1 + |Spell(ps)|);
    StringDecoded(s, i, Meaning(ps), stop);
    if Steady(ps) { SteadyFits(s, i, ps); }
  }

  lemma StringDecoded(s: string, i: nat, y: string, stop: nat)
    requires i < |s| && s[i] == QUOTE && Decode(s, i + 1) == Ok(y, stop) && stop <= |s|
    ensures StringAt(s, i) ==
            if Sized(s, i + 1, y) then Ok(y, if Peek(s, stop) == QUOTE then stop + 1 else stop) else Undefined
  {
  }

  // So is one that the end of the text cuts off.
  lemma UnclosedAccepts(s: string, i: nat, ps: seq<Piece>)
    requires ValidPieces(ps) && i < |s| && s[i] == QUOTE && Occurs(s, i + 1, Spell(ps))
    requires Peek(s, i + 1 + |Spell(ps)|) == '\0'
    ensures Steady(ps) ==> Fits(s, i, ps)
    ensures StringAt(s, i) == if Fits(s, i, ps) then Ok(Meaning(ps), i + 1 + |Spell(ps)|) else Undefined
  {
    DecodeAccepts(s, i + 1, ps, i + 1 + |Spell(ps)|);
    StringDecoded(s, i, Meaning(ps), i + 1 + |Spell(ps)|);
    if Steady(ps) { SteadyFits(s, i, ps); }
  }

  function HexDigit(n: nat): (c: char)
    requires n < 16
    ensures IsHex(c) && HexValue(c) == n && c == "0123456789abcdef"[n]
  {
    if n < 10 then ('0' as int + n) as char else ('a' as int + n - 10) as char
  }

  function HexPiece(u: nat): (p: Piece)
    requires u < 0x10000
    ensures p.Hex? && ValidPiece(p) && ProperPiece(p) && Unit(p) == u
  {
    Hex(HexDigit(u / 16 / 16 / 16), HexDigit(u / 16 / 16 % 16), HexDigit(u / 16 % 16), HexDigit(u % 16))
  }
}
