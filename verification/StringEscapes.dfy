// What becomes of one \u escape among any others: when it is written as its
// UTF-8 text, and when it disappears.
module StringEscapes {
  import opened CString
  import opened Outcome
  import opened Utf8
  import opened StringLiteral
  import opened StringGrammar

  predicate IsHighPiece(p: Piece)
    requires ValidPiece(p)
  {
    p.Hex? && IsHighSurrogate(Unit(p))
  }

  // The escape at k is read as the second half of a pair: an odd run of
  // high-surrogate escapes stands right before it.
  predicate Swallowed(ps: seq<Piece>, k: nat)
    requires ValidPieces(ps) && k < |ps|
    decreases k
  {
    k > 0 && ps[k].Hex? && IsHighPiece(ps[k - 1]) && !Swallowed(ps, k - 1)
  }

  // Where reading the pieces from the left begins a new one.
  predicate Begins(ps: seq<Piece>, k: nat)
    requires ValidPieces(ps) && k <= |ps|
  {
    k == |ps| || !Swallowed(ps, k)
  }

  lemma SwallowedInTail(ps: seq<Piece>, n: nat, k: nat)
    requires ValidPieces(ps) && n <= k < |ps| && Begins(ps, n)
    ensures ValidPieces(ps[n..]) && (Swallowed(ps, k) <==> Swallowed(ps[n..], k - n))
    decreases k
  {
    if k > n { SwallowedInTail(ps, n, k - 1); }
  }

  // After the first piece, or the pair it forms, a new one begins.
  lemma FirstBegins(ps: seq<Piece>)
    requires ValidPieces(ps) && ps != []
    ensures Begins(ps, First(ps).1)
    ensures First(ps).1 == 2 ==> Swallowed(ps, 1)
  {
  }

  lemma FirstOfPrefix(ps: seq<Piece>, k: nat)
    requires ValidPieces(ps) && 0 < k <= |ps| && Begins(ps, k)
    ensures First(ps).1 <= k && First(ps[..k]) == First(ps)
  {
    FirstBegins(ps);
  }

  lemma BeginsInTail(ps: seq<Piece>, n: nat, k: nat)
    requires ValidPieces(ps) && n <= k <= |ps| && Begins(ps, n) && Begins(ps, k)
    ensures Begins(ps[n..], k - n)
  {
    if k < |ps| { SwallowedInTail(ps, n, k); }
  }

  // The text can be read in two parts wherever a piece begins.
  lemma {:induction false} MeaningSplits(ps: seq<Piece>, k: nat)
    requires ValidPieces(ps) && k <= |ps| && Begins(ps, k)
    ensures Meaning(ps) == Meaning(ps[..k]) + Meaning(ps[k..])
    decreases |ps|
  {
    if k == 0 {
      assert ps[..0] == [] && ps[0..] == ps;
    } else {
      FirstOfPrefix(ps, k);
      FirstBegins(ps);
      var (y, n) := First(ps);
      BeginsInTail(ps, n, k);
      MeaningSplits(ps[n..], k - n);
      Slices(ps, n, k);
      SplitStep(ps, k, y, n);
    }
  }

  lemma Slices<T>(ps: seq<T>, n: nat, k: nat)
    requires n <= k <= |ps|
    ensures ps[n..][..k - n] == ps[..k][n..] && ps[n..][k - n..] == ps[k..]
  {
  }

  lemma SplitStep(ps: seq<Piece>, k: nat, y: string, n: nat)
    requires ValidPieces(ps) && 0 < n <= k <= |ps| && First(ps) == (y, n) && First(ps[..k]) == (y, n)
    requires Meaning(ps[n..]) == Meaning(ps[..k][n..]) + Meaning(ps[k..])
    ensures Meaning(ps) == Meaning(ps[..k]) + Meaning(ps[k..])
  {
    Regroup(y, Meaning(ps[..k][n..]), Meaning(ps[k..]));
  }

  lemma Regroup(a: string, b: string, c: string)
    ensures a + (b + c) == (a + b) + c
  {
  }

  // What stands at k leaves y, and what is before and after it is read as if it
  // stood alone.
  predicate Leaves(ps: seq<Piece>, k: nat, n: nat, y: string)
    requires ValidPieces(ps) && k + n <= |ps|
  {
    Meaning(ps) == Meaning(ps[..k]) + y + Meaning(ps[k + n..])
  }

  // A piece or a pair that begins at k leaves what First says.
  lemma BeginningLeaves(ps: seq<Piece>, k: nat)
    requires ValidPieces(ps) && k < |ps| && Begins(ps, k)
    ensures k + First(ps[k..]).1 <= |ps| && Leaves(ps, k, First(ps[k..]).1, First(ps[k..]).0)
  {
    var (y, n) := First(ps[k..]);
    MeaningSplits(ps, k);
    assert ps[k..][n..] == ps[k + n..];
    Regroup(Meaning(ps[..k]), y, Meaning(ps[k + n..]));
  }

  // A swallowed escape that is no low surrogate leaves nothing.
  lemma SwallowedLeaves(ps: seq<Piece>, k: nat)
    requires ValidPieces(ps) && k < |ps| && Swallowed(ps, k) && !IsLowSurrogate(Unit(ps[k]))
    ensures Leaves(ps, k, 1, "")
  {
    BeginningLeaves(ps, k - 1);
    assert First(ps[k - 1..]) == ("", 2);
    HighAtEnd(ps, k);
  }

  // A high surrogate that is read last leaves nothing.
  lemma HighAtEnd(ps: seq<Piece>, k: nat)
    requires ValidPieces(ps) && 0 < k <= |ps| && IsHighPiece(ps[k - 1]) && Begins(ps, k - 1)
    ensures Meaning(ps[..k]) == Meaning(ps[..k - 1])
  {
    SwallowedInPrefix(ps, k, k - 1);
    MeaningSplits(ps[..k], k - 1);
    assert ps[..k][..k - 1] == ps[..k - 1] && ps[..k][k - 1..] == [ps[k - 1]];
    LoneMeans(ps[k - 1]);
    assert Meaning(ps[..k - 1]) + "" == Meaning(ps[..k - 1]);
  }

  lemma {:induction false} SwallowedInPrefix(ps: seq<Piece>, k: nat, j: nat)
    requires ValidPieces(ps) && j < k <= |ps|
    ensures Swallowed(ps[..k], j) <==> Swallowed(ps, j)
    decreases j
  {
    if j > 0 { SwallowedInPrefix(ps, k, j - 1); }
  }

  lemma LoneMeans(p: Piece)
    requires ValidPiece(p)
    ensures Meaning([p]) == First([p]).0
  {
    assert Meaning([p][1..]) == "";
    assert First([p]).0 + "" == First([p]).0;
  }

  // Every escape of a scalar value but NUL is written as its UTF-8 text if and
  // only if it is not swallowed; a swallowed one leaves nothing.
  lemma EscapeIsUtf8(ps: seq<Piece>, k: nat)
    requires ValidPieces(ps) && k < |ps| && ps[k].Hex? && IsScalar(Unit(ps[k])) && Unit(ps[k]) != 0
    ensures Encodes(Encode(Unit(ps[k])), Unit(ps[k]))
    ensures Leaves(ps, k, 1, if Swallowed(ps, k) then "" else Encode(Unit(ps[k])))
    ensures Leaves(ps, k, 1, Encode(Unit(ps[k]))) <==> !Swallowed(ps, k)
  {
    EncodeIsUtf8(Unit(ps[k]));
    if Swallowed(ps, k) {
      SwallowedLeaves(ps, k);
      NotBoth(ps, k, 1, Encode(Unit(ps[k])));
    } else {
      BeginningLeaves(ps, k);
    }
  }

  lemma NotBoth(ps: seq<Piece>, k: nat, n: nat, y: string)
    requires ValidPieces(ps) && k + n <= |ps| && y != "" && Leaves(ps, k, n, "")
    ensures !Leaves(ps, k, n, y)
  {
  }

  // In particular a code point spelled with its four digits, in either case.
  lemma DigitsAreUtf8(ps: seq<Piece>, k: nat, cp: nat) returns (y: string)
    requires ValidPieces(ps) && k < |ps| && IsEscapeOf(ps[k], cp) && IsScalar(cp) && cp != 0
    ensures Encodes(y, cp)
    ensures Leaves(ps, k, 1, y) <==> !Swallowed(ps, k)
  {
    UnitOfEscape(ps[k], cp);
    EscapeIsUtf8(ps, k);
    y := Encode(cp);
  }

  ghost predicate IsEscapeOf(p: Piece, u: nat) {
    && p.Hex? && IsDigitOf(p.h0, u / 4096) && IsDigitOf(p.h1, u / 256 % 16)
    && IsDigitOf(p.h2, u / 16 % 16) && IsDigitOf(p.h3, u % 16)
  }

  lemma UnitOfEscape(p: Piece, u: nat)
    requires IsEscapeOf(p, u)
    ensures ValidPiece(p) && Unit(p) == u
  {
    ScanReadsDigits(p.h0, p.h1, p.h2, p.h3, u / 4096, u / 256 % 16, u / 16 % 16, u % 16);
    FourDigits(u);
  }

  lemma FourDigits(u: nat)
    ensures u == 4096 * (u / 4096) + 256 * (u / 256 % 16) + 16 * (u / 16 % 16) + u % 16
  {
    assert u / 256 == u / 16 / 16 && u / 4096 == u / 256 / 16;
  }

  // The same for the two escapes of a code point that UTF-16 spells with a pair.
  lemma PairIsUtf8(ps: seq<Piece>, k: nat, cp: nat) returns (y: string)
    requires ValidPieces(ps) && k + 1 < |ps| && 0x10000 <= cp <= 0x10FFFF
    requires IsEscapeOf(ps[k], 0xD800 + (cp - 0x10000) / 1024)
    requires IsEscapeOf(ps[k + 1], 0xDC00 + (cp - 0x10000) % 1024)
    ensures Encodes(y, cp)
    ensures Leaves(ps, k, 2, if Swallowed(ps, k) then "" else y)
    ensures Leaves(ps, k, 2, y) <==> !Swallowed(ps, k)
  {
    UnitOfEscape(ps[k], 0xD800 + (cp - 0x10000) / 1024);
    UnitOfEscape(ps[k + 1], 0xDC00 + (cp - 0x10000) % 1024);
    JoinUndoesSplit(Unit(ps[k]), Unit(ps[k + 1]), cp);
    y := Encode(cp);
    EncodeIsUtf8(cp);
    if Swallowed(ps, k) {
      SwallowedLeaves(ps, k);
      BeginningLeaves(ps, k + 1);
      LowAlone(ps, k + 1);
      NotBoth(ps, k, 2, y);
    } else {
      BeginningLeaves(ps, k);
    }
  }

  // A low surrogate with which a piece begins leaves nothing.
  lemma LowAlone(ps: seq<Piece>, k: nat)
    requires ValidPieces(ps) && k < |ps| && ps[k].Hex? && IsLowSurrogate(Unit(ps[k])) && Begins(ps, k)
    ensures Meaning(ps[k..]) == Meaning(ps[k + 1..])
  {
    assert First(ps[k..]) == ("", 1);
    assert ps[k..][1..] == ps[k + 1..];
    assert "" + Meaning(ps[k + 1..]) == Meaning(ps[k + 1..]);
  }

  // Any other piece leaves one byte wherever it stands: five letters stand for
  // control characters, and any other char is left as it is.
  lemma CharLeaves(ps: seq<Piece>, k: nat)
    requires ValidPieces(ps) && k < |ps| && !ps[k].Hex?
    ensures ps[k] == Short('b') ==> Leaves(ps, k, 1, [8 as char])
    ensures ps[k] == Short('f') ==> Leaves(ps, k, 1, [12 as char])
    ensures ps[k] == Short('n') ==> Leaves(ps, k, 1, [10 as char])
    ensures ps[k] == Short('r') ==> Leaves(ps, k, 1, [13 as char])
    ensures ps[k] == Short('t') ==> Leaves(ps, k, 1, [9 as char])
    ensures ps[k].Plain? || ps[k].c !in "bfnrt" ==> Leaves(ps, k, 1, [ps[k].c])
  {
    BeginningLeaves(ps, k);
  }

  // The shortest text in which an escape disappears: an unpaired high surrogate
  // and the letter A.
  const UNPAIRED := [Hex('d', '8', '0', '0'), Hex('0', '0', '4', '1')]

  lemma UnpairedMeansNothing()
    ensures ValidPieces(UNPAIRED) && Swallowed(UNPAIRED, 1) && Unit(UNPAIRED[1]) == 0x41 && Meaning(UNPAIRED) == ""
  {
    var ps := UNPAIRED;
    EscapeIsUtf8(ps, 1);
    assert ps[..1] == [ps[0]] && ps[2..] == [];
    LoneMeans(ps[0]);
  }

  lemma SurrogateSwallows()
    ensures StringAt("\"\\ud800\\u0041\"", 0) == Ok("", 14)
  {
    UnpairedMeansNothing();
    assert Spell(UNPAIRED[1..]) == "\\u0041";
    assert Spell(UNPAIRED) == "\\ud800\\u0041";
    StringAccepts("\"\\ud800\\u0041\"", 0, UNPAIRED);
  }

  predicate IsPlain(y: string) {
    forall k :: 0 <= k < |y| ==> y[k] != QUOTE && y[k] != SLASH && y[k] != '\0'
  }

  lemma {:induction false} PlainDecodes(s: string, i: nat, y: string)
    requires IsPlain(y) && Occurs(s, i, y) && AtEnd(s, i + |y|)
    ensures Decode(s, i) == Ok(y, i + |y|)
    decreases |y|
  {
    if y != "" {
      var c, rest := y[0], y[1..];
      assert y == [c] + rest;
      OccursSplit(s, i, [c], rest);
      OccursAt(s, i, [c], 0);
      PlainDecodes(s, i + 1, rest);
      CharDecodes(s, i, rest, i + |y|);
    }
  }

  // A literal whose quote stands too close behind a \u, and what follows it.
  const HEAD := "\"\\u123\""

  lemma HeadAt(s: string)
    requires Occurs(s, 0, HEAD)
    ensures QuoteInside(s, 1, 3) && s[0] == QUOTE && EscapeAt(s, 1) == Some((Encode(0x123), 7))
  {
    var h := HEAD;
    assert h[0] == '\"' && h[1] == '\\' && h[2] == 'u' && h[3] == '1' && h[4] == '2' && h[5] == '3' && h[6] == '\"';
  }

  lemma QuoteReadOn(s: string, y: string)
    requires Occurs(s, 0, HEAD) && IsPlain(y) && Occurs(s, 7, y) && 7 + |y| < |s| && s[7 + |y|] == QUOTE
    ensures Decode(s, 1) == Ok(Encode(0x123) + y, 7 + |y|) && Measure(s, 1) == Some((4, 6))
  {
    HeadAt(s);
    PlainDecodes(s, 7, y);
    EscapeDecodes(s, 1, Encode(0x123), 7, y, 7 + |y|);
    QuoteMeasured(s, 1, 3);
  }

  lemma CountedString(s: string, t: string, stop: nat, count: nat, end: nat)
    requires s != "" && s[0] == QUOTE && Decode(s, 1) == Ok(t, stop) && Measure(s, 1) == Some((count, end))
    requires stop < |s| && s[stop] == QUOTE
    ensures StringAt(s, 0) == if |t| <= count then Ok(t, stop + 1) else Undefined
  {
  }

  // The decoding pass steps over that quote and reads on to the next one, at the
  // end of y. The text read stays inside the buffer if and only if y is no longer
  // than two: then y has become part of it.
  lemma QuoteBecomesText(y: string)
    requires IsPlain(y)
    ensures var s := HEAD + (y + [QUOTE]);
            StringAt(s, 0) == if |y| <= 2 then Ok(Encode(0x123) + y, 8 + |y|) else Undefined
  {
    var s := HEAD + (y + [QUOTE]);
    assert Occurs(s, 0, HEAD + (y + [QUOTE]));
    OccursSplit(s, 0, HEAD, y + [QUOTE]);
    OccursSplit(s, 7, y, [QUOTE]);
    OccursAt(s, 7 + |y|, [QUOTE], 0);
    OccursAt(s, 0, HEAD, 0);
    QuoteReadOn(s, y);
    TwoBytes(0x123);
    CountedString(s, Encode(0x123) + y, 7 + |y|, 4, 6);
  }

  lemma TwoBytes(cp: nat)
    requires 0x80 <= cp < 0x800
    ensures |Encode(cp)| == 2
  {
  }
}
