// print_string_ptr and the decimal print of 32-bit integers, with their buffers.
module PrintString {
  import opened CString
  import opened Outcome
  import L = StringLiteral
  import G = StringGrammar
  import N = JsonNumber

  // The C string y, with its NUL, fills the buffer from its start.
  ghost predicate Holds(out: array<char>, y: string)
    reads out
  {
    |y| < out.Length && out[..|y|] == y && out[|y|] == '\0' && NulFree(y)
  }

  method Strlen(str: array<char>, ghost y: string) returns (n: nat)
    requires Holds(str, y)
    ensures n == |y|
  {
    n := 0;
    assert forall k :: 0 <= k < |y| ==> str[k] == str[..|y|][k];
    while str[n] != '\0'
      invariant n <= |y|
      decreases |y| - n
    {
      n := n + 1;
    }
  }

  // `strcpy(ptr, from)` at position p of `to`; the NUL that strcpy adds is
  // overwritten by the next write and left out here.
  method Strcpy(to: array<char>, p: nat, from: array<char>, ghost y: string) returns (q: nat)
    requires to != from && Holds(from, y) && p + |y| < to.Length
    modifies to
    ensures q == p + |y| && to[..q] == old(to[..p]) + y
  {
    q := p;
    assert forall k :: 0 <= k < |y| ==> from[k] == from[..|y|][k];
    while from[q - p] != '\0'
      invariant p <= q <= p + |y|
      invariant to[..q] == old(to[..p]) + y[..q - p]
      invariant Holds(from, y)
      invariant forall k :: 0 <= k < |y| ==> from[k] == y[k]
      decreases p + |y| - q
    {
      to[q] := from[q - p];
      q := q + 1;
    }
    assert y[..|y|] == y;
  }

  // A buffer with the text y in it, as strdup and sprintf make one.
  method Store(y: string, size: nat) returns (out: array<char>)
    requires |y| < size && NulFree(y)
    ensures fresh(out) && out.Length == size && Holds(out, y)
  {
    out := new char[size](i => if 0 <= i < |y| then y[i] else '\0');
    assert out[..|y|] == y;
  }

  function Decimal(n: nat): (d: string)
    ensures N.Digits(d) && d != "" && (d[0] == '0' ==> n == 0)
  {
    var c := ('0' as int + n % 10) as char;
    if n < 10 then [c] else Decimal(n / 10) + [c]
  }

  lemma {:induction false} DecimalValue(n: nat)
    ensures N.Value(Decimal(n)) == n
  {
    var d := Decimal(n);
    if n >= 10 {
      DecimalValue(n / 10);
      assert d[..|d| - 1] == Decimal(n / 10);
    } else {
      assert d[..|d| - 1] == "";
    }
  }

  function Pow10(k: nat): nat { if k == 0 then 1 else 10 * Pow10(k - 1) }

  lemma {:induction false} DecimalLength(n: nat, k: nat)
    requires k >= 1 && n < Pow10(k)
    ensures |Decimal(n)| <= k
    decreases k
  {
    if n >= 10 { DecimalLength(n / 10, k - 1); }
  }

  predicate IsInt32(n: int) { -0x8000_0000 <= n < 0x8000_0000 }

  // `sprintf(str, "%d", n)`
  function PrintInt(n: int): string {
    if n < 0 then "-" + Decimal(-n) else Decimal(n)
  }

  // The 21 bytes that print_number takes are enough.
  method PrintNumber(n: int) returns (out: array<char>)
    requires IsInt32(n)
    ensures fresh(out) && out.Length == 21 && Holds(out, PrintInt(n))
  {
    DecimalLength(if n < 0 then -n else n, 10);
    out := Store(PrintInt(n), 21);
  }

  predicate HasShortEscape(c: char) {
    c == L.QUOTE || c == L.SLASH || c == 8 as char || c == 12 as char || c == '\n' || c == '\r' || c == '\t'
  }

  // The piece that print_string_ptr writes for one byte.
  function PieceFor(c: char): (p: G.Piece)
    requires c != '\0'
    ensures G.ValidPiece(p) && G.ProperPiece(p) && G.Meaning([p]) == [c]
  {
    if c as int > 31 && c != L.QUOTE && c != L.SLASH then G.Plain(c)
    else
      match c
      case '\\' => G.Short('\\')
      case '\"' => G.Short('\"')
      case '\n' => G.Short('n')
      case '\r' => G.Short('r')
      case '\t' => G.Short('t')
      case _ =>
        if c as int == 8 then G.Short('b')
        else if c as int == 12 then G.Short('f')
        else G.HexPiece(c as int)
  }

  function Pieces(str: string): (ps: seq<G.Piece>)
    requires NulFree(str)
    ensures |ps| == |str| && G.ValidPieces(ps) && G.ProperPieces(ps)
  {
    if str == "" then [] else [PieceFor(str[0])] + Pieces(str[1..])
  }

  lemma FirstOf(c: char, ps: seq<G.Piece>)
    requires c != '\0' && ps != [] && G.ValidPieces(ps) && ps[0] == PieceFor(c)
    ensures G.First(ps) == ([c], 1)
  {
    assert G.First([PieceFor(c)]) == ([c], 1);
  }

  lemma {:induction false} PiecesMean(str: string)
    requires NulFree(str)
    ensures G.Meaning(Pieces(str)) == str
    decreases |str|
  {
    if str != "" {
      PiecesMean(str[1..]);
      var ps := Pieces(str);
      assert ps[1..] == Pieces(str[1..]);
      FirstOf(str[0], ps);
      assert str == [str[0]] + str[1..];
    }
  }

  // The text between the quotes, and the whole of print_string_ptr.
  function Body(str: string): string
    requires NulFree(str)
  {
    G.Spell(Pieces(str))
  }

  function PrintText(str: string): string
    requires NulFree(str)
  {
    G.Quoted(Body(str))
  }

  // Bytes the sizing pass counts.
  function Cost(c: char): nat {
    if HasShortEscape(c) then 2 else if c as int < 32 then 6 else 1
  }

  function BodyCost(str: string): nat {
    if str == "" then 0 else Cost(str[0]) + BodyCost(str[1..])
  }

  // The sizing pass counts exactly the bytes that are written.
  lemma {:induction false} CostIsExact(str: string)
    requires NulFree(str)
    ensures |Body(str)| == BodyCost(str)
    decreases |str|
  {
    if str != "" {
      CostIsExact(str[1..]);
      assert Pieces(str)[1..] == Pieces(str[1..]);
    }
  }

  lemma BodyStep(str: string, k: nat)
    requires NulFree(str) && k < |str|
    ensures Body(str[k..]) == G.SpellPiece(PieceFor(str[k])) + Body(str[k + 1..])
    ensures BodyCost(str[k..]) == Cost(str[k]) + BodyCost(str[k + 1..])
    ensures |G.SpellPiece(PieceFor(str[k]))| == Cost(str[k])
  {
    assert str[k..][1..] == str[k + 1..];
    assert Pieces(str[k..])[1..] == Pieces(str[k + 1..]);
  }

  lemma {:induction false} BodyIsNulFree(str: string)
    requires NulFree(str)
    ensures NulFree(Body(str))
    decreases |str|
  {
    if str != "" {
      BodyIsNulFree(str[1..]);
      BodyStep(str, 0);
      assert str[0..] == str;
      PieceIsNulFree(str[0]);
      NulFreeBoth(G.SpellPiece(PieceFor(str[0])), Body(str[1..]));
    }
  }

  lemma PieceIsNulFree(c: char)
    requires c != '\0'
    ensures NulFree(G.SpellPiece(PieceFor(c)))
  {
  }

  lemma NulFreeBoth(a: string, b: string)
    requires NulFree(a) && NulFree(b)
    ensures NulFree(a + b)
  {
  }

  lemma PrintTextIsNulFree(str: string)
    requires NulFree(str)
    ensures NulFree(PrintText(str))
  {
    BodyIsNulFree(str);
    NulFreeBoth([L.QUOTE], Body(str));
    NulFreeBoth([L.QUOTE] + Body(str), [L.QUOTE]);
  }

  method MeasureText(str: string) returns (len: nat)
    requires NulFree(str)
    ensures len == BodyCost(str)
  {
    len := 0;
    var p := 0;
    assert str[0..] == str;
    while p < |str|
      invariant p <= |str| && len + BodyCost(str[p..]) == BodyCost(str)
    {
      BodyStep(str, p);
      len := len + 1;
      if HasShortEscape(str[p]) { len := len + 1; }
      else if str[p] as int < 32 { len := len + 5; }
      p := p + 1;
    }
  }

  // What print_string_ptr prints: nothing for a null pointer, not even quotes.
  function Printed(str: Option<string>): string
    requires str.Some? ==> NulFree(str.value)
  {
    match str case None => "" case Some(text) => PrintText(text)
  }

  // print_string_ptr: the text and its NUL fill the buffer exactly.
  method PrintStringPtr(str: Option<string>) returns (out: array<char>)
    requires str.Some? ==> NulFree(str.value)
    ensures fresh(out) && out[..] == Printed(str) + "\0" && Holds(out, Printed(str))
  {
    if str == None {
      out := Store("", 1);
    } else {
      out := PrintQuoted(str.value);
    }
  }

  // Exactly the len + 3 bytes of the buffer are written.
  method PrintQuoted(str: string) returns (out: array<char>)
    requires NulFree(str)
    ensures fresh(out) && out[..] == PrintText(str) + "\0"
    ensures Holds(out, PrintText(str))
  {
    var len := MeasureText(str);
    CostIsExact(str);
    out := new char[len + 3];
    out[0] := L.QUOTE;
    var q := WriteBody(out, str, len);
    out[q] := L.QUOTE;
    out[q + 1] := '\0';
    assert out[..] == out[..q] + [L.QUOTE] + "\0";
    PrintTextIsNulFree(str);
    assert out[..|PrintText(str)|] == (PrintText(str) + "\0")[..|PrintText(str)|];
  }

  // The loop over the bytes, behind the opening quote.
  method WriteBody(out: array<char>, str: string, ghost len: nat) returns (q: nat)
    requires NulFree(str) && out.Length == len + 3 && out[0] == L.QUOTE
    requires BodyCost(str) == len && |Body(str)| == len
    modifies out
    ensures q == len + 1 && out[..q] == [L.QUOTE] + Body(str)
  {
    var p := 0;
    q := 1;
    ghost var all := [L.QUOTE] + Body(str);
    assert str[0..] == str && out[..1] == [L.QUOTE];
    while p < |str|
      invariant p <= |str| && Written(out, q, str, p, all) && |all| == len + 1
    {
      q := WriteNext(out, q, str, p, all);
      p := p + 1;
    }
    assert out[..q] + "" == out[..q];
  }

  // The bytes before q and the spelling of the text from p make up `all`.
  ghost predicate Written(out: array<char>, q: nat, str: string, p: nat, all: string)
    requires NulFree(str) && p <= |str|
    reads out
  {
    q <= out.Length && out[..q] + Body(str[p..]) == all && |Body(str[p..])| == BodyCost(str[p..])
  }

  lemma Regroup(a: string, b: string, c: string)
    ensures a + (b + c) == (a + b) + c
  {
  }

  method WriteNext(out: array<char>, q: nat, str: string, p: nat, ghost all: string) returns (r: nat)
    requires NulFree(str) && p < |str| && Written(out, q, str, p, all) && |all| <= out.Length
    modifies out
    ensures Written(out, r, str, p + 1, all)
  {
    BodyStep(str, p);
    CostIsExact(str[p + 1..]);
    ghost var y, before := G.SpellPiece(PieceFor(str[p])), out[..q];
    r := WriteByte(out, q, str[p]);
    assert out[..r] == out[..q] + out[q..r];
    Regroup(before, y, Body(str[p + 1..]));
  }

  // One byte of the text, escaped where it must be.
  method WriteByte(out: array<char>, q: nat, c: char) returns (r: nat)
    requires c != '\0' && q + Cost(c) <= out.Length
    modifies out
    ensures r == q + Cost(c) && out[..q] == old(out[..q]) && out[q..r] == G.SpellPiece(PieceFor(c))
  {
    if c as int > 31 && c != L.QUOTE && c != L.SLASH {
      out[q] := c;
      return q + 1;
    }
    out[q] := L.SLASH;
    ghost var slashed := out[..q + 1];
    r := WriteEscaped(out, q + 1, c);
    assert out[q] == slashed[q];
    assert out[..q] == slashed[..q];
    assert out[q..r] == [out[q]] + out[q + 1..r];
  }

  // What follows the backslash in a short escape.
  function Letter(c: char): char {
    if c == L.SLASH then L.SLASH else if c == L.QUOTE then L.QUOTE else if c as int == 8 then 'b'
    else if c as int == 12 then 'f' else if c == '\n' then 'n' else if c == '\r' then 'r' else 't'
  }

  lemma LetterSpells(c: char)
    requires HasShortEscape(c)
    ensures PieceFor(c) == G.Short(Letter(c))
  {
  }

  lemma TokenSpells(c: char)
    requires c != '\0' && !HasShortEscape(c) && c as int < 32
    ensures PieceFor(c) == G.Hex('0', '0', G.HexDigit(c as int / 16), G.HexDigit(c as int % 16))
  {
    assert PieceFor(c) == G.HexPiece(c as int);
  }

  // What follows the backslash.
  method WriteEscaped(out: array<char>, p: nat, c: char) returns (r: nat)
    requires c != '\0' && (HasShortEscape(c) || c as int < 32) && p + Cost(c) - 1 <= out.Length
    modifies out
    ensures r == p + Cost(c) - 1 && out[..p] == old(out[..p])
    ensures [L.SLASH] + out[p..r] == G.SpellPiece(PieceFor(c))
  {
    if HasShortEscape(c) {
      LetterSpells(c);
      out[p] := Letter(c);
      r := p + 1;
      assert out[p..r] == [Letter(c)];
    } else {
      TokenSpells(c);
      r := WriteToken(out, p, c as int);
    }
  }

  // sprintf(ptr2, "u%04x", token)
  method WriteToken(out: array<char>, p: nat, token: nat) returns (r: nat)
    requires token < 32 && p + 5 <= out.Length
    modifies out
    ensures r == p + 5 && out[..p] == old(out[..p])
    ensures out[p..r] == ['u', '0', '0', G.HexDigit(token / 16), G.HexDigit(token % 16)]
  {
    out[p], out[p + 1], out[p + 2] := 'u', '0', '0';
    out[p + 3], out[p + 4] := G.HexDigit(token / 16), G.HexDigit(token % 16);
    r := p + 5;
  }
}
