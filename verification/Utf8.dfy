// The UTF-8 writer inside parse_string, against section 3 of RFC 3629.
module Utf8 {

  predicate IsHighSurrogate(u: nat) { 0xD800 <= u <= 0xDBFF }
  predicate IsLowSurrogate(u: nat) { 0xDC00 <= u <= 0xDFFF }

  predicate IsScalar(cp: nat) {
    cp <= 0x10FFFF && !IsHighSurrogate(cp) && !IsLowSurrogate(cp)
  }

  // The table of RFC 3629 section 3, read as a relation: the octets y are the
  // encoding of cp when they have the shape of its row and their free bits,
  // put together, are cp.
  predicate Encodes(y: string, cp: nat) {
    match |y|
    case 1 => cp <= 0x7F && y[0] as int == cp
    case 2 =>
      && 0x80 <= cp <= 0x7FF
      && 0xC0 <= y[0] as int < 0xE0 && IsTail(y[1])
      && cp == (y[0] as int - 0xC0) * 64 + Bits(y[1])
    case 3 =>
      && 0x800 <= cp <= 0xFFFF
      && 0xE0 <= y[0] as int < 0xF0 && IsTail(y[1]) && IsTail(y[2])
      && cp == (y[0] as int - 0xE0) * 4096 + Bits(y[1]) * 64 + Bits(y[2])
    case 4 =>
      && 0x10000 <= cp <= 0x10FFFF
      && 0xF0 <= y[0] as int < 0xF8 && IsTail(y[1]) && IsTail(y[2]) && IsTail(y[3])
      && cp == (y[0] as int - 0xF0) * 262144 + Bits(y[1]) * 4096 + Bits(y[2]) * 64 + Bits(y[3])
    case _ => false
  }

  predicate IsTail(c: char) { 0x80 <= c as int < 0xC0 }
  function Bits(c: char): int { c as int - 0x80 }

  // The octets the code writes; `(uc | 0x80) & 0xBF` is 0x80 + uc % 64 and
  // `uc >>= 6` is uc / 64 (MaskedTail below), and `uc | firstByteMark[len]` adds
  // the mark (MarkedFirst below).
  function Encode(cp: nat): (y: string)
    requires cp <= 0x10FFFF
    ensures 1 <= |y| <= 4
    ensures forall k :: 0 <= k < |y| ==> y[k] as int < 256
  {
    if cp < 0x80 then [cp as char]
    else if cp < 0x800 then [(0xC0 + cp / 64) as char, Tail(cp)]
    else if cp < 0x10000 then [(0xE0 + cp / 64 / 64) as char, Tail(cp / 64), Tail(cp)]
    else [(0xF0 + cp / 64 / 64 / 64) as char, Tail(cp / 64 / 64), Tail(cp / 64), Tail(cp)]
  }

  // What the code writes is the RFC 3629 encoding.
  lemma EncodeIsUtf8(cp: nat)
    requires cp <= 0x10FFFF
    ensures Encodes(Encode(cp), cp)
  {
    var b, c, d := cp / 64, cp / 64 / 64, cp / 64 / 64 / 64;
    assert cp == b * 64 + cp % 64 && b == c * 64 + b % 64 && c == d * 64 + c % 64;
    TailBits(cp);
    TailBits(b);
    TailBits(c);
  }

  lemma TailBits(u: nat)
    ensures IsTail(Tail(u)) && Bits(Tail(u)) == u % 64
  {
  }

  function Tail(u: nat): char { (0x80 + u % 64) as char }

  // A number of six-bit digits under a leading one has one spelling.
  lemma DigitsAreUnique(a: int, b: int, u: int, v: int)
    requires 0 <= u < 64 && 0 <= v < 64 && a * 64 + u == b * 64 + v
    ensures a == b && u == v
  {
  }

  // The encoding is unique, so Encodes pins Encode down.
  lemma EncodingIsUnique(y: string, z: string, cp: nat)
    requires Encodes(y, cp) && Encodes(z, cp)
    ensures y == z
  {
    assert |y| == |z|;
    match |y|
    case 1 =>
    case 2 => DigitsAreUnique(y[0] as int - 0xC0, z[0] as int - 0xC0, Bits(y[1]), Bits(z[1]));
    case 3 =>
      var a, b := y[0] as int - 0xE0, z[0] as int - 0xE0;
      DigitsAreUnique(a * 64 + Bits(y[1]), b * 64 + Bits(z[1]), Bits(y[2]), Bits(z[2]));
      DigitsAreUnique(a, b, Bits(y[1]), Bits(z[1]));
    case _ =>
      var a, b := y[0] as int - 0xF0, z[0] as int - 0xF0;
      var c, d := a * 64 + Bits(y[1]), b * 64 + Bits(z[1]);
      DigitsAreUnique(c * 64 + Bits(y[2]), d * 64 + Bits(z[2]), Bits(y[3]), Bits(z[3]));
      DigitsAreUnique(c, d, Bits(y[2]), Bits(z[2]));
      DigitsAreUnique(a, b, Bits(y[1]), Bits(z[1]));
  }

  // The bit operations of the code on 32-bit words, as arithmetic.
  lemma MaskedTail(u: bv32)
    ensures (u | 0x80) & 0xBF == 0x80 + u % 64
    ensures u >> 6 == u / 64
  {
  }

  // `uc | firstByteMark[len]`: what is left of the code point for a first octet
  // fits a byte and has no bit in common with its mark.
  lemma MarkedFirst(u: bv8)
    ensures u < 0x20 ==> u | 0xC0 == 0xC0 + u
    ensures u < 0x10 ==> u | 0xE0 == 0xE0 + u
    ensures u < 0x08 ==> u | 0xF0 == 0xF0 + u
  {
  }

  function Join(hi: nat, lo: nat): (cp: nat)
    requires IsHighSurrogate(hi) && IsLowSurrogate(lo)
    ensures 0x10000 <= cp <= 0x10FFFF
  {
    0x10000 + (hi - 0xD800) * 1024 + (lo - 0xDC00)
  }

  lemma JoinedSurrogates(hi: bv32, lo: bv32)
    requires 0xD800 <= hi <= 0xDBFF && 0xDC00 <= lo <= 0xDFFF
    ensures (0x10000 + (((hi & 0x3FF) << 10) | (lo & 0x3FF))) as int == Join(hi as int, lo as int)
  {
  }

  // UTF-16 spells each code point beyond 0xFFFF with one pair, and Join undoes it.
  lemma JoinUndoesSplit(hi: nat, lo: nat, cp: nat)
    ensures IsHighSurrogate(hi) && IsLowSurrogate(lo) && Join(hi, lo) == cp
       <==> 0x10000 <= cp <= 0x10FFFF && hi == 0xD800 + (cp - 0x10000) / 1024 && lo == 0xDC00 + (cp - 0x10000) % 1024
  {
  }

  // The low ten bits of a surrogate are its distance from the first of its kind.
  lemma LowBits(hi: nat, lo: nat)
    requires IsHighSurrogate(hi) && IsLowSurrogate(lo)
    ensures hi % 0x400 == hi - 0xD800 && lo % 0x400 == lo - 0xDC00
  {
  }

  // The write at `ptr2`: forward by the length, then back down octet by
  // octet, falling through the cases.
  method Write(out: array<char>, at: nat, cp: nat) returns (after: nat)
    requires cp <= 0x10FFFF
    requires at + |Encode(cp)| <= out.Length
    modifies out
    ensures after == at + |Encode(cp)|
    ensures out[at..after] == Encode(cp)
    ensures out[..at] == old(out[..at])
    ensures out[after..] == old(out[after..])
  {
    var len := 4;
    if cp < 0x80 { len := 1; } else if cp < 0x800 { len := 2; } else if cp < 0x10000 { len := 3; }
    assert |Encode(cp)| == len;
    var p, u := at + len, cp;
    if len >= 4 { p := p - 1; out[p] := Tail(u); u := u / 64; }
    if len >= 3 { p := p - 1; out[p] := Tail(u); u := u / 64; }
    if len >= 2 { p := p - 1; out[p] := Tail(u); u := u / 64; }
    var mark := if len == 1 then 0 else if len == 2 then 0xC0 else if len == 3 then 0xE0 else 0xF0;
    p := p - 1;
    out[p] := (u + mark) as char;
    after := at + len;
    assert out[..at] == old(out[..at]);
    assert out[after..] == old(out[after..]);
  }
}
