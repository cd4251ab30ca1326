// String literals: what parse_string reads, and the RFC 8259 section 7 syntax.
module StringLiteral {
  import opened CString
  import opened Outcome
  import opened Utf8

  const QUOTE := '\"'
  const SLASH := '\\'

  predicate IsHex(c: char) {
    '0' <= c <= '9' || 'a' <= c <= 'f' || 'A' <= c <= 'F'
  }

  function HexValue(c: char): (v: nat)
    requires IsHex(c)
    ensures v < 16
  {
    if '0' <= c <= '9' then c as int - '0' as int
    else if 'a' <= c <= 'f' then c as int - 'a' as int + 10
    else c as int - 'A' as int + 10
  }

  function FourHex(h0: char, h1: char, h2: char, h3: char): (u: nat)
    requires IsHex(h0) && IsHex(h1) && IsHex(h2) && IsHex(h3)
    ensures u < 0x10000
  {
    ((HexValue(h0) * 16 + HexValue(h1)) * 16 + HexValue(h2)) * 16 + HexValue(h3)
  }

  // A field of `%4x` that starts with a hex digit, and not with 0x. The code
  // steps over four chars whatever the field takes, so none may be the terminator.
  predicate Scans(h0: char, h1: char, h2: char, h3: char) {
    && IsHex(h0) && !(h0 == '0' && (h1 == 'x' || h1 == 'X'))
    && h1 != '\0' && h2 != '\0' && h3 != '\0'
  }

  // The number stored: up to four hex digits, as many as there are.
  function ScanHex(h0: char, h1: char, h2: char, h3: char): (u: nat)
    requires Scans(h0, h1, h2, h3)
    ensures u < 0x10000
  {
    if !IsHex(h1) then HexValue(h0)
    else if !IsHex(h2) then HexValue(h0) * 16 + HexValue(h1)
    else if !IsHex(h3) then (HexValue(h0) * 16 + HexValue(h1)) * 16 + HexValue(h2)
    else FourHex(h0, h1, h2, h3)
  }

  // The digit d of base sixteen, in either case.
  ghost predicate IsDigitOf(c: char, d: nat) {
    d < 16 && (c == "0123456789abcdef"[d] || c == "0123456789ABCDEF"[d])
  }

  lemma HexValueOfDigit(c: char, d: nat)
    ensures IsDigitOf(c, d) <==> IsHex(c) && HexValue(c) == d
  {
    if d < 16 { CharsOfDigit(d); }
  }

  lemma CharsOfDigit(d: nat)
    requires d < 16
    ensures "0123456789abcdef"[d] as int == (if d < 10 then 48 else 87) + d
    ensures "0123456789ABCDEF"[d] as int == (if d < 10 then 48 else 55) + d
  {
  }

  // Four digits are read as the number they spell, and fewer as if there were
  // zeros in front.
  lemma ScanReadsDigits(h0: char, h1: char, h2: char, h3: char, a: nat, b: nat, c: nat, d: nat)
    requires IsDigitOf(h0, a) && IsDigitOf(h1, b) && IsDigitOf(h2, c) && IsDigitOf(h3, d)
    ensures Scans(h0, h1, h2, h3) && ScanHex(h0, h1, h2, h3) == 4096 * a + 256 * b + 16 * c + d
  {
    HexValueOfDigit(h0, a);
    HexValueOfDigit(h1, b);
    HexValueOfDigit(h2, c);
    HexValueOfDigit(h3, d);
  }

  lemma ScanPadsShort(h0: char, h1: char, h2: char, h3: char)
    requires Scans(h0, h1, h2, h3)
    ensures !IsHex(h1) ==> ScanHex(h0, h1, h2, h3) == ScanHex('0', '0', '0', h0)
    ensures IsHex(h1) && !IsHex(h2) ==> ScanHex(h0, h1, h2, h3) == ScanHex('0', '0', h0, h1)
    ensures IsHex(h1) && IsHex(h2) && !IsHex(h3) ==> ScanHex(h0, h1, h2, h3) == ScanHex('0', h0, h1, h2)
  {
  }

  // `sscanf(p, "%4x", &uc)` on such a field.
  function ReadHex(s: string, i: nat): (u: Option<nat>)
    ensures u.Some? ==> i + 4 <= |s| && u.value < 0x10000
  {
    if i + 4 <= |s| && Scans(s[i], s[i + 1], s[i + 2], s[i + 3])
    then Some(ScanHex(s[i], s[i + 1], s[i + 2], s[i + 3]))
    else None
  }

  // Which fields those are: the terminator is no part of them.
  lemma FieldsRead(s: string, i: nat)
    ensures ReadHex(s, i).Some? <==>
            && i + 4 <= |s| && NulFree(s[i..i + 4])
            && (exists d: nat :: IsDigitOf(s[i], d)) && s[i..i + 2] != "0x" && s[i..i + 2] != "0X"
  {
    if i + 4 <= |s| {
      assert forall k :: i <= k < i + 4 ==> s[i..i + 4][k - i] == s[k];
      if IsHex(s[i]) { HexValueOfDigit(s[i], HexValue(s[i])); }
      if d: nat :| IsDigitOf(s[i], d) { HexValueOfDigit(s[i], d); }
    }
  }

  function Unescaped(c: char): char {
    match c
    case 'b' => 8 as char
    case 'f' => 12 as char
    case 'n' => '\n'
    case 'r' => '\r'
    case 't' => '\t'
    case _ => c
  }

  // Bytes written for one escape whose backslash stands at i, and the position
  // after it. None: no char follows the backslash, or there is no such field.
  function EscapeAt(s: string, i: nat): (r: Option<(string, nat)>)
    requires i < |s| && s[i] == SLASH
    ensures r.Some? ==> i + 2 <= r.value.1 <= |s|
  {
    if Peek(s, i + 1) == '\0' then None
    else if s[i + 1] != 'u' then Some(([Unescaped(s[i + 1])], i + 2))
    else
      match ReadHex(s, i + 2)
      case None => None
      case Some(u) =>
        if IsLowSurrogate(u) || u == 0 then Some(("", i + 6))
        else if !IsHighSurrogate(u) then Some((Encode(u), i + 6))
        else if Peek(s, i + 6) != SLASH || Peek(s, i + 7) != 'u' then Some(("", i + 6))
        else
          match ReadHex(s, i + 8)
          case None => None
          case Some(lo) =>
            Some((if IsLowSurrogate(lo) then Encode(Join(u, lo)) else "", i + 12))
  }

  predicate AtEnd(s: string, i: nat)
    requires i <= |s|
  {
    Peek(s, i) == QUOTE || Peek(s, i) == '\0'
  }

  // Text decoded from i up to the closing quote (or terminator), where it stops.
  function Decode(s: string, i: nat): (r: Parsed<string>)
    requires i <= |s|
    ensures !r.Rejected?
    ensures r.Ok? ==> i <= r.next <= |s| && AtEnd(s, r.next)
    decreases |s| - i
  {
    if AtEnd(s, i) then Ok("", i)
    else if s[i] != SLASH then Prepend([s[i]], Decode(s, i + 1))
    else
      match EscapeAt(s, i)
      case None => Undefined
      case Some((y, next)) => Prepend(y, Decode(s, next))
  }

  function Prepend(y: string, r: Parsed<string>): Parsed<string> {
    match r
    case Ok(z, next) => Ok(y + z, next)
    case _ => r
  }

  lemma CharDecodes(s: string, i: nat, y: string, stop: nat)
    requires i < |s| && !AtEnd(s, i) && s[i] != SLASH && Decode(s, i + 1) == Ok(y, stop)
    ensures Decode(s, i) == Ok([s[i]] + y, stop)
  {
  }

  lemma EscapeDecodes(s: string, i: nat, z: string, next: nat, y: string, stop: nat)
    requires i < |s| && s[i] == SLASH && EscapeAt(s, i) == Some((z, next)) && Decode(s, next) == Ok(y, stop)
    ensures Decode(s, i) == Ok(z + y, stop)
  {
  }

  // The sizing pass: how many times it counts from i, and where it stops.
  // None: a backslash stands right before the terminator.
  function Measure(s: string, i: nat): (r: Option<(nat, nat)>)
    requires i <= |s|
    ensures r.Some? ==> i <= r.value.1 <= |s|
    decreases |s| - i
  {
    if AtEnd(s, i) then Some((0, i))
    else if s[i] != SLASH then Count(Measure(s, i + 1))
    else if Peek(s, i + 1) == '\0' then None
    else Count(Measure(s, i + 2))
  }

  function Count(r: Option<(nat, nat)>): Option<(nat, nat)> {
    match r
    case None => None
    case Some((len, stop)) => Some((len + 1, stop))
  }

  // The buffer that the sizing pass pays for takes the decoded text and its NUL.
  predicate Sized(s: string, i: nat, y: string)
    requires i <= |s|
  {
    Measure(s, i).Some? && |y| <= Measure(s, i).value.0
  }

  // parse_string on the text at i.
  function StringAt(s: string, i: nat): (r: Parsed<string>)
    requires i <= |s|
    ensures r.Ok? ==> i < r.next <= |s|
    ensures r.Rejected? ==> r.at == i
  {
    if Peek(s, i) != QUOTE then Rejected(i)
    else
      match Decode(s, i + 1)
      case Ok(y, stop) =>
        if Sized(s, i + 1, y) then Ok(y, if Peek(s, stop) == QUOTE then stop + 1 else stop) else Undefined
      case _ => Undefined
  }

  // The four chars at i are ordinary ones to the sizing pass.
  predicate Ordinary(s: string, i: nat) {
    i + 4 <= |s| && forall k :: i <= k < i + 4 ==> s[k] != QUOTE && s[k] != SLASH && s[k] != '\0'
  }

  // So are those behind every \u that the decoding pass meets from i on.
  predicate InStep(s: string, i: nat)
    requires i <= |s|
    decreases |s| - i
  {
    if AtEnd(s, i) then true
    else if s[i] != SLASH then InStep(s, i + 1)
    else
      match EscapeAt(s, i)
      case None => false
      case Some((_, next)) =>
        (s[i + 1] == 'u' ==> Ordinary(s, i + 2)) && (next == i + 12 ==> Ordinary(s, i + 8)) && InStep(s, next)
  }

  lemma MeasureOrdinary(s: string, i: nat)
    requires Ordinary(s, i)
    ensures Measure(s, i) == Count(Count(Count(Count(Measure(s, i + 4)))))
  {
    assert Measure(s, i + 3) == Count(Measure(s, i + 4));
    assert Measure(s, i + 2) == Count(Measure(s, i + 3));
    assert Measure(s, i + 1) == Count(Measure(s, i + 2));
  }

  // The two passes stay in step over an escape with ordinary chars, and the
  // sizing pass has counted at least the bytes the decoding pass writes for it.
  lemma MeasureEscape(s: string, i: nat)
    requires i < |s| && s[i] == SLASH && EscapeAt(s, i).Some?
    requires s[i + 1] == 'u' ==> Ordinary(s, i + 2)
    requires EscapeAt(s, i).value.1 == i + 12 ==> Ordinary(s, i + 8)
    ensures var (y, next) := EscapeAt(s, i).value;
            && (Measure(s, i).Some? <==> Measure(s, next).Some?)
            && (Measure(s, i).Some? ==>
                  && Measure(s, i).value.1 == Measure(s, next).value.1
                  && Measure(s, i).value.0 >= |y| + Measure(s, next).value.0)
  {
    var (y, next) := EscapeAt(s, i).value;
    assert Measure(s, i) == Count(Measure(s, i + 2));
    if s[i + 1] == 'u' {
      MeasureOrdinary(s, i + 2);
      if next == i + 12 {
        assert Measure(s, i + 6) == Count(Measure(s, i + 8));
        MeasureOrdinary(s, i + 8);
      }
    }
  }

  // A literal that the decoding pass gets through in step is measured to the
  // same stop, and the buffer of len + 1 bytes holds it with its NUL.
  lemma {:induction false} PassesAgree(s: string, i: nat)
    requires i <= |s| && Decode(s, i).Ok? && InStep(s, i)
    ensures Sized(s, i, Decode(s, i).value) && Measure(s, i).value.1 == Decode(s, i).next
    decreases |s| - i
  {
    if AtEnd(s, i) {
    } else if s[i] != SLASH {
      PassesAgree(s, i + 1);
    } else {
      PassesAgree(s, EscapeAt(s, i).value.1);
      MeasureEscape(s, i);
    }
  }

  // The quote that ends the literal stands q chars behind the \u at i, among the
  // four that the decoding pass steps over.
  predicate QuoteInside(s: string, i: nat, q: nat) {
    && i + 6 <= |s| && s[i] == SLASH && s[i + 1] == 'u' && 1 <= q <= 3 && s[i + 2 + q] == QUOTE
    && ReadHex(s, i + 2).Some? && forall k :: i + 2 <= k < i + 2 + q ==> s[k] != QUOTE && s[k] != SLASH
  }

  // Then the decoding pass goes on behind that quote.
  lemma QuoteSteppedOver(s: string, i: nat, q: nat)
    requires QuoteInside(s, i, q) && Decode(s, i).Ok?
    ensures EscapeAt(s, i).Some? && EscapeAt(s, i).value.1 == i + 6 && Decode(s, i + 6).Ok?
    ensures Decode(s, i).next == Decode(s, i + 6).next > i + 2 + q
    ensures |Decode(s, i).value| == |EscapeAt(s, i).value.0| + |Decode(s, i + 6).value|
  {
    assert !IsHex(s[i + 2 + q]);
    ShortField(s[i + 2], s[i + 3], s[i + 4], s[i + 5]);
  }

  lemma ShortField(h0: char, h1: char, h2: char, h3: char)
    requires Scans(h0, h1, h2, h3) && !(IsHex(h1) && IsHex(h2) && IsHex(h3))
    ensures ScanHex(h0, h1, h2, h3) < 0x1000
  {
  }

  lemma QuoteMeasured(s: string, i: nat, q: nat)
    requires QuoteInside(s, i, q)
    ensures Measure(s, i) == Some((1 + q, i + 2 + q))
  {
    assert Measure(s, i + 2 + q) == Some((0, i + 2 + q));
    assert Measure(s, i + 1 + q) == Some((1, i + 2 + q));
    if q >= 2 { assert Measure(s, i + q) == Some((2, i + 2 + q)); }
    if q == 3 { assert Measure(s, i + q - 1) == Some((3, i + 2 + q)); }
    assert Measure(s, i) == Count(Measure(s, i + 2));
  }

  // What the sizing pass counts from i to p beyond the bytes that the decoding
  // pass writes, if the two pass through p in step.
  function Left(s: string, i: nat, p: nat): (r: Option<nat>)
    requires i <= |s|
    decreases |s| - i
  {
    if i == p then Some(0)
    else if AtEnd(s, i) then None
    else if s[i] != SLASH then Left(s, i + 1, p)
    else
      match EscapeAt(s, i)
      case None => None
      case Some((y, next)) =>
        if s[i + 1] != 'u' then Left(s, next, p)
        else if !Ordinary(s, i + 2) || (next == i + 12 && !Ordinary(s, i + 8)) then None
        else
          match Left(s, next, p)
          case None => None
          case Some(left) => Some(left + (if next == i + 12 then 10 else 5) - |y|)
  }

  lemma {:induction false} LeftOver(s: string, i: nat, p: nat)
    requires i <= |s| && p <= |s| && Left(s, i, p).Some? && Decode(s, i).Ok? && Measure(s, p).Some?
    ensures Decode(s, p).Ok? && Decode(s, i).next == Decode(s, p).next && Measure(s, i).Some?
    ensures Measure(s, i).value.1 == Measure(s, p).value.1
    ensures Measure(s, i).value.0 - |Decode(s, i).value|
         == Left(s, i, p).value + Measure(s, p).value.0 - |Decode(s, p).value|
    decreases |s| - i
  {
    if i == p {
    } else if s[i] != SLASH {
      LeftOver(s, i + 1, p);
    } else {
      var (y, next) := EscapeAt(s, i).value;
      LeftOver(s, next, p);
      if s[i + 1] == 'u' { EscapeCounted(s, i); }
    }
  }

  lemma EscapeCounted(s: string, i: nat)
    requires i < |s| && s[i] == SLASH && EscapeAt(s, i).Some? && s[i + 1] == 'u' && Ordinary(s, i + 2)
    requires EscapeAt(s, i).value.1 == i + 12 ==> Ordinary(s, i + 8)
    requires Measure(s, EscapeAt(s, i).value.1).Some?
    ensures var next := EscapeAt(s, i).value.1;
            Measure(s, i) == Some((Measure(s, next).value.0 + (if next == i + 12 then 10 else 5),
                                   Measure(s, next).value.1))
  {
    if EscapeAt(s, i).value.1 == i + 12 { UnitCounted(s, i + 6); }
    UnitCounted(s, i);
  }

  lemma UnitCounted(s: string, i: nat)
    requires i + 6 <= |s| && s[i] == SLASH && s[i + 1] == 'u' && Ordinary(s, i + 2) && Measure(s, i + 6).Some?
    ensures Measure(s, i) == Some((Measure(s, i + 6).value.0 + 5, Measure(s, i + 6).value.1))
  {
    assert Measure(s, i) == Count(Measure(s, i + 2));
    MeasureOrdinary(s, i + 2);
  }

  // Exactly when a \u with fewer than four chars before the closing quote makes
  // the decoding pass leave the buffer: when the text it goes on to read behind
  // that quote is longer than what the sizing pass has counted too much.
  lemma OverflowsExactly(s: string, i: nat, p: nat, q: nat)
    requires i <= p <= |s| && Left(s, i, p).Some? && QuoteInside(s, p, q) && Decode(s, i).Ok?
    ensures EscapeAt(s, p).Some? && EscapeAt(s, p).value.1 == p + 6 && Decode(s, p + 6).Ok?
    ensures Sized(s, i, Decode(s, i).value)
       <==> |Decode(s, p + 6).value| + |EscapeAt(s, p).value.0| <= Left(s, i, p).value + 1 + q
    ensures Measure(s, i).Some? && Measure(s, i).value.1 == p + 2 + q < Decode(s, i).next
  {
    QuoteMeasured(s, p, q);
    LeftOver(s, i, p);
    QuoteSteppedOver(s, p, q);
  }

  method MeasureLiteral(s: string, i: nat) returns (r: Option<(nat, nat)>)
    requires i <= |s|
    ensures r == Measure(s, i)
  {
    var p, len := i, 0;
    while !AtEnd(s, p)
      invariant i <= p <= |s|
      invariant Measure(s, i).Some? <==> Measure(s, p).Some?
      invariant Measure(s, i).Some? ==>
          Measure(s, i).value == (len + Measure(s, p).value.0, Measure(s, p).value.1)
      decreases |s| - p
    {
      len := len + 1;
      if s[p] == SLASH {
        if Peek(s, p + 1) == '\0' {
          return None;
        }
        p := p + 1;
      }
      p := p + 1;
    }
    r := Some((len, p));
  }

  // The decoding pass writing into the buffer that the sizing pass paid for.
  // `out` holds the text and its NUL; where a write would leave the buffer the
  // outcome is Undefined.
  method ParseString(s: string, i: nat) returns (r: Parsed<string>)
    requires i <= |s|
    ensures r == StringAt(s, i)
  {
    if Peek(s, i) != QUOTE {
      return Rejected(i);
    }
    var measured := MeasureLiteral(s, i + 1);
    if measured == None {
      return Undefined;
    }
    var len := measured.value.0;
    var out := new char[len + 1];
    var p, k := i + 1, 0;
    if Decode(s, p).Ok? { assert out[..0] + Decode(s, p).value == Decode(s, p).value; }
    while !AtEnd(s, p)
      invariant i < p <= |s| && k <= len
      invariant Decode(s, i + 1) == Prepend(out[..k], Decode(s, p))
      decreases |s| - p
    {
      ghost var p0, before := p, out[..k];
      ghost var y: string;
      if s[p] != SLASH {
        if k == len {
          return Undefined;
        }
        y := [s[p]];
        out[k] := s[p];
        p, k := p + 1, k + 1;
      } else {
        if EscapeAt(s, p) == None || k + |EscapeAt(s, p).value.0| > len {
          return Undefined;
        }
        y := EscapeAt(s, p).value.0;
        p, k := DecodeEscape(s, p, out, k);
      }
      assert out[..k] == before + y;
      assert Decode(s, p0) == Prepend(y, Decode(s, p));
      PrependTwice(before, y, Decode(s, p));
    }
    out[k] := '\0';
    assert Decode(s, p) == Ok("", p);
    assert out[..k] + "" == out[..k];
    r := Ok(out[..k], if Peek(s, p) == QUOTE then p + 1 else p);
  }

  lemma PrependTwice(x: string, y: string, r: Parsed<string>)
    ensures Prepend(x, Prepend(y, r)) == Prepend(x + y, r)
  {
    if r.Ok? { assert x + (y + r.value) == x + y + r.value; }
  }

  // One escape: the switch on the char after the backslash.
  method DecodeEscape(s: string, i: nat, out: array<char>, k: nat) returns (next: nat, after: nat)
    requires i < |s| && s[i] == SLASH && EscapeAt(s, i).Some?
    requires k + |EscapeAt(s, i).value.0| <= out.Length
    modifies out
    ensures next == EscapeAt(s, i).value.1
    ensures after == k + |EscapeAt(s, i).value.0|
    ensures out[..after] == old(out[..k]) + EscapeAt(s, i).value.0
  {
    after := k;
    if s[i + 1] != 'u' {
      match s[i + 1] {
        case 'b' => out[after] := 8 as char;
        case 'f' => out[after] := 12 as char;
        case 'n' => out[after] := 10 as char;
        case 'r' => out[after] := 13 as char;
        case 't' => out[after] := 9 as char;
        case c => out[after] := c;
      }
      after := after + 1;
      return i + 2, after;
    }
    var u;
    u, next := ReadUnits(s, i);
    if u != 0 {
      after := Write(out, k, u);
      assert out[..after] == out[..k] + out[k..after];
    }
  }

  // The case of \u: the code point of one unit or of a pair, or zero where
  // nothing is written.
  method ReadUnits(s: string, i: nat) returns (u: nat, next: nat)
    requires i < |s| && s[i] == SLASH && EscapeAt(s, i).Some? && s[i + 1] == 'u'
    ensures u <= 0x10FFFF && EscapeAt(s, i) == Some((if u == 0 then "" else Encode(u), next))
  {
    u := ReadHex(s, i + 2).value;
    next := i + 6;
    if (u >= 0xDC00 && u <= 0xDFFF) || u == 0 {
      return 0, next;
    }
    if u >= 0xD800 && u <= 0xDBFF {
      if Peek(s, next) != SLASH || Peek(s, next + 1) != 'u' {
        return 0, next;
      }
      var lo := ReadHex(s, next + 2).value;
      next := next + 6;
      if lo < 0xDC00 || lo > 0xDFFF {
        return 0, next;
      }
      LowBits(u, lo);
      u := 0x10000 + u % 0x400 * 0x400 + lo % 0x400;
    }
  }

  // No byte of a decoded literal is NUL, so it is the C string it is kept as.
  lemma {:induction false} DecodeIsNulFree(s: string, i: nat)
    requires i <= |s| && Decode(s, i).Ok?
    ensures NulFree(Decode(s, i).value)
    decreases |s| - i
  {
    if AtEnd(s, i) {
    } else if s[i] != SLASH {
      DecodeIsNulFree(s, i + 1);
    } else {
      EscapeIsNulFree(s, i);
      DecodeIsNulFree(s, EscapeAt(s, i).value.1);
    }
  }

  lemma EscapeIsNulFree(s: string, i: nat)
    requires i < |s| && s[i] == SLASH && EscapeAt(s, i).Some?
    ensures NulFree(EscapeAt(s, i).value.0)
  {
  }

  lemma StringIsNulFree(s: string, i: nat)
    requires i <= |s| && StringAt(s, i).Ok?
    ensures NulFree(StringAt(s, i).value)
  {
    DecodeIsNulFree(s, i + 1);
  }
}
