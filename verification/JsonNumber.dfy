// Numbers: parse_number with the value kept exact as mantissa * 10^exponent,
// and the number syntax of RFC 8259 section 6.
module JsonNumber {
  import opened CString
  import opened Outcome

  predicate IsDigit(c: char) { '0' <= c <= '9' }

  predicate Digits(d: string) {
    forall k :: 0 <= k < |d| ==> IsDigit(d[k])
  }

  function DigitValue(c: char): nat
    requires IsDigit(c)
  {
    c as int - '0' as int
  }

  function Value(d: string): nat
    requires Digits(d)
  {
    if d == "" then 0 else Value(d[..|d| - 1]) * 10 + DigitValue(d[|d| - 1])
  }

  // First position at or after i that holds no digit.
  function DigitsEnd(s: string, i: nat): (j: nat)
    requires i <= |s|
    ensures i <= j <= |s| && Digits(s[i..j]) && !IsDigit(Peek(s, j))
    decreases |s| - i
  {
    if i < |s| && IsDigit(s[i]) then
      var j := DigitsEnd(s, i + 1);
      assert s[i..j] == [s[i]] + s[i + 1..j];
      j
    else i
  }

  lemma DigitsOver(s: string, i: nat, d: string)
    requires Occurs(s, i, d) && Digits(d) && !IsDigit(Peek(s, i + |d|))
    ensures DigitsEnd(s, i) == i + |d| && s[i..i + |d|] == d
  {
    OccursIsSlice(s, i, d);
    var j := DigitsEnd(s, i);
    if j < i + |d| {
      OccursAt(s, i, d, j - i);
      assert false;
    }
  }

  datatype Number = Number(mantissa: int, exponent: int, next: nat)

  // Where the digits before the point start: a leading zero is stepped over.
  function WholeStart(s: string, i: nat): (j: nat)
    requires i <= |s|
    ensures i <= j <= |s|
  {
    if Peek(s, i) == '0' then i + 1 else i
  }

  // The digits that end at WholeEnd start at WholeStart; a second zero ends them.
  function WholeEnd(s: string, i: nat): (j: nat)
    requires i <= |s|
    ensures WholeStart(s, i) <= j <= |s| && Digits(s[WholeStart(s, i)..j])
  {
    var b := WholeStart(s, i);
    if Peek(s, b) == '0' then b else DigitsEnd(s, b)
  }

  function WholeDigits(s: string, i: nat): (d: string)
    requires i <= |s|
    ensures Digits(d)
  {
    s[WholeStart(s, i)..WholeEnd(s, i)]
  }

  function FractionEnd(s: string, i: nat): (j: nat)
    requires i <= |s|
    ensures j == i || (i + 1 < j <= |s| && Digits(s[i + 1..j]))
  {
    if Peek(s, i) == '.' && IsDigit(Peek(s, i + 1)) then DigitsEnd(s, i + 1) else i
  }

  function FractionDigits(s: string, i: nat): (d: string)
    requires i <= |s|
    ensures Digits(d)
  {
    if FractionEnd(s, i) == i then "" else s[i + 1..FractionEnd(s, i)]
  }

  function HasExponent(s: string, i: nat): bool
    requires i <= |s|
  {
    Peek(s, i) == 'e' || Peek(s, i) == 'E'
  }

  // Start of the exponent's digits, after the mark at i and an optional sign.
  function ExponentStart(s: string, i: nat): (j: nat)
    requires i <= |s| && HasExponent(s, i)
    ensures i < j <= |s|
  {
    if Peek(s, i + 1) == '+' || Peek(s, i + 1) == '-' then i + 2 else i + 1
  }

  // The power of ten written at i, and the position after it.
  function ExponentAt(s: string, i: nat): (r: (int, nat))
    requires i <= |s|
    ensures i <= r.1 <= |s|
  {
    if !HasExponent(s, i) then (0, i)
    else
      var e := ExponentStart(s, i);
      var f := DigitsEnd(s, e);
      (Signed(Peek(s, i + 1) == '-', Value(s[e..f])), f)
  }

  // The number without its sign: digits, scale and end of the text.
  function Unsigned(s: string, i: nat): (r: (string, int, nat))
    requires i <= |s|
    ensures Digits(r.0) && i <= r.2 <= |s|
    ensures IsDigit(Peek(s, i)) ==> i < r.2
  {
    var c := WholeEnd(s, i);
    var f := FractionDigits(s, c);
    var (power, end) := ExponentAt(s, FractionEnd(s, c));
    (WholeDigits(s, i) + f, power - |f|, end)
  }

  // parse_number on the text at i.
  function NumberAt(s: string, i: nat): (n: Number)
    requires i < |s| && (s[i] == '-' || IsDigit(s[i]))
    ensures i < n.next <= |s|
  {
    var (d, scale, end) := Unsigned(s, if s[i] == '-' then i + 1 else i);
    Number(Signed(s[i] == '-', Value(d)), scale, end)
  }

  function Signed(negative: bool, m: nat): int {
    if negative then -(m as int) else m
  }

  lemma NextDigit(s: string, i: nat, j: nat, before: string)
    requires i <= j < |s| && IsDigit(s[j]) && Digits(before + s[i..j])
    ensures Digits(before + s[i..j + 1])
    ensures Value(before + s[i..j + 1]) == Value(before + s[i..j]) * 10 + DigitValue(s[j])
  {
    var d := before + s[i..j];
    assert before + s[i..j + 1] == d + [s[j]];
    assert (d + [s[j]])[..|d|] == d;
  }

  // A run of digits from i folded into n; `count` is how many there were.
  method ReadDigits(s: string, i: nat, n: nat, ghost before: string)
    returns (j: nat, value: nat, count: nat)
    requires i <= |s| && Digits(before) && n == Value(before)
    ensures j == DigitsEnd(s, i) && count == j - i
    ensures Digits(before + s[i..j]) && value == Value(before + s[i..j])
  {
    j, value, count := i, n, 0;
    assert before + s[i..i] == before;
    while IsDigit(Peek(s, j))
      invariant i <= j <= |s| && count == j - i
      invariant DigitsEnd(s, j) == DigitsEnd(s, i)
      invariant Digits(before + s[i..j]) && value == Value(before + s[i..j])
      decreases |s| - j
    {
      NextDigit(s, i, j, before);
      value := value * 10 + DigitValue(s[j]);
      j, count := j + 1, count + 1;
    }
  }

  // An optional zero, then the digits of the whole part.
  method ParseWhole(s: string, i: nat) returns (p: nat, n: nat)
    requires i <= |s|
    ensures p == WholeEnd(s, i) && n == Value(WholeDigits(s, i))
  {
    p, n := i, 0;
    if Peek(s, p) == '0' { p := p + 1; }
    assert s[p..p] == "";
    if '1' <= Peek(s, p) <= '9' {
      var count;
      p, n, count := ReadDigits(s, p, 0, "");
      assert "" + s[WholeStart(s, i)..p] == s[WholeStart(s, i)..p];
    }
  }

  method ParseFraction(s: string, i: nat, n: nat, ghost whole: string)
    returns (p: nat, value: nat, scale: int)
    requires i <= |s| && Digits(whole) && n == Value(whole)
    ensures p == FractionEnd(s, i) && scale == -|FractionDigits(s, i)|
    ensures value == Value(whole + FractionDigits(s, i))
  {
    p, value, scale := i, n, 0;
    assert whole + "" == whole;
    if Peek(s, p) == '.' && IsDigit(Peek(s, p + 1)) {
      var count;
      p, value, count := ReadDigits(s, p + 1, n, whole);
      scale := -(count as int);
    }
  }

  // The digits of the power.
  method ReadPower(s: string, i: nat) returns (j: nat, value: nat)
    requires i <= |s|
    ensures j == DigitsEnd(s, i) && value == Value(s[i..j])
  {
    var count;
    j, value, count := ReadDigits(s, i, 0, "");
    assert "" + s[i..j] == s[i..j];
  }

  // The mark and the sign: where the digits start, and whether they count down.
  method ReadMark(s: string, i: nat) returns (p: nat, negative: bool)
    requires i <= |s| && HasExponent(s, i)
    ensures p == ExponentStart(s, i) && (negative <==> Peek(s, i + 1) == '-')
  {
    p, negative := i + 1, false;
    if Peek(s, p) == '+' { p := p + 1; }
    else if Peek(s, p) == '-' { negative, p := true, p + 1; }
  }

  method ParseExponent(s: string, i: nat) returns (p: nat, power: int)
    requires i <= |s|
    ensures (power, p) == ExponentAt(s, i)
  {
    p, power := i, 0;
    if HasExponent(s, p) {
      var negative;
      var subscale: nat;
      p, negative := ReadMark(s, p);
      p, subscale := ReadPower(s, p);
      power := Signed(negative, subscale);
    }
  }

  method ParseNumber(s: string, i: nat) returns (number: Number)
    requires i < |s| && (s[i] == '-' || IsDigit(s[i]))
    ensures number == NumberAt(s, i)
  {
    var sign: int, p, n, scale: int, power: int := 1, i, 0, 0, 0;
    if s[p] == '-' { sign, p := -1, p + 1; }
    ghost var whole := WholeDigits(s, p);
    p, n := ParseWhole(s, p);
    p, n, scale := ParseFraction(s, p, n, whole);
    p, power := ParseExponent(s, p);
    number := Number(Signed(sign == -1, n), scale + power, p);
  }

  datatype Exponent = Exponent(mark: char, sign: string, digits: string)

  // Zero, the digits before the point from the first that is no zero, and those
  // behind it; an empty fraction stands for none.
  datatype Numeral = Numeral(negative: bool, zero: bool, whole: string, fraction: string, exponent: Option<Exponent>)

  // What the loops take: a zero may stand before other digits, and digits may be
  // missing after the sign and after the mark of the exponent.
  predicate ValidNumeral(n: Numeral) {
    && Digits(n.whole) && Digits(n.fraction) && (n.negative || n.zero || n.whole != "")
    && (n.whole != "" ==> n.whole[0] != '0')
    && (n.exponent.Some? ==> ValidExponent(n.exponent.value))
  }

  predicate ValidExponent(e: Exponent) {
    (e.mark == 'e' || e.mark == 'E') && (e.sign == "" || e.sign == "+" || e.sign == "-") && Digits(e.digits)
  }

  // number = [ minus ] int [ frac ] [ exp ] of RFC 8259: the zero stands alone,
  // and no digits are missing.
  predicate ProperNumeral(n: Numeral) {
    ValidNumeral(n) && (n.zero <==> n.whole == "") && (n.exponent.Some? ==> n.exponent.value.digits != "")
  }

  function SpellSign(n: Numeral): string { if n.negative then "-" else "" }
  function SpellZero(n: Numeral): string { if n.zero then "0" else "" }
  function SpellFraction(f: string): string { if f == "" then "" else "." + f }
  function SpellExponent(e: Option<Exponent>): string {
    match e
    case None => ""
    case Some(x) => [x.mark] + (x.sign + x.digits)
  }

  // The sign, the zero and the digits before the point.
  function SpellStart(n: Numeral): string {
    SpellSign(n) + (SpellZero(n) + n.whole)
  }

  function SpellNumeral(n: Numeral): string {
    SpellStart(n) + (SpellFraction(n.fraction) + SpellExponent(n.exponent))
  }

  function Mantissa(n: Numeral): int
    requires ValidNumeral(n)
  {
    Signed(n.negative, Value(n.whole + n.fraction))
  }

  function Power(e: Option<Exponent>): int
    requires e.Some? ==> ValidExponent(e.value)
  {
    match e
    case None => 0
    case Some(x) => Signed(x.sign == "-", Value(x.digits))
  }

  function Scale(n: Numeral): int
    requires ValidNumeral(n)
  {
    Power(n.exponent) - |n.fraction|
  }

  predicate IsMark(c: char) { c == 'e' || c == 'E' }

  // The text at i goes on with no digit of a whole part that is the one of n so far.
  predicate WholeStops(s: string, i: nat, n: Numeral)
    requires i <= |s|
  {
    !IsDigit(Peek(s, i)) || (n.zero && n.whole == "" && Peek(s, i) == '0')
  }

  predicate FractionStops(s: string, i: nat, f: string)
    requires i <= |s|
  {
    if f == "" then Peek(s, i) == '.' ==> !IsDigit(Peek(s, i + 1)) else !IsDigit(Peek(s, i))
  }

  predicate ExponentStops(s: string, i: nat, e: Option<Exponent>)
    requires i <= |s|
  {
    match e
    case None => !IsMark(Peek(s, i))
    case Some(x) =>
      !IsDigit(Peek(s, i)) && (x.sign == "" && x.digits == "" ==> Peek(s, i) != '+' && Peek(s, i) != '-')
  }

  // The loops stop at i, where the numeral ends.
  predicate Stops(s: string, i: nat, n: Numeral)
    requires i <= |s|
  {
    && ExponentStops(s, i, n.exponent)
    && (n.exponent == None ==> FractionStops(s, i, n.fraction) && (n.fraction == "" ==> WholeStops(s, i, n)))
  }

  // No char that could continue any number follows.
  predicate Delimited(s: string, i: nat)
    requires i <= |s|
  {
    var c := Peek(s, i);
    !IsDigit(c) && c != '.' && !IsMark(c) && c != '+' && c != '-'
  }

  lemma DelimitedStops(s: string, i: nat, n: Numeral)
    requires i <= |s| && Delimited(s, i)
    ensures Stops(s, i, n)
  {
  }

  lemma FractionAccepts(s: string, c: nat, f: string, d: nat)
    requires Occurs(s, c, SpellFraction(f)) && Digits(f) && d == c + |SpellFraction(f)| && FractionStops(s, d, f)
    ensures FractionEnd(s, c) == d && FractionDigits(s, c) == f
  {
    if f != "" {
      OccursSplit(s, c, ".", f);
      OccursAt(s, c, ".", 0);
      OccursAt(s, c + 1, f, 0);
      DigitsOver(s, c + 1, f);
    }
  }

  lemma ExponentParts(s: string, d: nat, x: Exponent)
    requires ValidExponent(x) && Occurs(s, d, SpellExponent(Some(x)))
    ensures d < |s| && s[d] == x.mark
    ensures Occurs(s, d + 1, x.sign) && Occurs(s, d + 1 + |x.sign|, x.digits)
    ensures x.sign != "" ==> Peek(s, d + 1) == x.sign[0]
    ensures x.sign == "" && x.digits != "" ==> IsDigit(Peek(s, d + 1))
  {
    OccursSplit(s, d, [x.mark], x.sign + x.digits);
    OccursAt(s, d, [x.mark], 0);
    OccursSplit(s, d + 1, x.sign, x.digits);
    if x.sign != "" { OccursAt(s, d + 1, x.sign, 0); } else if x.digits != "" { OccursAt(s, d + 1, x.digits, 0); }
  }

  lemma ExponentAccepts(s: string, d: nat, e: Option<Exponent>, end: nat)
    requires e.Some? ==> ValidExponent(e.value)
    requires Occurs(s, d, SpellExponent(e)) && end == d + |SpellExponent(e)| && ExponentStops(s, end, e)
    ensures ExponentAt(s, d) == (Power(e), end)
  {
    if e.Some? {
      var x := e.value;
      ExponentParts(s, d, x);
      assert ExponentStart(s, d) == d + 1 + |x.sign|;
      DigitsOver(s, d + 1 + |x.sign|, x.digits);
    }
  }

  lemma WholeAccepts(s: string, a: nat, n: Numeral, c: nat)
    requires ValidNumeral(n) && Occurs(s, a, SpellZero(n) + n.whole) && c == a + |SpellZero(n)| + |n.whole|
    requires WholeStops(s, c, n)
    ensures WholeEnd(s, a) == c && WholeDigits(s, a) == n.whole
  {
    var b := a + |SpellZero(n)|;
    OccursSplit(s, a, SpellZero(n), n.whole);
    if n.zero { OccursAt(s, a, SpellZero(n), 0); }
    if n.whole != "" {
      OccursAt(s, b, n.whole, 0);
      DigitsOver(s, b, n.whole);
    }
  }

  // A mark or a point stops what stands before it.
  lemma PartsStop(s: string, n: Numeral, c: nat, d: nat, end: nat)
    requires ValidNumeral(n) && Occurs(s, c, SpellFraction(n.fraction)) && d == c + |SpellFraction(n.fraction)|
    requires Occurs(s, d, SpellExponent(n.exponent)) && end == d + |SpellExponent(n.exponent)| && Stops(s, end, n)
    ensures FractionStops(s, d, n.fraction) && WholeStops(s, c, n)
  {
    if n.exponent.Some? { ExponentParts(s, d, n.exponent.value); }
    if n.fraction != "" { OccursAt(s, c, SpellFraction(n.fraction), 0); }
  }

  lemma UnsignedAccepts(s: string, a: nat, n: Numeral, c: nat, d: nat, end: nat)
    requires ValidNumeral(n)
    requires Occurs(s, a, SpellZero(n) + n.whole) && c == a + |SpellZero(n)| + |n.whole|
    requires Occurs(s, c, SpellFraction(n.fraction)) && d == c + |SpellFraction(n.fraction)|
    requires Occurs(s, d, SpellExponent(n.exponent)) && end == d + |SpellExponent(n.exponent)| && Stops(s, end, n)
    ensures Unsigned(s, a) == (n.whole + n.fraction, Scale(n), end)
  {
    PartsStop(s, n, c, d, end);
    WholeAccepts(s, a, n, c);
    FractionAccepts(s, c, n.fraction, d);
    ExponentAccepts(s, d, n.exponent, end);
    UnsignedParts(s, a, n, c, d, end);
  }

  lemma UnsignedParts(s: string, a: nat, n: Numeral, c: nat, d: nat, end: nat)
    requires ValidNumeral(n) && a <= |s| && c <= |s| && d <= |s|
    requires WholeEnd(s, a) == c && WholeDigits(s, a) == n.whole
    requires FractionEnd(s, c) == d && FractionDigits(s, c) == n.fraction
    requires ExponentAt(s, d) == (Power(n.exponent), end)
    ensures Unsigned(s, a) == (n.whole + n.fraction, Scale(n), end)
  {
  }

  // Every number of the grammar at whose end the loops stop is read to that end,
  // with its exact value.
  lemma NumberAccepts(s: string, i: nat, n: Numeral, end: nat)
    requires ValidNumeral(n) && Occurs(s, i, SpellNumeral(n)) && end == i + |SpellNumeral(n)| && Stops(s, end, n)
    ensures i < |s| && (s[i] == '-' || IsDigit(s[i]))
    ensures NumberAt(s, i) == Number(Mantissa(n), Scale(n), end)
  {
    var a := i + |SpellSign(n)|;
    var c := a + |SpellZero(n)| + |n.whole|;
    var d := c + |SpellFraction(n.fraction)|;
    NumeralParts(s, i, n, a, c, d, end);
    UnsignedAccepts(s, a, n, c, d, end);
    SignAccepts(s, i, n, a);
    SignedNumber(s, i, n, a, end);
  }

  lemma SignedNumber(s: string, i: nat, n: Numeral, a: nat, end: nat)
    requires ValidNumeral(n) && i < |s| && (s[i] == '-' <==> n.negative) && (s[i] == '-' || IsDigit(s[i]))
    requires a == (if n.negative then i + 1 else i) && a <= |s|
    requires Unsigned(s, a) == (n.whole + n.fraction, Scale(n), end)
    ensures NumberAt(s, i) == Number(Mantissa(n), Scale(n), end)
  {
  }

  lemma NumeralParts(s: string, i: nat, n: Numeral, a: nat, c: nat, d: nat, end: nat)
    requires Occurs(s, i, SpellNumeral(n)) && a == i + |SpellSign(n)| && c == a + |SpellZero(n)| + |n.whole|
    requires d == c + |SpellFraction(n.fraction)| && end == i + |SpellNumeral(n)|
    ensures Occurs(s, i, SpellSign(n)) && Occurs(s, a, SpellZero(n) + n.whole)
    ensures Occurs(s, c, SpellFraction(n.fraction)) && Occurs(s, d, SpellExponent(n.exponent))
    ensures end == d + |SpellExponent(n.exponent)|
  {
    var fraction, exponent := SpellFraction(n.fraction), SpellExponent(n.exponent);
    OccursSplit(s, i, SpellStart(n), fraction + exponent);
    OccursSplit(s, i, SpellSign(n), SpellZero(n) + n.whole);
    OccursSplit(s, c, fraction, exponent);
  }

  lemma SignAccepts(s: string, i: nat, n: Numeral, a: nat)
    requires ValidNumeral(n) && a == i + |SpellSign(n)|
    requires Occurs(s, i, SpellSign(n)) && Occurs(s, a, SpellZero(n) + n.whole)
    ensures i < |s| && (s[i] == '-' <==> n.negative) && (s[i] == '-' || IsDigit(s[i]))
  {
    if n.negative {
      OccursAt(s, i, SpellSign(n), 0);
    } else {
      OccursAt(s, a, SpellZero(n) + n.whole, 0);
    }
  }
}
