// C strings as the program sees them: a pointer into NUL-terminated text is a
// text and a position, and every char of a text stands for one byte (0..255).
module CString {

  // `*ptr`. Position |s| is the terminator; nothing past it may be read.
  function Peek(s: string, i: nat): char
    requires i <= |s|
  {
    if i < |s| then s[i] else '\0'
  }

  // The text y stands at position i of s.
  predicate Occurs(s: string, i: nat, y: string) {
    i + |y| <= |s| && forall k {:trigger y[k]} :: 0 <= k < |y| ==> s[i + k] == y[k]
  }

  lemma OccursSplit(s: string, i: nat, a: string, b: string)
    requires Occurs(s, i, a + b)
    ensures Occurs(s, i, a) && Occurs(s, i + |a|, b)
  {
    var y := a + b;
    forall k | 0 <= k < |a| ensures s[i + k] == a[k] { assert s[i + k] == y[k]; }
    forall k | 0 <= k < |b| ensures s[i + |a| + k] == b[k] { assert s[i + (|a| + k)] == y[|a| + k]; }
  }

  lemma OccursJoin(s: string, i: nat, a: string, b: string)
    requires Occurs(s, i, a) && Occurs(s, i + |a|, b)
    ensures Occurs(s, i, a + b)
  {
    forall k | 0 <= k < |a + b| ensures s[i + k] == (a + b)[k] {
      if k >= |a| { assert s[i + |a| + (k - |a|)] == b[k - |a|]; }
    }
  }

  lemma OccursAt(s: string, i: nat, y: string, k: nat)
    requires Occurs(s, i, y) && k < |y|
    ensures s[i + k] == y[k]
  {
  }

  // In other words, y is that slice of s.
  lemma OccursIsSlice(s: string, i: nat, y: string)
    requires Occurs(s, i, y)
    ensures s[i..i + |y|] == y
  {
    assert |s[i..i + |y|]| == |y|;
  }

  // White space as `skip` sees it: every byte from 1 to 32.
  predicate IsBlank(c: char) {
    '\0' < c <= ' '
  }

  predicate Blanks(w: string) {
    forall k :: 0 <= k < |w| ==> IsBlank(w[k])
  }

  // The position `skip` returns.
  function Skip(s: string, i: nat): (j: nat)
    requires i <= |s|
    ensures i <= j <= |s|
    ensures !IsBlank(Peek(s, j))
    decreases |s| - i
  {
    if i < |s| && IsBlank(s[i]) then Skip(s, i + 1) else i
  }

  lemma {:induction false} SkipOver(s: string, i: nat, w: string)
    requires Occurs(s, i, w) && Blanks(w)
    requires !IsBlank(Peek(s, i + |w|))
    ensures Skip(s, i) == i + |w|
    decreases |w|
  {
    if w != "" {
      OccursAt(s, i, w, 0);
      assert w == w[..1] + w[1..];
      OccursSplit(s, i, w[..1], w[1..]);
      SkipOver(s, i + 1, w[1..]);
    }
  }

  // The loop of `skip`.
  method SkipBlanks(s: string, i: nat) returns (j: nat)
    requires i <= |s|
    ensures j == Skip(s, i)
  {
    j := i;
    while Peek(s, j) != '\0' && Peek(s, j) <= ' '
      invariant i <= j <= |s|
      invariant Skip(s, j) == Skip(s, i)
      decreases |s| - j
    {
      j := j + 1;
    }
  }

  // ASCII `tolower`, byte by byte.
  function ToLower(c: char): char {
    if 'A' <= c <= 'Z' then (c as int + 32) as char else c
  }

  function Lower(s: string): (r: string)
    ensures |r| == |s|
    ensures forall k :: 0 <= k < |s| ==> r[k] == ToLower(s[k])
  {
    seq(|s|, k requires 0 <= k < |s| => ToLower(s[k]))
  }

  const UPPER_CASE := "ABCDEFGHIJKLMNOPQRSTUVWXYZ"
  const LOWER_CASE := "abcdefghijklmnopqrstuvwxyz"

  // The same char, or the two cases of one letter.
  predicate SameButCase(c: char, d: char) {
    || c == d
    || (exists k | 0 <= k < 26 :: c == UPPER_CASE[k] && d == LOWER_CASE[k])
    || (exists k | 0 <= k < 26 :: d == UPPER_CASE[k] && c == LOWER_CASE[k])
  }

  predicate EqualButCase(a: string, b: string) {
    |a| == |b| && forall k :: 0 <= k < |a| ==> SameButCase(a[k], b[k])
  }

  lemma LetterCases(k: nat)
    requires k < 26
    ensures UPPER_CASE[k] as int == 65 + k && LOWER_CASE[k] as int == 97 + k
  {
  }

  lemma CasesOfLetter(c: char, d: char)
    ensures (exists k | 0 <= k < 26 :: c == UPPER_CASE[k] && d == LOWER_CASE[k])
       <==> 'A' <= c <= 'Z' && d as int == c as int + 32
  {
    if k :| 0 <= k < 26 && c == UPPER_CASE[k] && d == LOWER_CASE[k] { LetterCases(k); }
    if 'A' <= c <= 'Z' { LetterCases(c as int - 65); }
  }

  lemma LowerIdentifies(c: char, d: char)
    ensures ToLower(c) == ToLower(d) <==> SameButCase(c, d)
  {
    CasesOfLetter(c, d);
    CasesOfLetter(d, c);
  }

  // What the lower-case forms, which the lookups below compare, identify.
  lemma LowerIsEqualButCase(a: string, b: string)
    ensures Lower(a) == Lower(b) <==> EqualButCase(a, b)
  {
    forall k | 0 <= k < |a| && k < |b| ensures Lower(a)[k] == Lower(b)[k] <==> SameButCase(a[k], b[k]) {
      LowerIdentifies(a[k], b[k]);
    }
  }

  predicate NulFree(s: string) {
    forall k :: 0 <= k < |s| ==> s[k] != '\0'
  }

  // `cJSON_strcasecmp` on two non-null strings, reduced to "are they equal".
  method SameIgnoringCase(a: string, b: string) returns (same: bool)
    requires NulFree(a) && NulFree(b)
    ensures same <==> EqualButCase(a, b)
    ensures same <==> Lower(a) == Lower(b)
  {
    LowerIsEqualButCase(a, b);
    var k := 0;
    while ToLower(Peek(a, k)) == ToLower(Peek(b, k))
      invariant k <= |a| && k <= |b|
      invariant forall j :: 0 <= j < k ==> ToLower(a[j]) == ToLower(b[j])
      decreases |a| - k
    {
      if Peek(a, k) == '\0' {
        assert k == |a| && k == |b|;
        return true;
      }
      k := k + 1;
    }
    return false;
  }
}
