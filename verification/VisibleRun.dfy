// The scan for the longest run of visible characters in a data packet, and the
// text that is copied from it.
module VisibleRun {
  type Byte = b: int | 0 <= b < 256

  predicate Visible(b: Byte) {
    0x20 <= b <= 0x7e
  }

  predicate IsRun(buf: seq<Byte>, a: nat, b: nat) {
    a <= b <= |buf| && forall i :: a <= i < b ==> Visible(buf[i])
  }

  // A run that cannot be made longer at either end.
  predicate IsMaximal(buf: seq<Byte>, a: nat, b: nat) {
    && IsRun(buf, a, b)
    && (a > 0 ==> !Visible(buf[a - 1]))
    && (b < |buf| ==> !Visible(buf[b]))
  }

  // The scan: where the run begins and one more than its length.
  method ParseContinuousVisibleCharacters(buf: seq<Byte>) returns (start: nat, outlen: nat)
    ensures outlen >= 1 && start + outlen - 1 <= |buf|
    ensures forall i :: start <= i < start + outlen - 1 ==> 0x20 <= buf[i] <= 0x7e
    ensures outlen > 1 && start > 0 ==> !(0x20 <= buf[start - 1] <= 0x7e)
    ensures outlen > 1 && start + outlen - 1 < |buf| ==> !(0x20 <= buf[start + outlen - 1] <= 0x7e)
    ensures forall i: nat, j: nat :: IsRun(buf, i, j) ==> j - i < outlen
    ensures outlen > 1 ==> forall i: nat, j: nat :: IsRun(buf, i, j) && j - i == outlen - 1 ==> i <= start
  {
    var tmp, times, p := 0, 0, 0;
    start := 0;
    while p < |buf|
      invariant Scanning(buf, p, tmp, start, times)
    {
      if buf[p] >= 0x20 && buf[p] <= 0x7e {
        NextVisible(buf, p, tmp, start, times);
        tmp := tmp + 1;
      } else {
        RunEnds(buf, p - tmp, p, start, times);
        if tmp >= times {
          times := tmp;
          start := p - times;
        }
        SkipInvisible(buf, p, start, times);
        tmp := 0;
      }
      p := p + 1;
    }
    RunEnds(buf, p - tmp, p, start, times);
    if tmp != 0 {
      if tmp >= times {
        times := tmp;
        start := p - times;
      }
    }
    outlen := times + 1;
  }

  // Of the runs that end before position q, the one of the given length at
  // start is the longest and the last of its length.
  ghost predicate Scanned(buf: seq<Byte>, q: nat, start: nat, times: nat) {
    && q <= |buf|
    && IsRun(buf, start, start + times) && start + times <= q
    && (times > 0 ==> IsMaximal(buf, start, start + times))
    && (forall i: nat, j: nat :: IsRun(buf, i, j) && j <= q ==> j - i <= times)
    && (times > 0 ==> forall i: nat, j: nat :: IsRun(buf, i, j) && j <= q && j - i == times ==> i <= start)
  }

  // The run from q to p, with nothing visible before it, ends: it wins if it is
  // at least as long as the longest before it.
  lemma RunEnds(buf: seq<Byte>, q: nat, p: nat, start: nat, times: nat)
    requires Scanned(buf, q, start, times) && IsRun(buf, q, p) && (q > 0 ==> !Visible(buf[q - 1]))
    requires p < |buf| ==> !Visible(buf[p])
    ensures p - q >= times ==> Scanned(buf, p, q, p - q)
    ensures p - q < times ==> Scanned(buf, p, start, times)
  {
    assert forall i: nat, j: nat :: IsRun(buf, i, j) && j <= p ==> j <= q || q <= i;
  }

  lemma SkipInvisible(buf: seq<Byte>, p: nat, start: nat, times: nat)
    requires Scanned(buf, p, start, times) && p < |buf| && !Visible(buf[p])
    ensures Scanning(buf, p + 1, 0, start, times)
  {
    assert forall i: nat, j: nat :: IsRun(buf, i, j) && j <= p + 1 ==> j <= p || i == j;
  }

  // The last tmp bytes before p are a run that may go on, and the runs before it
  // have been looked at.
  ghost predicate Scanning(buf: seq<Byte>, p: int, tmp: int, start: int, times: int) {
    && 0 <= tmp <= p <= |buf| && 0 <= start && 0 <= times && Scanned(buf, p - tmp, start, times)
    && IsRun(buf, p - tmp, p) && (p > tmp ==> !Visible(buf[p - tmp - 1]))
  }

  lemma NextVisible(buf: seq<Byte>, p: nat, tmp: nat, start: nat, times: nat)
    requires Scanning(buf, p, tmp, start, times) && p < |buf| && Visible(buf[p])
    ensures Scanning(buf, p + 1, tmp + 1, start, times)
  {
  }

  // snprintf(out, size, "%s", buf + at): at most size - 1 characters, and no
  // further than the end of the string.
  function Copied(buf: seq<Byte>, at: nat, size: nat): seq<Byte>
    requires at <= |buf|
    decreases size
  {
    if size <= 1 || at == |buf| || buf[at] == 0 then [] else [buf[at]] + Copied(buf, at + 1, size - 1)
  }

  // Room for size - 1 characters of a run that long copies just them.
  lemma {:induction false} CopiedRun(buf: seq<Byte>, at: nat, size: nat)
    requires size >= 1 && at + size - 1 <= |buf| && IsRun(buf, at, at + size - 1)
    ensures Copied(buf, at, size) == buf[at..at + size - 1]
    decreases size
  {
    if size > 1 {
      CopiedRun(buf, at + 1, size - 1);
      assert buf[at..at + size - 1] == [buf[at]] + buf[at + 1..at + size - 1];
    }
  }

  function Min(a: nat, b: nat): nat {
    if a < b then a else b
  }

  // The run of the given length at start: no run is longer, none as long begins
  // later, and it cannot be made longer.
  ghost predicate LatestLongest(buf: seq<Byte>, start: nat, length: nat) {
    && IsRun(buf, start, start + length)
    && (length > 0 ==> IsMaximal(buf, start, start + length))
    && (forall i: nat, j: nat :: IsRun(buf, i, j) ==> j - i <= length)
    && (length > 0 ==> forall i: nat, j: nat :: IsRun(buf, i, j) && j - i == length ==> i <= start)
  }

  // The text copied from that run to an array of the given size, two bytes of
  // which stay free.
  ghost predicate IsRunText(buf: seq<Byte>, capacity: nat, text: seq<Byte>)
    requires capacity >= 2
  {
    exists start: nat, length: nat ::
      LatestLongest(buf, start, length) && text == buf[start..start + Min(length, capacity - 2)]
  }

  // What the handlers do with the scan.
  method RunText(buf: seq<Byte>, capacity: nat) returns (text: seq<Byte>)
    requires capacity >= 2
    ensures IsRunText(buf, capacity, text)
  {
    var ptr, len := ParseContinuousVisibleCharacters(buf);
    assert LatestLongest(buf, ptr, len - 1);
    len := if len < capacity - 1 then len else capacity - 1;
    CopiedRun(buf, ptr, len);
    text := Copied(buf, ptr, len);
  }

  // There is one such text: the bytes of the packet determine what is copied.
  lemma RunTextIsUnique(buf: seq<Byte>, capacity: nat, s: seq<Byte>, t: seq<Byte>)
    requires capacity >= 2 && IsRunText(buf, capacity, s) && IsRunText(buf, capacity, t)
    ensures s == t
  {
    var i: nat, k: nat :| LatestLongest(buf, i, k) && s == buf[i..i + Min(k, capacity - 2)];
    var j: nat, l: nat :| LatestLongest(buf, j, l) && t == buf[j..j + Min(l, capacity - 2)];
    assert IsRun(buf, i, i + k) && IsRun(buf, j, j + l);
  }
}
