// Where mem_pool_create puts the headers and the payloads in the one block it
// allocates.
module PoolLayout {
  const LIST_HEAD_SIZE := 16
  const POOL_SIZE := 32        // struct mem_pool_st: two list heads
  const INT_MAX := 0x7FFF_FFFF

  // `((size + 15) & 0xFFFFFFF0) + sizeof(struct list_head)`: the mask clears the
  // four low bits.
  function Stride(size: nat): nat {
    16 * Blocks(size) + LIST_HEAD_SIZE
  }

  function Blocks(size: nat): nat {
    (size + 15) / 16
  }

  function Total(num: nat, size: nat): nat {
    num * Stride(size) + POOL_SIZE
  }

  // The header of node i, from the start of the block; its payload follows it.
  function Header(i: nat, size: nat): nat {
    POOL_SIZE + i * Stride(size)
  }

  function Payload(i: nat, size: nat): nat {
    Header(i, size) + LIST_HEAD_SIZE
  }

  lemma NextHeader(i: nat, size: nat)
    ensures Header(i + 1, size) == Header(i, size) + Stride(size)
  {
    var stride := Stride(size);
    assert (i + 1) * stride == i * stride + stride;
  }

  lemma Times(i: nat, j: nat, stride: nat)
    requires i < j
    ensures i * stride + stride <= j * stride
  {
    assert (j - i - 1) * stride >= 0;
    assert j * stride == (j - i - 1) * stride + (i + 1) * stride;
  }

  // No byte is wasted but for the alignment: one node takes less than 16 bytes
  // more than its header and its payload.
  lemma StrideIsTight(size: nat)
    ensures size + LIST_HEAD_SIZE <= Stride(size) < size + LIST_HEAD_SIZE + 16
    ensures Stride(size) % 16 == 0
  {
  }

  // Any num nodes of any size: a payload begins where its header ends, has room
  // for size bytes, ends inside the block and before the next header; it lies
  // behind the two list heads.
  lemma PayloadsFit(num: nat, size: nat, i: nat)
    requires i < num
    ensures POOL_SIZE <= Header(i, size) && Header(i, size) + LIST_HEAD_SIZE == Payload(i, size)
    ensures Payload(i, size) + size <= Header(i + 1, size) <= Total(num, size)
    ensures i + 1 == num ==> Header(i + 1, size) == Total(num, size)
  {
    Times(i, i + 1, Stride(size));
    if i + 1 < num { Times(i + 1, num, Stride(size)); }
    StrideIsTight(size);
  }

  // Headers and payloads are aligned like the block.
  lemma PayloadsAreAligned(size: nat, i: nat)
    ensures Header(i, size) % 16 == 0 && Payload(i, size) % 16 == 0
  {
    var k := Blocks(size) + 1;
    assert Stride(size) == 16 * k;
    assert i * (16 * k) == 16 * (i * k);
    Sixteens(2 + i * k);
    Sixteens(3 + i * k);
  }

  lemma Sixteens(n: nat)
    ensures (16 * n) % 16 == 0
  {
  }

  // Two nodes never share a byte: the earlier payload, with all its size bytes,
  // ends before the later header begins.
  lemma PayloadsAreApart(size: nat, i: nat, j: nat)
    requires i < j
    ensures Payload(i, size) + size <= Header(j, size)
  {
    Times(i, j, Stride(size));
    StrideIsTight(size);
  }
}
