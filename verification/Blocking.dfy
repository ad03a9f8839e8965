/** Partitioning an object into source blocks, and the padding that makes the blocks equal. */
module Blocking {
  import opened Symbols

  /** blocking_struct_t; i holds the symbol length. */
  datatype BlockingStruct = BlockingStruct(i: nat, n: nat, aLarge: nat, aSmall: nat)

  /** compute_blocking_structure: an object of l bytes in symbols of e bytes and blocks of at
      most b symbols. */
  function ComputeBlockingStructure(l: nat, b: nat, e: nat): BlockingStruct
    requires l > 0 && b > 0 && e > 0
  {
    var t := CeilDiv(l, e);
    CeilDivPositive(l, e);
    var n := CeilDiv(t, b);
    CeilDivPositive(t, b);
    BlockingStruct(e, n, CeilDiv(t, n), t / n)
  }

  lemma CeilDivBounds(x: nat, d: nat)
    requires d > 0
    ensures x <= CeilDiv(x, d) * d < x + d
    ensures x / d * d <= x
  {
    var q, r := x / d, x % d;
    assert x == d * q + r && d * q == q * d;
    assert (q + 1) * d == q * d + d;
  }

  lemma CeilDivPositive(x: nat, d: nat)
    requires d > 0 && x > 0
    ensures CeilDiv(x, d) > 0
  {
    CeilDivBounds(x, d);
  }

  /** A quotient is at most q if the dividend is at most q times the divisor. */
  lemma CeilDivAtMost(x: nat, d: nat, q: nat)
    requires d > 0 && x <= q * d
    ensures CeilDiv(x, d) <= q
  {
    CeilDivBounds(x, d);
    var c := CeilDiv(x, d);
    if c > q {
      MulMonotone(q, c, d);
    }
  }

  /** Section 9.1 of RFC 5052: t symbols in n blocks of two sizes that differ by at most one
      and do not exceed the limit, the first t mod n of them large. */
  lemma Partition(l: nat, b: nat, e: nat)
    requires l > 0 && b > 0 && e > 0
    ensures var s, t := ComputeBlockingStructure(l, b, e), CeilDiv(l, e);
            && s.i == e && s.n > 0 && l <= t * e < l + e
            && (s.n - 1) * b < t <= s.n * b
            && s.n * s.aSmall <= t <= s.n * s.aLarge
            && s.aLarge <= b && s.aSmall <= s.aLarge <= s.aSmall + 1
            && t == (t % s.n) * s.aLarge + (s.n - t % s.n) * s.aSmall
  {
    var s, t := ComputeBlockingStructure(l, b, e), CeilDiv(l, e);
    CeilDivBounds(l, e);
    CeilDivPositive(l, e);
    CeilDivBounds(t, b);
    CeilDivPositive(t, b);
    assert (s.n - 1) * b == s.n * b - b;
    CeilDivBounds(t, s.n);
    assert s.n * s.aSmall == s.aSmall * s.n && s.n * s.aLarge == s.aLarge * s.n;
    assert t <= b * s.n;
    CeilDivAtMost(t, s.n, b);
    TwoSizes(t, s.n);
  }

  lemma TwoSizes(t: nat, n: nat)
    requires n > 0
    ensures t == (t % n) * CeilDiv(t, n) + (n - t % n) * (t / n)
  {
    var q, r := t / n, t % n;
    assert t == n * q + r;
    if r == 0 {
      assert n * q == (n - r) * q;
    } else {
      assert r * (q + 1) == r * q + r;
      assert (n - r) * q == n * q - r * q;
    }
  }

  /** compute_padding_length. */
  function ComputePaddingLength(fSize: nat, blockLen: nat, esLen: nat): int
    requires blockLen > 0 && esLen > 0
  {
    var size := BlockBytes(blockLen, esLen);
    if fSize <= size then 0 else if fSize % size == 0 then 0 else size - fSize % size
  }

  function BlockBytes(blockLen: nat, esLen: nat): (r: nat)
    requires blockLen > 0 && esLen > 0
    ensures r == blockLen * esLen > 0
  {
    assert blockLen * esLen >= 1 * esLen;
    blockLen * esLen
  }

  /** No padding exactly for files of at most one block and for multiples of the block size. */
  lemma NoPadding(fSize: nat, blockLen: nat, esLen: nat)
    requires blockLen > 0 && esLen > 0 && blockLen * esLen > 0
    ensures ComputePaddingLength(fSize, blockLen, esLen) == 0
            <==> fSize <= blockLen * esLen || fSize % (blockLen * esLen) == 0
  {
    assert BlockBytes(blockLen, esLen) == blockLen * esLen;
  }

  /** The padding is the least that fills the last block. */
  lemma PaddingFills(fSize: nat, blockLen: nat, esLen: nat)
    requires blockLen > 0 && esLen > 0 && fSize > BlockBytes(blockLen, esLen)
    ensures var p, size := ComputePaddingLength(fSize, blockLen, esLen), BlockBytes(blockLen, esLen);
            0 <= p < size && fSize + p == CeilDiv(fSize, size) * size
  {
    var size := BlockBytes(blockLen, esLen);
    var q, r := fSize / size, fSize % size;
    assert fSize == size * q + r && size * q == q * size;
    assert (q + 1) * size == q * size + size;
  }

  lemma ExactQuotient(x: nat, d: nat, q: nat)
    requires d > 0 && x == q * d
    ensures CeilDiv(x, d) == q && x / d == q
  {
    DivUnique(x, d, q, 0);
  }

  /** A padded file has only full blocks: it is cut into n blocks of b symbols of e bytes,
      with nothing left over. */
  lemma PaddedPartition(fSize: nat, b: nat, e: nat)
    requires b > 0 && e > 0 && fSize > BlockBytes(b, e)
    ensures var padded := fSize + ComputePaddingLength(fSize, b, e);
            padded > 0
            && var s := ComputeBlockingStructure(padded, b, e);
               s.aLarge == s.aSmall == b && s.n * b * e == padded
  {
    PaddingFills(fSize, b, e);
    var size := BlockBytes(b, e);
    var n, padded := CeilDiv(fSize, size), fSize + ComputePaddingLength(fSize, b, e);
    CeilDivPositive(fSize, size);
    assert padded == n * (b * e) == n * b * e;
    ExactQuotient(padded, e, n * b);
    ExactQuotient(n * b, b, n);
    assert n * b == b * n;
    ExactQuotient(n * b, n, b);
  }
}
