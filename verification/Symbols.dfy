/** Bytes, and cutting a source block into encoding symbols. */
module Symbols {

  type byte = x: int | 0 <= x < 256
  type Bytes = seq<byte>

  /** Number of symbols of es bytes that hold len bytes. */
  function CeilDiv(len: nat, es: nat): nat
    requires es > 0
  {
    if len % es == 0 then len / es else len / es + 1
  }

  /** The symbols of a block; the last one may be short. */
  function Cut(data: Bytes, es: nat): (r: seq<Bytes>)
    requires es > 0
  {
    if data == [] then []
    else if |data| <= es then [data]
    else [data[..es]] + Cut(data[es..], es)
  }

  function Flatten(s: seq<Bytes>): Bytes {
    if s == [] then [] else s[0] + Flatten(s[1..])
  }

  function Zeros(n: nat): (r: Bytes)
    ensures |r| == n && forall i :: 0 <= i < n ==> r[i] == 0
  {
    seq(n, i => 0)
  }

  /** A symbol in a zeroed buffer of es bytes. */
  function Padded(s: Bytes, es: nat): (r: Bytes)
    requires |s| <= es
    ensures |r| == es
  {
    s + Zeros(es - |s|)
  }

  function Min(a: nat, b: nat): (r: nat)
    ensures r <= a && r <= b && (r == a || r == b)
  {
    if a <= b then a else b
  }

  lemma DivStep(len: nat, es: nat)
    requires 0 < es <= len
    ensures (len - es) / es == len / es - 1 && (len - es) % es == len % es
  {
    var q, r := len / es, len % es;
    assert len == q * es + r;
    assert q >= 1;
    assert len - es == (q - 1) * es + r;
    DivUnique(len - es, es, q - 1, r);
  }

  lemma {:induction false} MulMonotone(a: nat, b: nat, d: nat)
    ensures a < b ==> a * d + d <= b * d
  {
    if a < b {
      assert b * d == (b - 1) * d + d;
      MulMonotone(a, b - 1, d);
    }
  }

  lemma DivUnique(x: nat, d: nat, q: nat, r: nat)
    requires d > 0 && r < d && x == q * d + r
    ensures x / d == q && x % d == r
  {
    var q', r' := x / d, x % d;
    assert x == d * q' + r' && d * q' == q' * d;
    MulMonotone(q', q, d);
    MulMonotone(q, q', d);
  }

  lemma DivBounds(x: nat, d: nat)
    requires d > 0
    ensures x / d * d <= x < (x / d + 1) * d
  {
    var q, r := x / d, x % d;
    assert x == d * q + r && d * q == q * d;
    assert (q + 1) * d == q * d + d;
  }

  lemma {:induction false} CutCount(data: Bytes, es: nat)
    requires es > 0
    ensures |Cut(data, es)| == CeilDiv(|data|, es)
  {
    if |data| > es {
      DivStep(|data|, es);
      CutCount(data[es..], es);
    } else if |data| == es {
      DivUnique(es, es, 1, 0);
    } else {
      DivUnique(|data|, es, 0, |data|);
    }
  }

  lemma {:induction false} FlattenCut(data: Bytes, es: nat)
    requires es > 0
    ensures Flatten(Cut(data, es)) == data
  {
    if |data| > es {
      FlattenCut(data[es..], es);
      assert Cut(data, es)[1..] == Cut(data[es..], es);
    }
  }

  /** All symbols but the last are full. */
  lemma {:induction false} CutLengths(data: Bytes, es: nat, i: nat)
    requires es > 0 && i < |Cut(data, es)|
    ensures 0 < |Cut(data, es)[i]| <= es && (i + 1 < |Cut(data, es)| ==> |Cut(data, es)[i]| == es)
  {
    if i > 0 {
      CutLengths(data[es..], es, i - 1);
    }
  }

  /** Symbol i is the i-th stretch of es bytes, the last one ending with the data. */
  lemma {:induction false} CutSlice(data: Bytes, es: nat, i: nat)
    requires es > 0 && i < |Cut(data, es)|
    ensures i * es < |data| <= |Cut(data, es)| * es
    ensures Cut(data, es)[i] == data[i * es..if (i + 1) * es <= |data| then (i + 1) * es else |data|]
  {
    var k := |Cut(data, es)|;
    if |data| <= es {
      assert data == data[0..|data|];
    } else {
      CutSlice(data[es..], es, if i == 0 then 0 else i - 1);
      Shifted(i, es, k);
      SliceShift(data, es, i);
    }
  }

  lemma Shifted(i: nat, es: nat, k: nat)
    ensures k >= 1 ==> k * es == (k - 1) * es + es
    ensures i >= 1 ==> i * es == (i - 1) * es + es
    ensures (i + 1) * es == i * es + es
  {}

  /** Stretch i of the data is stretch i - 1 of the data behind the first es bytes. */
  lemma SliceShift(data: Bytes, es: nat, i: nat)
    requires 0 < es < |data|
    ensures i > 0 && (i - 1) * es < |data| - es ==>
              var hi := if i * es <= |data| - es then i * es else |data| - es;
              (i - 1) * es <= hi && i * es < |data| && data[es..][(i - 1) * es..hi]
              == data[i * es..if (i + 1) * es <= |data| then (i + 1) * es else |data|]
  {
    Shifted(i, es, 0);
  }

  lemma {:induction false} FlattenAppend(a: seq<Bytes>, b: seq<Bytes>)
    ensures Flatten(a + b) == Flatten(a) + Flatten(b)
  {
    if a == [] {
      assert a + b == b;
    } else {
      assert (a + b)[1..] == a[1..] + b;
      FlattenAppend(a[1..], b);
    }
  }
}
