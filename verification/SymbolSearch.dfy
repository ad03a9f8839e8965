/** From a byte offset to the source block and the symbol that hold it: the search the
    receiver does for packets of the RaptorQ scheme. */
module SymbolSearch {
  import opened Symbols

  const WORD := 0x1_0000_0000

  /** symcnt symbols in zx blocks, the first JL of them one symbol longer than the rest. */
  datatype Layout = Layout(symcnt: nat, zx: nat) {
    ghost predicate Valid() {
      0 < zx < WORD && symcnt < WORD / 2
    }

    function IS(): nat
      requires zx > 0
    {
      symcnt / zx
    }

    function IL(): nat
      requires zx > 0
    {
      symcnt / zx + 1
    }

    function JL(): (r: nat)
      requires zx > 0
      ensures r < zx
    {
      assert symcnt == symcnt / zx * zx + symcnt % zx;
      symcnt - IS() * zx
    }

    ghost function Size(i: nat): nat
      requires zx > 0
    {
      if i < JL() then IL() else IS()
    }

    /** The number of symbols in the blocks before block i. */
    ghost function First(i: nat): nat
      requires zx > 0
    {
      if i == 0 then 0 else First(i - 1) + Size(i - 1)
    }
  }

  /** Unsigned 32-bit subtraction. */
  function Minus(a: nat, b: nat): nat
    requires a < WORD && b < WORD
  {
    (a - b) % WORD
  }

  function LayoutOf(fx: nat, tx: nat, zx: nat): Layout
    requires tx > 0
  {
    Layout(fx / tx + 1, zx)
  }

  /** The search loop. Up to the end of the object it finds the block; beyond it, it runs
      out of blocks and block 0 is reported. */
  method Search(fx: nat, tx: nat, zx: nat, startOffset: nat) returns (sbnz: nat, esiz: nat)
    requires tx > 0 && LayoutOf(fx, tx, zx).Valid() && startOffset / tx < WORD / 2
    ensures var y, x := LayoutOf(fx, tx, zx), startOffset / tx;
            if x < y.symcnt then Located(y, x, sbnz, esiz)
            else sbnz == 0 && esiz == x - y.symcnt
    ensures startOffset <= fx ==>
              var count := fx / tx + 1;
              && sbnz < zx && esiz < count / zx + (if sbnz < count % zx then 1 else 0)
              && sbnz * (count / zx) + (if sbnz < count % zx then sbnz else count % zx) + esiz == startOffset / tx
  {
    var y := LayoutOf(fx, tx, zx);
    var long, short, jl := y.IL(), y.IS(), y.JL();
    var js := zx - jl;
    var esi: int, sbSymcnt := startOffset / tx, 0;
    sbnz := 0;
    FirstMonotone(y, 0, zx);
    FirstAll(y);
    for i := 0 to zx
      invariant esi == startOffset / tx - y.First(i) >= 0
    {
      if i < jl {
        sbSymcnt := long;
      }
      if Minus(i, jl) < js {
        sbSymcnt := short;
      }
      assert sbSymcnt == y.Size(i);
      esi := esi - sbSymcnt;
      if esi < 0 {
        esi := esi + sbSymcnt;
        sbnz := i;
        FirstMonotone(y, i + 1, zx);
        Sizes(fx, tx, zx, i);
        OffsetInside(fx, tx, startOffset);
        return sbnz, esi;
      }
    }
    esiz := esi;
    OffsetInside(fx, tx, startOffset);
  }

  /** The sizes and starts of the blocks, from the transmitted numbers. */
  lemma Sizes(fx: nat, tx: nat, zx: nat, b: nat)
    requires tx > 0 && zx > 0
    ensures var y, count := LayoutOf(fx, tx, zx), fx / tx + 1;
            && y.Size(b) == count / zx + (if b < count % zx then 1 else 0)
            && y.First(b) == b * (count / zx) + if b < count % zx then b else count % zx
  {
    var count := fx / tx + 1;
    assert count == count / zx * zx + count % zx;
    FirstIs(LayoutOf(fx, tx, zx), b);
  }

  /** Offsets up to the transfer length lie within the symbols. */
  lemma OffsetInside(fx: nat, tx: nat, startOffset: nat)
    requires tx > 0
    ensures startOffset <= fx ==> startOffset / tx < fx / tx + 1
  {
    var a, b := startOffset / tx, fx / tx;
    assert startOffset == a * tx + startOffset % tx && fx == b * tx + fx % tx;
    if startOffset <= fx && a > b {
      MulMonotone(b, a, tx);
      assert false;
    }
  }

  lemma {:induction false} FirstMonotone(y: Layout, i: nat, j: nat)
    requires y.zx > 0 && i <= j
    ensures y.First(i) <= y.First(j)
  {
    if i < j {
      FirstMonotone(y, i, j - 1);
    }
  }

  lemma {:induction false} FirstIs(y: Layout, i: nat)
    requires y.zx > 0
    ensures y.First(i) == i * y.IS() + if i < y.JL() then i else y.JL()
  {
    if i > 0 {
      FirstIs(y, i - 1);
      assert i * y.IS() == (i - 1) * y.IS() + y.IS();
    }
  }

  /** The blocks hold all symbols. */
  lemma FirstAll(y: Layout)
    requires y.zx > 0
    ensures y.First(y.zx) == y.symcnt
  {
    FirstIs(y, y.zx);
    assert y.zx * y.IS() == y.IS() * y.zx;
  }

  /** A symbol lies in one block only. */
  lemma Unique(y: Layout, b: nat, e: nat, b': nat, e': nat)
    requires y.zx > 0 && e < y.Size(b) && e' < y.Size(b') && y.First(b) + e == y.First(b') + e'
    ensures b == b' && e == e'
  {
    if b < b' {
      FirstMonotone(y, b + 1, b');
    } else if b' < b {
      FirstMonotone(y, b' + 1, b);
    }
  }

  /** The block and the position in it that hold symbol x. */
  ghost predicate Located(y: Layout, x: nat, b: nat, e: nat)
    requires y.zx > 0
  {
    b < y.zx && e < y.Size(b) && y.First(b) + e == x
  }

  /** Every symbol of the object has exactly one place in the blocks. */
  lemma SymbolHasPlace(y: Layout, x: nat) returns (b: nat, e: nat)
    requires y.zx > 0 && x < y.symcnt
    ensures Located(y, x, b, e)
    ensures forall b': nat, e': nat {:trigger Located(y, x, b', e')} :: Located(y, x, b', e') ==> b' == b && e' == e
  {
    FirstAll(y);
    b, e := Locate(y, x, y.zx);
    forall b': nat, e': nat {:trigger Located(y, x, b', e')} | Located(y, x, b', e') ensures b' == b && e' == e {
      Unique(y, b, e, b', e');
    }
  }

  /** Every place in the blocks holds exactly one symbol of the object. */
  lemma PlaceHasSymbol(y: Layout, b: nat, e: nat)
    requires y.zx > 0 && b < y.zx && e < y.Size(b)
    ensures forall x: nat :: Located(y, x, b, e) <==> x == y.First(b) + e
    ensures y.First(b) + e < y.symcnt
  {
    FirstAll(y);
    FirstMonotone(y, b + 1, y.zx);
  }

  lemma {:induction false} Locate(y: Layout, x: nat, n: nat) returns (b: nat, e: nat)
    requires y.zx > 0 && n <= y.zx && x < y.First(n)
    ensures Located(y, x, b, e)
  {
    if y.First(n - 1) <= x {
      b, e := n - 1, x - y.First(n - 1);
    } else {
      b, e := Locate(y, x, n - 1);
    }
  }
}
