/** invert_mat: in-place Gauss-Jordan elimination with row pivoting on a flat k x k
    buffer. It returns 0 with the inverse in place, or 1 exactly for singular input. */
module InvertMat {
  import opened Field
  import opened FieldLaws
  import opened Linear
  import opened Tables
  import opened Kernels
  import opened GaussJordan

  /** Writing one row of the buffer replaces one row of the matrix. */
  lemma {:induction false} RowsUpdate(s: Vector, s': Vector, n: nat, k: nat, p: nat)
    requires At(n, k) <= |s| == |s'| && p < n && At(p, k) + k <= |s|
    requires forall i :: 0 <= i < |s| && !(At(p, k) <= i < At(p, k) + k) ==> s'[i] == s[i]
    ensures Rows(s', 0, n, k) == Rows(s, 0, n, k)[p := s'[At(p, k)..At(p, k) + k]]
  {
    AtNext(n - 1, k);
    hide At;
    if p == n - 1 {
      RowsSame(s, s', 0, n - 1, k);
    } else {
      AtBound(p, n - 1, k);
      RowsUpdate(s, s', n - 1, k, p);
      assert s'[At(n - 1, k)..At(n, k)] == s[At(n - 1, k)..At(n, k)];
    }
  }

  ghost function Mat(s: Vector, k: nat): (r: Matrix)
    requires At(k, k) == |s|
    ensures IsMatrix(r, k, k)
  {
    Rows(s, 0, k, k)
  }

  lemma MatAt(s: Vector, k: nat, i: nat)
    requires At(k, k) == |s| && i < k
    ensures At(i, k) + k <= |s| && Mat(s, k)[i] == s[At(i, k)..At(i, k) + k]
  {
    RowsAt(s, 0, k, k, i);
  }

  lemma MatUpdate(s: Vector, s': Vector, k: nat, p: nat)
    requires At(k, k) == |s| == |s'| && p < k && At(p, k) + k <= |s|
    requires forall i :: 0 <= i < |s| && !(At(p, k) <= i < At(p, k) + k) ==> s'[i] == s[i]
    ensures Mat(s', k) == Mat(s, k)[p := s'[At(p, k)..At(p, k) + k]]
  {
    RowsUpdate(s, s', k, k, p);
  }

  /** Look for a non-zero entry outside the pivot rows and columns: the diagonal first. */
  method FindPivot(src: array<gf>, k: nat, ipiv: array<nat>, col: nat) returns (irow: int, icol: int)
    requires src.Length == At(k, k) && ipiv.Length == k && IsPivots(ipiv[..], k) && col < k
    ensures icol != -1 ==> 0 <= irow < k && 0 <= icol < k && ipiv[irow] == 0 && ipiv[icol] == 0
    ensures icol != -1 ==> Mat(src[..], k)[irow][icol] != 0
    ensures icol == -1 ==> NoFreeEntry(Mat(src[..], k), ipiv[..], k)
  {
    hide At, Rows;
    ghost var m := Mat(src[..], k);
    MatAt(src[..], k, col);
    irow, icol := -1, -1;
    if ipiv[col] != 1 && src[At(col, k) + col] != 0 {
      return col, col;
    }
    for row := 0 to k
      invariant icol == -1
      invariant forall i, j :: 0 <= i < row && 0 <= j < k && ipiv[i] == 0 && ipiv[j] == 0 ==> m[i][j] == 0
    {
      if ipiv[row] != 1 {
        MatAt(src[..], k, row);
        for ix := 0 to k
          invariant icol == -1
          invariant forall j :: 0 <= j < ix && ipiv[j] == 0 ==> m[row][j] == 0
        {
          if ipiv[ix] == 0 {
            if src[At(row, k) + ix] != 0 {
              return row, ix;
            }
          } else if ipiv[ix] > 1 {
            assert false; // no entry is ever incremented twice
          }
        }
      }
    }
  }

  method SwapRows(src: array<gf>, k: nat, irow: nat, icol: nat)
    requires src.Length == At(k, k) && irow < k && icol < k && irow != icol
    modifies src
    ensures Mat(src[..], k) == Swap(Mat(old(src[..]), k), irow, icol)
  {
    ghost var was := src[..];
    var r, c := At(irow, k), At(icol, k);
    RowsApart(irow, icol, k);
    hide At, Rows;
    MatAt(was, k, irow);
    MatAt(was, k, icol);
    PartSwappedNone(was, r, c);
    hide PartSwapped, Mat;
    for ix := 0 to k
      invariant src[..] == PartSwapped(was, r, c, ix)
    {
      PartSwappedNext(was, r, c, ix);
      src[r + ix], src[c + ix] := src[c + ix], src[r + ix];
    }
    SwappedRows(was, k, irow, icol);
  }

  /** n entries from r on exchanged with the n entries from c on. */
  ghost function PartSwapped(s: Vector, r: nat, c: nat, n: nat): (o: Vector)
    requires r + n <= |s| && c + n <= |s|
    ensures |o| == |s|
  {
    seq(|s|, i requires 0 <= i < |s| =>
      if r <= i < r + n then s[i - r + c] else if c <= i < c + n then s[i - c + r] else s[i])
  }

  lemma PartSwappedNone(s: Vector, r: nat, c: nat)
    requires r <= |s| && c <= |s|
    ensures PartSwapped(s, r, c, 0) == s
  {}

  lemma PartSwappedNext(s: Vector, r: nat, c: nat, n: nat)
    requires r + n < |s| && c + n < |s| && (r + n < c || c + n < r)
    ensures PartSwapped(s, r, c, n + 1) == Swap(PartSwapped(s, r, c, n), r + n, c + n)
  {}

  lemma PartSwappedAll(s: Vector, r: nat, c: nat, n: nat)
    requires r + n <= |s| && c + n <= |s| && (r + n <= c || c + n <= r)
    ensures PartSwapped(s, r, c, n)[r..r + n] == s[c..c + n]
    ensures PartSwapped(s, r, c, n)[c..c + n] == s[r..r + n]
  {}

  lemma SwappedRows(was: Vector, k: nat, irow: nat, icol: nat)
    requires At(k, k) == |was| && irow < k && icol < k && irow != icol
    requires At(irow, k) + k <= |was| && At(icol, k) + k <= |was|
    ensures Mat(PartSwapped(was, At(irow, k), At(icol, k), k), k) == Swap(Mat(was, k), irow, icol)
  {
    var r, c := At(irow, k), At(icol, k);
    RowsApart(irow, icol, k);
    PartSwappedAll(was, r, c, k);
    hide At, Rows;
    var now := PartSwapped(was, r, c, k);
    var mid := was[..r] + now[r..r + k] + was[r + k..];
    MatAt(was, k, irow);
    MatAt(was, k, icol);
    hide Mat, PartSwapped;
    assert mid[r..r + k] == now[r..r + k];
    MatUpdate(was, mid, k, irow);
    PartSwappedFrame(was, r, c, k);
    MatUpdate(mid, now, k, icol);
  }

  lemma PartSwappedFrame(s: Vector, r: nat, c: nat, n: nat)
    requires r + n <= |s| && c + n <= |s|
    ensures forall i :: 0 <= i < |s| && !(r <= i < r + n) && !(c <= i < c + n) ==> PartSwapped(s, r, c, n)[i] == s[i]
  {}

  lemma RowsApart(i: nat, j: nat, k: nat)
    requires i != j
    ensures At(i, k) + k <= At(j, k) || At(j, k) + k <= At(i, k)
  {
    if i < j {
      AtBound(i, j, k);
    } else {
      AtBound(j, i, k);
    }
  }

  /** Multiply k entries by c. */
  method ScaleRange(t: GfTables, src: array<gf>, off: nat, k: nat, c: gf)
    requires t.Valid() && off + k <= src.Length
    modifies src
    ensures src[off..off + k] == Scale(c, old(src[off..off + k]))
    ensures forall i :: 0 <= i < src.Length && !(off <= i < off + k) ==> src[i] == old(src[i])
  {
    hide Mul, GfTables.Valid;
    ghost var was := src[..];
    for ix := 0 to k
      invariant forall i :: off <= i < off + ix ==> src[i] == Mul(c, was[i])
      invariant forall i :: 0 <= i < src.Length && !(off <= i < off + ix) ==> src[i] == was[i]
    {
      src[off + ix] := GfMul(t, c, src[off + ix]);
    }
  }

  /** Divide the pivot row by its pivot, which becomes 1 / pivot in place. */
  method ScalePivotRow(t: GfTables, src: array<gf>, k: nat, p: nat)
    requires t.Valid() && src.Length == At(k, k) && p < k && Mat(src[..], k)[p][p] != 0
    modifies src
    ensures Mat(src[..], k) == Mat(old(src[..]), k)[p := PivotRow(Mat(old(src[..]), k), p)]
  {
    ghost var was, m := src[..], Mat(src[..], k);
    var pivotRow := At(p, k);
    MatAt(was, k, p);
    hide At, Rows, Scale, Inv;
    var c := src[pivotRow + p];
    ScaleByOne(m[p], p);
    if c != 1 {
      c := t.inverse[c];
      src[pivotRow + p] := 1;
      assert src[pivotRow..pivotRow + k] == m[p][p := 1];
      hide GfTables.Valid;
      ScaleRange(t, src, pivotRow, k, c);
      RowsUpdate(was, src[..], k, k, p);
    }
  }

  /** A pivot of 1 needs no scaling. */
  lemma ScaleByOne(r: Vector, p: nat)
    requires p < |r|
    ensures r[p] == 1 ==> Scale(Inv(r[p]), r[p := 1]) == r
  {
    InvOne();
    hide Mul, Inv;
    if r[p] == 1 {
      forall i | 0 <= i < |r| ensures Scale(Inv(r[p]), r[p := 1])[i] == r[i] {
        MulOne(r[i]);
      }
    }
  }

  method ClearRow(t: GfTables, src: array<gf>, k: nat, p: nat, ix: nat)
    requires t.Valid() && src.Length == At(k, k) && p < k && ix < k && p != ix
    modifies src
    ensures var m := Mat(old(src[..]), k);
            Mat(src[..], k) == m[ix := AddMul(m[ix][p := 0], m[p], m[ix][p])]
  {
    ghost var was := src[..];
    var row, pivotRow := At(ix, k), At(p, k);
    RowsApart(ix, p, k);
    hide At, Rows, Mul, Add, GfTables.Valid, AddMulRange, AddMul;
    MatAt(was, k, ix);
    MatAt(was, k, p);
    var c := src[row + p];
    src[row + p] := 0;
    Addmul(t, src, row, src, pivotRow, c, k);
    ClearedBuffer(was, k, p, ix);
  }

  lemma ClearedBuffer(was: Vector, k: nat, p: nat, ix: nat)
    requires |was| == At(k, k) && p < k && ix < k && p != ix
    requires At(ix, k) + k <= |was| && At(p, k) + k <= |was|
    ensures var m, row, mid := Mat(was, k), At(ix, k), was[At(ix, k) + p := 0];
            Mat(AddMulRange(mid, row, mid, At(p, k), was[row + p], k), k) == m[ix := AddMul(m[ix][p := 0], m[p], m[ix][p])]
  {
    var row, pivotRow := At(ix, k), At(p, k);
    RowsApart(ix, p, k);
    hide At, Rows, AddMulRange, AddMul;
    var mid, c := was[row + p := 0], was[row + p];
    MatAt(was, k, ix);
    MatAt(was, k, p);
    AddMulRangeFrame(mid, row, mid, pivotRow, c, k);
    assert mid[row..row + k] == was[row..row + k][p := 0];
    assert mid[pivotRow..pivotRow + k] == was[pivotRow..pivotRow + k];
    hide Mat;
    MatUpdate(was, AddMulRange(mid, row, mid, pivotRow, c, k), k, ix);
  }

  lemma AddMulRangeFrame(dst: Vector, d: nat, src: Vector, s: nat, c: gf, n: nat)
    requires d + n <= |dst| && s + n <= |src|
    ensures forall i :: 0 <= i < |dst| && !(d <= i < d + n) ==> AddMulRange(dst, d, src, s, c, n)[i] == dst[i]
    ensures AddMulRange(dst, d, src, s, c, n)[d..d + n] == AddMul(dst[d..d + n], src[s..s + n], c)
  {
    hide Add, Mul;
  }

  /** Remove multiples of the (scaled) pivot row from all other rows. */
  method ClearColumn(t: GfTables, src: array<gf>, k: nat, p: nat, ghost m: Matrix)
    requires t.Valid() && src.Length == At(k, k) && p < k && IsMatrix(m, k, k)
    requires Mat(src[..], k) == m[p := PivotRow(m, p)]
    modifies src
    ensures Mat(src[..], k) == Pivoted(m, p)
  {
    hide At, Rows, Mul, Inv, GfTables.Valid, PivotRow;
    var row := 0;
    AtNext(0, k);
    for ix := 0 to k
      invariant row == At(ix, k)
      invariant forall i :: 0 <= i < ix ==> Mat(src[..], k)[i] == ClearedRow(m, p, i)
      invariant forall i :: ix <= i < k ==> Mat(src[..], k)[i] == m[p := PivotRow(m, p)][i]
      invariant Mat(src[..], k)[p] == PivotRow(m, p)
    {
      AtNext(ix, k);
      if ix != p {
        ClearRow(t, src, k, p, ix);
      }
      row := row + k;
    }
  }

  // ----- the order in which rows were swapped

  ghost predicate SwapsBelow(indxr: seq<nat>, indxc: seq<nat>, n: nat, k: nat) {
    n <= |indxr| && n <= |indxc| && forall i :: 0 <= i < n ==> indxr[i] < k && indxc[i] < k
  }

  ghost function SwapOrder(indxr: seq<nat>, indxc: seq<nat>, n: nat, k: nat): (r: seq<nat>)
    requires SwapsBelow(indxr, indxc, n, k)
    ensures IsOrder(r, k)
  {
    if n == 0 then InOrder(k) else Swap(SwapOrder(indxr, indxc, n - 1, k), indxr[n - 1], indxc[n - 1])
  }

  lemma {:induction false} SwapOrderSame(r: seq<nat>, c: seq<nat>, r': seq<nat>, c': seq<nat>, n: nat, k: nat)
    requires n <= |r| && n <= |c| && n <= |r'| && n <= |c'|
    requires forall i :: 0 <= i < n ==> r[i] == r'[i] < k && c[i] == c'[i] < k
    ensures SwapOrder(r, c, n, k) == SwapOrder(r', c', n, k)
  {
    if n > 0 {
      SwapOrderSame(r, c, r', c', n - 1, k);
    }
  }

  method SwapInRow(src: array<gf>, k: nat, row: nat, r: nat, c: nat)
    requires src.Length == At(k, k) && r < k && c < k && r != c && row < k
    modifies src
    ensures Mat(src[..], k) == Mat(old(src[..]), k)[row := Swap(Mat(old(src[..]), k)[row], r, c)]
  {
    hide At, Rows;
    ghost var before := src[..];
    var p := At(row, k);
    MatAt(before, k, row);
    src[p + r], src[p + c] := src[p + c], src[p + r];
    RowsUpdate(before, src[..], k, k, row);
    assert src[p..p + k] == Swap(before[p..p + k], r, c);
  }

  method SwapColumnsInPlace(src: array<gf>, k: nat, r: nat, c: nat)
    requires src.Length == At(k, k) && r < k && c < k && r != c
    modifies src
    ensures Mat(src[..], k) == SwapColumns(Mat(old(src[..]), k), k, r, c)
  {
    hide At, Rows, Mat;
    ghost var m := Mat(src[..], k);
    for row := 0 to k
      invariant forall i :: 0 <= i < row ==> Mat(src[..], k)[i] == Swap(m[i], r, c)
      invariant forall i :: row <= i < k ==> Mat(src[..], k)[i] == m[i]
    {
      SwapInRow(src, k, row, r, c);
    }
  }

  /** The last loop: undo the row swaps on the columns, latest first. */
  method Unscramble(src: array<gf>, k: nat, indxr: array<nat>, indxc: array<nat>, ghost a: Matrix)
    requires src.Length == At(k, k) && indxr.Length == indxc.Length == k
    requires SwapsBelow(indxr[..], indxc[..], k, k)
    requires Solves(a, Mat(src[..], k), SwapOrder(indxr[..], indxc[..], k, k), k)
    modifies src
    ensures Solves(a, Mat(src[..], k), InOrder(k), k)
  {
    hide At, Rows, Solves;
    var col := k - 1;
    while col >= 0
      invariant -1 <= col < k
      invariant Solves(a, Mat(src[..], k), SwapOrder(indxr[..], indxc[..], col + 1, k), k)
    {
      ghost var order := SwapOrder(indxr[..], indxc[..], col, k);
      UnscrambleStep(a, Mat(src[..], k), order, k, indxr[col], indxc[col]);
      if indxr[col] != indxc[col] {
        SwapColumnsInPlace(src, k, indxr[col], indxc[col]);
      } else {
        SwapSelf(Mat(src[..], k), k, indxr[col]);
      }
      col := col - 1;
    }
  }

  lemma SwapSelf(m: Matrix, k: nat, i: nat)
    requires IsMatrix(m, k, k) && i < k
    ensures SwapColumns(m, k, i, i) == m
  {
    forall l | 0 <= l < k ensures SwapColumns(m, k, i, i)[l] == m[l] {}
  }

  // ----- the whole routine

  /** The number of pivots among the first n rows. */
  ghost function Taken(piv: seq<nat>, n: nat): nat
    requires n <= |piv|
  {
    if n == 0 then 0 else Taken(piv, n - 1) + piv[n - 1]
  }

  lemma {:induction false} TakenUpdate(piv: seq<nat>, n: nat, p: nat)
    requires n <= |piv| && p < |piv| && piv[p] == 0
    ensures Taken(piv[p := 1], n) == Taken(piv, n) + if p < n then 1 else 0
  {
    if n > 0 {
      TakenUpdate(piv, n - 1, p);
    }
  }

  lemma {:induction false} TakenSome(piv: seq<nat>, n: nat) returns (c: nat)
    requires IsPivots(piv, |piv|) && n <= |piv| && Taken(piv, n) < n
    ensures c < n && piv[c] == 0
  {
    if piv[n - 1] == 0 {
      c := n - 1;
    } else {
      c := TakenSome(piv, n - 1);
    }
  }

  lemma {:induction false} TakenAll(piv: seq<nat>, n: nat)
    requires IsPivots(piv, |piv|) && n <= |piv| && Taken(piv, n) >= n
    ensures Taken(piv, n) == n && forall i :: 0 <= i < n ==> piv[i] == 1
  {
    if n > 0 {
      TakenBound(piv, n - 1);
      TakenAll(piv, n - 1);
    }
  }

  lemma {:induction false} TakenBound(piv: seq<nat>, n: nat)
    requires IsPivots(piv, |piv|) && n <= |piv|
    ensures Taken(piv, n) <= n
  {
    if n > 0 {
      TakenBound(piv, n - 1);
    }
  }

  lemma {:induction false} TakenNone(piv: seq<nat>, n: nat)
    requires n <= |piv| && forall i :: 0 <= i < n ==> piv[i] == 0
    ensures Taken(piv, n) == 0
  {
    if n > 0 {
      TakenNone(piv, n - 1);
    }
  }

  /** The state of the elimination after col columns. */
  ghost predicate Progress(a: Matrix, k: nat, col: nat, m: Matrix, piv: seq<nat>, indxr: seq<nat>, indxc: seq<nat>) {
    && |indxr| == |indxc| == k && col <= k && SwapsBelow(indxr, indxc, col, k)
    && Exchanged(a, m, piv, SwapOrder(indxr, indxc, col, k), k)
    && Taken(piv, k) == col
  }

  /** One round: rows irow and icol swapped, then the pivot at icol taken. */
  lemma Round(a: Matrix, k: nat, col: nat, m: Matrix, piv: seq<nat>, indxr: seq<nat>, indxc: seq<nat>, irow: nat, icol: nat)
    requires Progress(a, k, col, m, piv, indxr, indxc) && col < k
    requires irow < k && icol < k && piv[irow] == 0 && piv[icol] == 0 && m[irow][icol] != 0
    ensures Progress(a, k, col + 1, Pivoted(Swap(m, irow, icol), icol), piv[icol := 1], indxr[col := irow], indxc[col := icol])
  {
    hide Exchanged, Pivoted;
    var order := SwapOrder(indxr, indxc, col, k);
    ExchangedShape(a, m, piv, order, k);
    SwapStep(a, m, piv, order, k, irow, icol);
    PivotStep(a, Swap(m, irow, icol), piv, Swap(order, irow, icol), k, icol);
    SwapOrderSame(indxr, indxc, indxr[col := irow], indxc[col := icol], col, k);
    TakenUpdate(piv, k, icol);
  }

  lemma ExchangedShape(a: Matrix, m: Matrix, piv: seq<nat>, order: seq<nat>, k: nat)
    requires Exchanged(a, m, piv, order, k)
    ensures IsMatrix(a, k, k) && IsMatrix(m, k, k) && IsPivots(piv, k) && IsOrder(order, k)
  {}

  /** The body of the column loop once a pivot has been found. */
  method TakePivot(t: GfTables, src: array<gf>, k: nat, irow: nat, icol: nat, idRow: array<gf>)
    requires t.Valid() && src.Length == At(k, k) && irow < k && icol < k
    requires Mat(src[..], k)[irow][icol] != 0
    requires src != idRow && idRow[..] == Zeros(k)
    modifies src, idRow
    ensures Mat(src[..], k) == Pivoted(Swap(Mat(old(src[..]), k), irow, icol), icol)
    ensures idRow[..] == Zeros(k)
  {
    hide At, Rows, GfTables.Valid, PivotRow;
    ghost var m := Swap(Mat(src[..], k), irow, icol);
    if irow != icol {
      SwapRows(src, k, irow, icol);
    }
    assert Mat(src[..], k) == m;
    MatAt(src[..], k, icol);
    var pivotRow := At(icol, k);
    if src[pivotRow + icol] == 0 {
      assert false; // the pivot found is not zero
    }
    ScalePivotRow(t, src, k, icol);
    MatAt(src[..], k, icol);
    idRow[icol] := 1;
    if src[pivotRow..pivotRow + k] != idRow[..] {
      ClearColumn(t, src, k, icol, m);
    } else {
      assert idRow[..] == Unit(k, icol);
      UnitPivotRow(m, icol);
    }
    idRow[icol] := 0;
  }

  /** Clearing with a unit row changes nothing. */
  lemma UnitPivotRow(m: Matrix, p: nat)
    requires IsMatrix(m, |m|, |m|) && p < |m| && PivotRow(m, p) == Unit(|m|, p)
    ensures Pivoted(m, p) == m[p := PivotRow(m, p)]
  {
    hide Add, Mul, PivotRow;
    forall i | 0 <= i < |m| ensures Pivoted(m, p)[i] == m[p := PivotRow(m, p)][i] {
      if i != p {
        AddMulUnit(m[i], p);
      }
    }
  }

  lemma AddMulUnit(r: Vector, p: nat)
    requires p < |r|
    ensures AddMul(r[p := 0], Unit(|r|, p), r[p]) == r
  {
    hide Add, Mul;
    MulOne(r[p]);
    MulZeros(r[p]);
    forall i | 0 <= i < |r| ensures AddMul(r[p := 0], Unit(|r|, p), r[p])[i] == r[i] {
      AddLaws(r[i], 0, 0);
    }
  }

  lemma ProgressStart(a: Matrix, k: nat, piv: seq<nat>, indxr: seq<nat>, indxc: seq<nat>)
    requires IsMatrix(a, k, k) && |indxr| == |indxc| == k
    requires |piv| == k && forall i :: 0 <= i < k ==> piv[i] == 0
    ensures Progress(a, k, 0, a, piv, indxr, indxc)
  {
    assert piv == NoPivots(k);
    TakenNone(piv, k);
    ExchangedStart(a, k);
  }

  lemma ProgressStuck(a: Matrix, k: nat, col: nat, m: Matrix, piv: seq<nat>, indxr: seq<nat>, indxc: seq<nat>)
    requires Progress(a, k, col, m, piv, indxr, indxc) && col < k && NoFreeEntry(m, piv, k)
    ensures Singular(a, k)
  {
    hide Singular;
    var free := TakenSome(piv, k);
    NoPivot(a, m, piv, SwapOrder(indxr, indxc, col, k), k, free);
  }

  lemma ProgressEnd(a: Matrix, k: nat, m: Matrix, piv: seq<nat>, indxr: seq<nat>, indxc: seq<nat>)
    requires Progress(a, k, k, m, piv, indxr, indxc)
    ensures SwapsBelow(indxr, indxc, k, k)
    ensures Solves(a, m, SwapOrder(indxr, indxc, k, k), k)
  {
    TakenAll(piv, k);
    hide Taken, Solves;
    AllPivots(a, m, piv, SwapOrder(indxr, indxc, k, k), k);
  }

  lemma ZeroArrays(piv: seq<nat>, row: Vector, k: nat)
    requires |piv| == |row| == k && forall i :: 0 <= i < k ==> piv[i] == 0 && row[i] == 0
    ensures IsPivots(piv, k) && row == Zeros(k)
  {}

  /** One round of the column loop. */
  method EliminateColumn(t: GfTables, src: array<gf>, k: nat, col: nat, ipiv: array<nat>, indxr: array<nat>,
                         indxc: array<nat>, idRow: array<gf>, ghost a: Matrix) returns (ok: bool)
    requires t.Valid() && src.Length == At(k, k) && col < k && ipiv.Length == k && src != idRow
    requires indxr.Length == indxc.Length == k && indxr != indxc && indxr != ipiv && indxc != ipiv
    requires Progress(a, k, col, Mat(src[..], k), ipiv[..], indxr[..], indxc[..])
    requires IsPivots(ipiv[..], k) && idRow[..] == Zeros(k)
    modifies src, indxr, indxc, ipiv, idRow
    ensures !ok ==> Singular(a, k)
    ensures ok ==> Progress(a, k, col + 1, Mat(src[..], k), ipiv[..], indxr[..], indxc[..])
    ensures IsPivots(ipiv[..], k) && idRow[..] == Zeros(k)
  {
    hide At, Rows, GfTables.Valid, Singular, Pivoted, Progress, NoFreeEntry, Mat;
    ghost var m, piv, r, c := Mat(src[..], k), ipiv[..], indxr[..], indxc[..];
    var irow, icol := FindPivot(src, k, ipiv, col);
    if icol == -1 {
      ProgressStuck(a, k, col, m, piv, r, c);
      return false;
    }
    Round(a, k, col, m, piv, r, c, irow, icol);
    ipiv[icol] := ipiv[icol] + 1;
    indxr[col] := irow;
    indxc[col] := icol;
    TakePivot(t, src, k, irow, icol, idRow);
    ok := true;
  }

  /** The column loop. It stops early when no pivot is left. */
  method Eliminate(t: GfTables, src: array<gf>, k: nat, indxr: array<nat>, indxc: array<nat>, ghost a: Matrix) returns (ok: bool)
    requires t.Valid() && src.Length == At(k, k) && indxr.Length == indxc.Length == k && indxr != indxc
    requires a == Mat(src[..], k)
    modifies src, indxr, indxc
    ensures !ok ==> Singular(a, k)
    ensures ok ==> SwapsBelow(indxr[..], indxc[..], k, k)
    ensures ok ==> Solves(a, Mat(src[..], k), SwapOrder(indxr[..], indxc[..], k, k), k)
  {
    hide At, Rows, GfTables.Valid, Singular, Solves, Exchanged, Mat, Taken, SwapsBelow, SwapOrder, Progress, IsPivots, Zeros;
    var ipiv := new nat[k](i => 0);
    var idRow := new gf[k](i => 0);
    ProgressStart(a, k, ipiv[..], indxr[..], indxc[..]);
    ZeroArrays(ipiv[..], idRow[..], k);
    for col := 0 to k
      invariant Progress(a, k, col, Mat(src[..], k), ipiv[..], indxr[..], indxc[..])
      invariant IsPivots(ipiv[..], k) && idRow[..] == Zeros(k)
    {
      ok := EliminateColumn(t, src, k, col, ipiv, indxr, indxc, idRow, a);
      if !ok {
        return;
      }
    }
    ProgressEnd(a, k, Mat(src[..], k), ipiv[..], indxr[..], indxc[..]);
    ok := true;
  }

  method InvertMat(t: GfTables, src: array<gf>, k: nat) returns (error: int)
    requires t.Valid() && src.Length == At(k, k)
    modifies src
    ensures error == 0 || error == 1
    ensures error == 1 <==> Singular(Mat(old(src[..]), k), k)
    ensures error == 0 ==> IsInverse(Mat(src[..], k), Mat(old(src[..]), k), k)
  {
    hide At, Rows, GfTables.Valid, Singular, IsInverse, Solves, SwapOrder, SwapsBelow;
    ghost var a := Mat(src[..], k);
    var indxc, indxr := new nat[k], new nat[k];
    var ok := Eliminate(t, src, k, indxr, indxc, a);
    if !ok {
      return 1;
    }
    Unscramble(src, k, indxr, indxc, a);
    SolvesInverse(a, Mat(src[..], k), k);
    error := 0;
  }
}
