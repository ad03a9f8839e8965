/** fec_encode, build_decode_matrix and fec_decode: the packets of an erasure code. */
module FecPackets {
  import opened Field
  import opened FieldLaws
  import opened Linear
  import opened Tables
  import opened Kernels
  import opened GaussJordan
  import opened InvertMat
  import opened Codec
  import opened Fec
  import opened Shuffle

  /** The first w symbols of every packet. */
  ghost function Contents(pkt: seq<array<gf>>, w: nat): (r: Matrix)
    requires forall p :: p in pkt ==> p.Length >= w
    reads pkt
    ensures IsMatrix(r, |pkt|, w)
  {
    seq(|pkt|, i requires 0 <= i < |pkt| reads pkt => pkt[i][..w])
  }

  /** bcopy of n symbols. */
  method Bcopy(src: seq<gf>, dst: array<gf>, n: nat)
    requires n <= |src| && n <= dst.Length
    modifies dst
    ensures dst[..n] == src[..n] && dst[n..] == old(dst[n..])
  {
    for i := 0 to n
      invariant dst[..i] == src[..i] && dst[n..] == old(dst[n..])
    {
      dst[i] := src[i];
    }
  }

  /** Adding c times a packet to an accumulator. */
  method AddPacket(t: GfTables, dst: array<gf>, src: array<gf>, c: gf, w: nat)
    requires t.Valid() && dst != src && w <= dst.Length && w <= src.Length
    modifies dst
    ensures dst[..w] == AddMul(old(dst[..w]), old(src[..w]), c)
    ensures dst[w..] == old(dst[w..])
  {
    hide Add, Mul, GfTables.Valid, AddMulRange, AddMul;
    ghost var was := dst[..];
    Addmul(t, dst, 0, src, 0, c, w);
    AddMulRangePrefix(was, src[..], c, w);
  }

  lemma AddMulRangePrefix(dst: Vector, src: Vector, c: gf, w: nat)
    requires w <= |dst| && w <= |src|
    ensures AddMulRange(dst, 0, src, 0, c, w)[..w] == AddMul(dst[..w], src[..w], c)
    ensures AddMulRange(dst, 0, src, 0, c, w)[w..] == dst[w..]
  {
    hide Add, Mul;
  }

  lemma CombineNext(v: Vector, m: Matrix, w: nat, n: nat)
    requires n < |v| == |m| && IsMatrix(m, |m|, w)
    ensures PartialCombine(v, m, w, n + 1) == AddMul(PartialCombine(v, m, w, n), m[n], v[n])
  {
    hide Add, Mul;
  }

  lemma CombineStart(v: Vector, m: Matrix, w: nat)
    requires |v| == |m| && IsMatrix(m, |m|, w)
    ensures PartialCombine(v, m, w, 0) == Zeros(w)
    ensures PartialCombine(v, m, w, |v|) == Combine(v, m, w)
  {}

  /** The inner loop of both directions: acc = coef * packets. */
  method CombinePackets(t: GfTables, coef: seq<gf>, src: seq<array<gf>>, acc: array<gf>, w: nat)
    requires t.Valid() && |coef| == |src| && acc !in src && w <= acc.Length
    requires forall p :: p in src ==> p.Length >= w
    modifies acc
    ensures acc[..w] == Combine(coef, Contents(src, w), w)
    ensures acc[w..] == old(acc[w..])
  {
    hide Add, Mul, GfTables.Valid, AddMul, Combine, PartialCombine;
    ghost var m := Contents(src, w);
    for i := 0 to w
      invariant acc[..i] == Zeros(w)[..i] && acc[w..] == old(acc[w..])
    {
      acc[i] := 0;
    }
    CombineStart(coef, m, w);
    for i := 0 to |src|
      invariant acc[..w] == PartialCombine(coef, m, w, i) && acc[w..] == old(acc[w..])
      invariant Contents(src, w) == m
    {
      CombineNext(coef, m, w, i);
      assert m[i] == src[i][..w];
      AddPacket(t, acc, src[i], coef[i], w);
      SameContents(src, w, m);
    }
  }

  lemma SameContents(src: seq<array<gf>>, w: nat, m: Matrix)
    requires forall p :: p in src ==> p.Length >= w
    requires IsMatrix(m, |src|, w) && forall i :: 0 <= i < |src| ==> src[i][..w] == m[i]
    ensures Contents(src, w) == m
  {
    forall i | 0 <= i < |src| ensures Contents(src, w)[i] == m[i] {}
  }

  /** fec_encode: sz is in bytes, two per symbol. */
  method FecEncode(t: GfTables, code: FecParms, src: seq<array<gf>>, fec: array<gf>, index: nat, sz: nat)
    requires t.Valid() && code.Valid() && |src| == code.k && fec !in src
    requires fec.Length >= sz / 2 && forall p :: p in src ==> p.Length >= sz / 2
    modifies fec
    ensures index < code.n ==>
              fec[..sz / 2] == EncPacket(code.k, Contents(src, sz / 2), sz / 2, index) && fec[sz / 2..] == old(fec[sz / 2..])
    ensures index >= code.n ==> fec[..] == old(fec[..])
  {
    hide GfTables.Valid, At, Rows, Combine, EncRow;
    var w, k := sz / 2, code.k;
    if index < k {
      SourcePacket(k, Contents(src, w), w, index);
      Bcopy(src[index][..], fec, w);
    } else if index < code.n {
      RowsAt(code.encMatrix, 0, code.n, k, index);
      var p := code.encMatrix[At(index, k)..At(index, k) + k];
      CombinePackets(t, p, src, fec, w);
    }
  }

  // ----- decoding

  /** Write one row of the decode matrix. */
  method WriteRow(matrix: array<gf>, k: nat, i: nat, row: seq<gf>)
    requires matrix.Length == At(k, k) && i < k == |row|
    modifies matrix
    ensures Mat(matrix[..], k) == Mat(old(matrix[..]), k)[i := row]
  {
    hide At, Rows;
    ghost var was := matrix[..];
    var p := At(i, k);
    MatAt(was, k, i);
    for j := 0 to k
      invariant matrix[p..p + j] == row[..j]
      invariant forall l :: 0 <= l < matrix.Length && !(p <= l < p + j) ==> matrix[l] == was[l]
    {
      matrix[p + j] := row[j];
    }
    assert matrix[p..p + k] == row;
    RowsUpdate(was, matrix[..], k, k, i);
  }

  /** build_decode_matrix, called after shuffle. */
  method BuildDecodeMatrix(t: GfTables, code: FecParms, index: array<nat>) returns (r: array?<gf>)
    requires t.Valid() && code.Valid() && index.Length == code.k && SettledBelow(index[..], code.k)
    ensures r == null <==> (exists i :: 0 <= i < code.k && index[i] >= code.n)
                           || Singular(SelectedRows(code.k, index[..]), code.k)
    ensures r != null ==> fresh(r) && r.Length == At(code.k, code.k)
    ensures r != null ==> IsInverse(Mat(r[..], code.k), SelectedRows(code.k, index[..]), code.k)
  {
    hide GfTables.Valid, At, Rows, Singular, IsInverse, EncRow;
    var k := code.k;
    ghost var d := SelectedRows(k, index[..]);
    var matrix := new gf[At(k, k)];
    for i := 0 to k
      invariant forall j :: 0 <= j < i ==> index[j] < code.n
      invariant forall j :: 0 <= j < i ==> Mat(matrix[..], k)[j] == d[j]
    {
      if index[i] < k {
        Systematic(k, i);
        WriteRow(matrix, k, i, seq(k, _ => 0)[i := 1]);
      } else if index[i] < code.n {
        RowsAt(code.encMatrix, 0, code.n, k, index[i]);
        WriteRow(matrix, k, i, code.encMatrix[At(index[i], k)..At(index[i], k) + k]);
      } else {
        return null;
      }
    }
    assert Mat(matrix[..], k) == d;
    var error := InvertMat.InvertMat(t, matrix, k);
    r := if error != 0 then null else matrix;
  }

  /** An invertible matrix has no two equal rows. */
  lemma InvertibleRowsDiffer(m: Matrix, k: nat, i: nat, j: nat, b: Matrix)
    requires IsMatrix(m, k, k) && i < j < k && IsInverse(b, m, k)
    ensures m[i] != m[j]
  {
    hide Combine, Identity;
    var p := Product(m, b, k);
    assert p[i] == Combine(m[i], b, k) && p[j] == Combine(m[j], b, k);
    IdentityAt(k, i);
    IdentityAt(k, j);
    assert Unit(k, i)[i] == 1 && Unit(k, j)[i] == 0;
  }

  /** The decoded packets: rows that are source packets already are left alone. */
  ghost function Decoded(m: Matrix, received: Matrix, k: nat, w: nat): (r: Matrix)
    requires IsMatrix(m, k, k) && IsMatrix(received, k, w)
    ensures IsMatrix(r, k, w)
  {
    Product(m, received, w)
  }

  /** Encoding the decoded packets yields the received ones. */
  lemma DecodedSolves(k: nat, index: seq<nat>, m: Matrix, received: Matrix, w: nat, i: nat)
    requires 1 <= k <= GF_SIZE + 1 && |index| == k && IsMatrix(received, k, w) && i < k
    requires IsInverse(m, SelectedRows(k, index), k)
    ensures EncPacket(k, Decoded(m, received, k, w), w, index[i]) == received[i]
  {
    hide EncRow, Combine, Dot;
    var d, s := SelectedRows(k, index), Decoded(m, received, k, w);
    forall j | 0 <= j < w ensures EncPacket(k, s, w, index[i])[j] == received[i][j] {
      EncPacketAt(k, s, w, index[i], j);
      assert Column(s, w, j) == Apply(m, Column(received, w, j)) by {
        DecodedColumn(m, received, k, w, j);
      }
      CombineDot(d[i], m, Column(received, w, j));
      assert Product(d, m, k)[i] == Unit(k, i);
      DotUnit(k, i, Column(received, w, j));
    }
  }

  lemma DecodedColumn(m: Matrix, received: Matrix, k: nat, w: nat, j: nat)
    requires IsMatrix(m, k, k) && IsMatrix(received, k, w) && j < w
    ensures Column(Decoded(m, received, k, w), w, j) == Apply(m, Column(received, w, j))
  {
    hide Dot;
  }

  lemma CombineDot(v: Vector, m: Matrix, x: Vector)
    requires IsMatrix(m, |v|, |x|) && |v| == |x|
    ensures Dot(v, Apply(m, x), |v|) == Dot(Combine(v, m, |x|), x, |x|)
  {
    DotCombine(v, m, x);
  }

  /** A settled source packet is decoded to itself. */
  lemma DecodedKeeps(k: nat, index: seq<nat>, m: Matrix, received: Matrix, w: nat, i: nat)
    requires 1 <= k <= GF_SIZE + 1 && |index| == k && IsMatrix(received, k, w) && i < k && index[i] == i
    requires IsInverse(m, SelectedRows(k, index), k)
    ensures Decoded(m, received, k, w)[i] == received[i]
  {
    DecodedSolves(k, index, m, received, w, i);
    SourcePacket(k, Decoded(m, received, k, w), w, i);
  }

  ghost predicate SeparateBuffers(pkt: seq<array<gf>>, w: nat) {
    && (forall i :: 0 <= i < |pkt| ==> pkt[i].Length >= w)
    && forall i, j :: 0 <= i < j < |pkt| ==> pkt[i] != pkt[j]
  }

  /** The first loop of fec_decode: rebuild every missing source packet in a new buffer. */
  method RebuildMissing(t: GfTables, mDec: array<gf>, pkt: array<array<gf>>, index: array<nat>, k: nat, w: nat)
    returns (newPkt: array<array?<gf>>)
    requires t.Valid() && pkt.Length == index.Length == k && mDec.Length == At(k, k)
    requires SeparateBuffers(pkt[..], w)
    ensures fresh(newPkt) && newPkt.Length == k
    ensures var s := Decoded(Mat(mDec[..], k), Contents(pkt[..], w), k, w);
            forall i :: 0 <= i < k && index[i] >= k ==>
              newPkt[i] != null && fresh(newPkt[i]) && newPkt[i][..] == s[i]
  {
    hide GfTables.Valid, At, Rows, Combine;
    ghost var m, received := Mat(mDec[..], k), Contents(pkt[..], w);
    newPkt := new array?<gf>[k];
    for row := 0 to k
      invariant fresh(newPkt)
      invariant forall i :: 0 <= i < row && index[i] >= k ==>
        newPkt[i] != null && fresh(newPkt[i]) && newPkt[i][..] == Decoded(m, received, k, w)[i]
    {
      if index[row] >= k {
        MatAt(mDec[..], k, row);
        var buffer := new gf[w];
        CombinePackets(t, mDec[At(row, k)..At(row, k) + k], pkt[..], buffer, w);
        assert buffer[..] == buffer[..w];
        newPkt[row] := buffer;
      }
    }
  }

  /** The second loop: copy the rebuilt packets to their final buffers. */
  method StoreMissing(pkt: array<array<gf>>, newPkt: array<array?<gf>>, index: array<nat>, k: nat, w: nat, ghost s: Matrix)
    requires pkt.Length == index.Length == newPkt.Length == k && IsMatrix(s, k, w)
    requires SeparateBuffers(pkt[..], w)
    requires forall i, j :: 0 <= i < k && 0 <= j < k && index[i] >= k ==> newPkt[i] != pkt[j]
    requires forall i :: 0 <= i < k && index[i] >= k ==> newPkt[i] != null && newPkt[i][..] == s[i]
    requires forall i :: 0 <= i < k && index[i] < k ==> pkt[i][..w] == s[i]
    modifies set i | 0 <= i < k :: pkt[i]
    ensures Contents(pkt[..], w) == s
  {
    for row := 0 to k
      invariant forall i :: 0 <= i < row ==> pkt[i][..w] == s[i]
      invariant forall i :: row <= i < k && index[i] < k ==> pkt[i][..w] == s[i]
      invariant forall i :: 0 <= i < k && index[i] >= k ==> newPkt[i][..] == s[i]
    {
      if index[row] >= k {
        Bcopy(newPkt[row][..], pkt[row], w);
      }
    }
    SameContents(pkt[..], w, s);
  }

  // ----- which index lists decode

  lemma DistinctRearranged(now: seq<nat>, was: seq<nat>, perm: seq<nat>, n: nat)
    requires Rearranged(now, was, perm)
    ensures DistinctIndices(now, n) <==> DistinctIndices(was, n)
  {
    if DistinctIndices(was, n) {
      forall i, j | 0 <= i < j < |now| ensures now[i] != now[j] {
        assert was[perm[i]] != was[perm[j]] by {
          if perm[i] > perm[j] { assert was[perm[j]] != was[perm[i]]; }
        }
      }
    }
    if DistinctIndices(now, n) {
      forall i | 0 <= i < |was| ensures was[i] < n {
        var l := Preimage(perm, i);
        assert now[l] < n;
      }
      forall i, j | 0 <= i < j < |was| ensures was[i] != was[j] {
        var l := Preimage(perm, i);
        var m := Preimage(perm, j);
        assert l < m || m < l;
        assert l < m ==> now[l] != now[m];
        assert m < l ==> now[m] != now[l];
      }
    }
  }

  /** build_decode_matrix fails on no list of distinct valid indices. */
  lemma FailureMeansInvalid(code: FecParms, index: seq<nat>)
    requires code.Valid() && |index| == code.k
    requires (exists i :: 0 <= i < code.k && index[i] >= code.n) || Singular(SelectedRows(code.k, index), code.k)
    ensures !DistinctIndices(index, code.n)
  {
    hide Singular, EncRow, At, Rows;
    if DistinctIndices(index, code.n) {
      AnyRowsInvertible(code.k, index);
    }
  }

  /** It succeeds on no list with duplicates. */
  lemma SuccessMeansDistinct(code: FecParms, index: seq<nat>, m: Matrix)
    requires code.Valid() && |index| == code.k
    requires forall i :: 0 <= i < code.k ==> index[i] < code.n
    requires IsInverse(m, SelectedRows(code.k, index), code.k)
    ensures DistinctIndices(index, code.n)
  {
    hide EncRow, At, Rows, IsInverse;
    forall i, j | 0 <= i < j < code.k ensures index[i] != index[j] {
      InvertibleRowsDiffer(SelectedRows(code.k, index), code.k, i, j, m);
    }
  }

  /** fec_decode after shuffle has settled the source packets. */
  method DecodeSettled(t: GfTables, code: FecParms, pkt: array<array<gf>>, index: array<nat>, w: nat) returns (ok: bool)
    requires t.Valid() && code.Valid() && pkt.Length == index.Length == code.k
    requires SeparateBuffers(pkt[..], w) && SettledBelow(index[..], code.k)
    modifies set i | 0 <= i < code.k :: pkt[i]
    ensures ok <==> DistinctIndices(index[..], code.n)
    ensures ok ==> Reproduces(code.k, Contents(pkt[..], w), w, index[..], old(Contents(pkt[..], w)))
  {
    hide GfTables.Valid, At, Rows, Singular, IsInverse, EncRow, EncPacket, Decoded;
    var k := code.k;
    ghost var received := Contents(pkt[..], w);
    var mDec := BuildDecodeMatrix(t, code, index);
    if mDec == null {
      FailureMeansInvalid(code, index[..]);
      return false;
    }
    ghost var m := Mat(mDec[..], k);
    SuccessMeansDistinct(code, index[..], m);
    ghost var s := Decoded(m, received, k, w);
    DecodedReproduces(code, index[..], m, received, w);
    var newPkt := RebuildMissing(t, mDec, pkt, index, k, w);
    StoreMissing(pkt, newPkt, index, k, w, s);
    ok := true;
  }

  /** Encoding the packets s at the given indices yields the received packets. */
  ghost predicate Reproduces(k: nat, s: Matrix, w: nat, index: seq<nat>, received: Matrix)
    requires k >= 1 && |index| == k && IsMatrix(s, k, w) && IsMatrix(received, k, w)
  {
    forall i :: 0 <= i < k ==> EncPacket(k, s, w, index[i]) == received[i]
  }

  lemma DecodedReproduces(code: FecParms, index: seq<nat>, m: Matrix, received: Matrix, w: nat)
    requires code.Valid() && |index| == code.k && IsMatrix(received, code.k, w)
    requires SettledBelow(index, code.k) && IsMatrix(m, code.k, code.k)
    requires IsInverse(m, SelectedRows(code.k, index), code.k)
    ensures Reproduces(code.k, Decoded(m, received, code.k, w), w, index, received)
    ensures forall i :: 0 <= i < code.k && index[i] < code.k ==> Decoded(m, received, code.k, w)[i] == received[i]
  {
    hide IsInverse, EncRow, EncPacket, Decoded, At, Rows;
    forall i | 0 <= i < code.k
      ensures EncPacket(code.k, Decoded(m, received, code.k, w), w, index[i]) == received[i]
      ensures index[i] < code.k ==> Decoded(m, received, code.k, w)[i] == received[i]
    {
      DecodedSolves(code.k, index, m, received, w, i);
      if index[i] < code.k {
        DecodedKeeps(code.k, index, m, received, w, i);
      }
    }
  }

  lemma ReproducesRearranged(k: nat, s: Matrix, w: nat, index: seq<nat>, received: Matrix,
                             index0: seq<nat>, received0: Matrix, perm: seq<nat>)
    requires k >= 1 && IsMatrix(s, k, w) && IsMatrix(received, k, w) && IsMatrix(received0, k, w)
    requires |index| == |index0| == k && Rearranged(index, index0, perm) && Rearranged(received, received0, perm)
    requires Reproduces(k, s, w, index, received)
    ensures Reproduces(k, s, w, index0, received0)
  {
    hide EncPacket;
    forall i | 0 <= i < k ensures EncPacket(k, s, w, index0[i]) == received0[i] {
      var l := Preimage(perm, i);
      assert EncPacket(k, s, w, index[l]) == received[l];
    }
  }

  lemma SeparateRearranged(now: seq<array<gf>>, was: seq<array<gf>>, perm: seq<nat>, w: nat)
    requires Rearranged(now, was, perm) && SeparateBuffers(was, w)
    ensures SeparateBuffers(now, w)
    ensures Rearranged(Contents(now, w), Contents(was, w), perm)
    ensures forall i :: 0 <= i < |now| ==> now[i] in was
  {
    forall i, j | 0 <= i < j < |now| ensures now[i] != now[j] {
      assert was[perm[i]] != was[perm[j]] by {
        if perm[i] > perm[j] { assert was[perm[j]] != was[perm[i]]; }
      }
    }
  }

  /** shuffle, and what it means for the decoder. */
  method SettleSources(pkt: array<array<gf>>, index: array<nat>, k: nat, w: nat, ghost n: nat)
    returns (conflict: int, ghost perm: seq<nat>)
    requires pkt.Length == index.Length == k && SeparateBuffers(pkt[..], w)
    modifies pkt, index
    ensures SeparateBuffers(pkt[..], w) && forall i :: 0 <= i < k ==> pkt[i] in old(pkt[..])
    ensures Rearranged(index[..], old(index[..]), perm)
    ensures Rearranged(Contents(pkt[..], w), old(Contents(pkt[..], w)), perm)
    ensures DistinctIndices(index[..], n) <==> DistinctIndices(old(index[..]), n)
    ensures conflict != 0 ==> !DistinctIndices(old(index[..]), n)
    ensures conflict == 0 ==> SettledBelow(index[..], k)
  {
    hide Rearranged, DistinctIndices, HasSourceDuplicate, SettledBelow;
    ghost var index0, pkt0 := index[..], pkt[..];
    conflict, perm := Shuffle.Shuffle(pkt, index, k);
    SeparateRearranged(pkt[..], pkt0, perm, w);
    DistinctRearranged(index[..], index0, perm, n);
    if conflict != 0 {
      DuplicateIsInvalid(index0, n);
    }
  }

  /** fec_decode: rebuild the source packets from k received ones. It succeeds exactly when
      the indices are valid and distinct, and then leaves source packets whose encodings at
      the received indices are the received packets. */
  method FecDecode(t: GfTables, code: FecParms, pkt: array<array<gf>>, index: array<nat>, sz: nat) returns (r: int)
    requires t.Valid() && code.Valid() && pkt.Length == index.Length == code.k
    requires SeparateBuffers(pkt[..], sz / 2)
    modifies pkt, index, set i | 0 <= i < code.k :: pkt[i]
    ensures r == 0 || r == 1
    ensures r == 0 <==> DistinctIndices(old(index[..]), code.n)
    ensures SeparateBuffers(pkt[..], sz / 2) && forall i :: 0 <= i < code.k ==> pkt[i] in old(pkt[..])
    ensures r == 0 ==>
              Reproduces(code.k, Contents(pkt[..], sz / 2), sz / 2, old(index[..]), old(Contents(pkt[..], sz / 2)))
  {
    hide GfTables.Valid, At, Rows, DistinctIndices, Rearranged, Reproduces, SettledBelow, EncRow;
    var w := sz / 2;
    ghost var index0, received0 := index[..], Contents(pkt[..], w);
    var conflict, perm := SettleSources(pkt, index, code.k, w, code.n);
    if conflict != 0 {
      return 1;
    }
    ghost var received := Contents(pkt[..], w);
    var ok := DecodeSettled(t, code, pkt, index, w);
    if !ok {
      return 1;
    }
    ReproducesRearranged(code.k, Contents(pkt[..], w), w, index[..], received, index0, received0, perm);
    r := 0;
  }

  lemma DuplicateIsInvalid(index: seq<nat>, n: nat)
    requires HasSourceDuplicate(index)
    ensures !DistinctIndices(index, n)
  {}

  /** Round trip: encodings of src at k distinct indices decode to src. */
  lemma DecodedIsSource(k: nat, w: nat, n: nat, src: Matrix, s: Matrix, index: seq<nat>, received: Matrix)
    requires 1 <= k <= n <= GF_SIZE + 1 && IsMatrix(src, k, w) && IsMatrix(s, k, w) && IsMatrix(received, k, w)
    requires |index| == k && DistinctIndices(index, n)
    requires forall i :: 0 <= i < k ==> received[i] == EncPacket(k, src, w, index[i])
    requires Reproduces(k, s, w, index, received)
    ensures s == src
  {
    hide EncPacket;
    PacketsDetermineSource(k, w, s, src, index);
  }
}
