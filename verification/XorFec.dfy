/** Simple XOR FEC: one parity symbol per block, which replaces any one lost symbol. */
module XorFec {
  import opened Symbols
  import opened Transport
  import opened NullFec
  import F = Field

  function XorByte(a: byte, b: byte): byte {
    assert F.Exp2(7) == 128;
    F.XorTop(a, b, 7);
    F.Xor(a, b)
  }

  function XorBytes(a: Bytes, b: Bytes): (r: Bytes)
    requires |a| == |b|
    ensures |r| == |a|
  {
    seq(|a|, i requires 0 <= i < |a| => XorByte(a[i], b[i]))
  }

  ghost predicate Fit(s: seq<Bytes>, es: nat) {
    forall i :: 0 <= i < |s| ==> |s[i]| <= es
  }

  /** Exclusive or of all symbols, padded to es bytes. */
  function Parity(s: seq<Bytes>, es: nat): (r: Bytes)
    requires Fit(s, es)
    ensures |r| == es
  {
    if s == [] then Zeros(es) else XorBytes(Parity(s[..|s| - 1], es), Padded(s[|s| - 1], es))
  }

  // ----- algebra

  lemma XorLaws(a: Bytes, b: Bytes, c: Bytes)
    requires |a| == |b| == |c|
    ensures XorBytes(a, b) == XorBytes(b, a)
    ensures XorBytes(XorBytes(a, b), c) == XorBytes(a, XorBytes(b, c))
    ensures XorBytes(a, a) == Zeros(|a|) && XorBytes(a, Zeros(|a|)) == a && XorBytes(Zeros(|a|), a) == a
  {
    hide F.Xor;
    forall i | 0 <= i < |a|
      ensures XorByte(a[i], b[i]) == XorByte(b[i], a[i])
      ensures XorByte(XorByte(a[i], b[i]), c[i]) == XorByte(a[i], XorByte(b[i], c[i]))
      ensures XorByte(a[i], a[i]) == 0 && XorByte(a[i], 0) == a[i] && XorByte(0, a[i]) == a[i]
    {
      F.XorComm(a[i], b[i]);
      F.XorAssoc(a[i], b[i], c[i]);
      F.XorSelf(a[i]);
      F.XorZero(a[i]);
    }
  }

  /** Taking symbol m out of a block takes it out of the parity. */
  lemma {:induction false} ParityWithout(s: seq<Bytes>, m: nat, es: nat)
    requires Fit(s, es) && m < |s|
    ensures Fit(s[..m] + s[m + 1..], es)
    ensures XorBytes(Parity(s[..m] + s[m + 1..], es), Padded(s[m], es)) == Parity(s, es)
  {
    var n := |s| - 1;
    if m == n {
      assert s[..m] + s[m + 1..] == s[..n];
    } else {
      var t := s[..n];
      ParityWithout(t, m, es);
      var r := t[..m] + t[m + 1..];
      assert s[..m] + s[m + 1..] == r + [s[n]];
      assert (r + [s[n]])[..|r|] == r;
      hide XorBytes, Padded;
      var p, x, y := Parity(r, es), Padded(s[n], es), Padded(s[m], es);
      XorLaws(p, x, y);
      XorLaws(p, y, x);
      XorLaws(x, y, p);
    }
  }

  /** The lost symbol is the exclusive or of the received ones, parity included. */
  lemma RecoverLost(s: seq<Bytes>, m: nat, es: nat)
    requires Fit(s, es) && m < |s|
    ensures Fit(s[..m] + s[m + 1..] + [Parity(s, es)], es)
    ensures Parity(s[..m] + s[m + 1..] + [Parity(s, es)], es) == Padded(s[m], es)
  {
    ParityWithout(s, m, es);
    var r, p := s[..m] + s[m + 1..], Parity(s, es);
    assert (r + [p])[..|r|] == r;
    assert Padded(p, es) == p;
    hide XorBytes, Padded;
    var x, y := Parity(r, es), Padded(s[m], es);
    XorLaws(x, x, y);
    XorLaws(y, x, y);
  }

  // ----- encoding

  ghost function Encoded(data: Bytes, es: nat): (r: seq<ByteEntry>)
    requires es > 0
  {
    CutFits(data, es);
    var n := |Cut(data, es)|;
    InOrder(data, es) + [if n == 0 then Entry(0, 0, []) else Entry(n, es, Parity(Cut(data, es), es))]
  }

  lemma CutFits(data: Bytes, es: nat)
    requires es > 0
    ensures Fit(Cut(data, es), es)
  {
    forall i | 0 <= i < |Cut(data, es)| ensures |Cut(data, es)[i]| <= es {
      CutLengths(data, es, i);
    }
  }

  /** memset to 0 and memcpy of one symbol. */
  method PadSymbol(padded: array<byte>, s: Bytes, es: nat)
    requires padded.Length == es && |s| <= es
    modifies padded
    ensures padded[..] == Padded(s, es)
  {
    for j := 0 to es
      invariant forall l :: 0 <= l < j ==> padded[l] == 0
    {
      padded[j] := 0;
    }
    CopyBytes(padded, 0, s, |s|);
  }

  /** dst ^= src, byte by byte. */
  method XorInto(dst: array<byte>, src: array<byte>, es: nat)
    requires dst.Length == src.Length == es && dst != src
    modifies dst
    ensures dst[..] == XorBytes(old(dst[..]), src[..])
  {
    hide XorByte;
    for j := 0 to es
      invariant forall l :: 0 <= l < j ==> dst[l] == XorByte(old(dst[l]), src[l])
      invariant forall l :: j <= l < es ==> dst[l] == old(dst[l])
    {
      dst[j] := XorByte(dst[j], src[j]);
    }
  }

  lemma ParityNext(s: seq<Bytes>, i: nat, es: nat)
    requires Fit(s, es) && i < |s|
    ensures Fit(s[..i], es) && Fit(s[..i + 1], es)
    ensures Parity(s[..i + 1], es) == XorBytes(Parity(s[..i], es), Padded(s[i], es))
    ensures i == 0 ==> Parity(s[..i + 1], es) == Padded(s[0], es)
  {
    assert s[..i + 1][..i] == s[..i];
    XorLaws(Padded(s[i], es), Zeros(es), Zeros(es));
    hide XorBytes, Padded;
  }

  /** Fold symbol i into the parity; the first symbol is copied. */
  method AddToParity(paritySymb: array<byte>, paddedSymb: array<byte>, symbol: Bytes, i: nat, es: nat, ghost cut: seq<Bytes>)
    requires paritySymb.Length == paddedSymb.Length == es && paritySymb != paddedSymb
    requires Fit(cut, es) && i < |cut| && symbol == cut[i]
    requires Fit(cut[..i], es) && paritySymb[..] == Parity(cut[..i], es)
    modifies paritySymb, paddedSymb
    ensures Fit(cut[..i + 1], es) && paritySymb[..] == Parity(cut[..i + 1], es)
  {
    hide XorBytes, Parity, Padded;
    ParityNext(cut, i, es);
    PadSymbol(paddedSymb, symbol, es);
    if i == 0 {
      ParityNone(cut, es);
      CopyBytes(paritySymb, 0, symbol, |symbol|);
      PaddedCopy(symbol, es);
    } else {
      XorInto(paritySymb, paddedSymb, es);
    }
  }

  /** xor_fec_encode_src_block: the symbols and, behind them, their parity. */
  method EncodeSrcBlock(data: Bytes, es: nat) returns (units: array<ByteEntry>)
    requires es > 0
    ensures units[..] == Encoded(data, es)
  {
    hide Parity, Cut, Fit;
    ghost var cut := Cut(data, es);
    CutCount(data, es);
    CutFits(data, es);
    var nb := CeilDiv(|data|, es);
    var paritySymb, paddedSymb := new byte[es](_ => 0), new byte[es](_ => 0);
    var ptr, dataLeft := 0, |data|;
    units := new ByteEntry[nb + 1](_ => Entry(0, 0, []));
    ParityNone(cut, es);
    assert data[0..] == data;
    for i := 0 to nb
      invariant 0 <= ptr <= |data| && ptr + dataLeft == |data| && Cut(data[ptr..], es) == cut[i..]
      invariant forall j :: 0 <= j < i ==> units[j] == SymbolEntry(data, es, j)
      invariant Fit(cut[..i], es) && paritySymb[..] == Parity(cut[..i], es)
      invariant units[nb] == if i == nb > 0 then Entry(nb, es, paritySymb[..]) else Entry(0, 0, [])
    {
      CutHead(data, es, ptr, i);
      var len := if dataLeft < es then dataLeft else es;
      var symbol := data[ptr..ptr + len];
      units[i] := Entry(i, len, symbol);
      AddToParity(paritySymb, paddedSymb, symbol, i, es, cut);
      ptr := ptr + len;
      dataLeft := dataLeft - len;
      if i == nb - 1 {
        units[i + 1] := Entry(i + 1, es, paritySymb[..]);
      }
    }
    assert cut[..nb] == cut;
  }

  lemma PaddedCopy(s: Bytes, es: nat)
    requires |s| <= es
    ensures Zeros(es)[..0] + s[..|s|] + Zeros(es)[|s|..] == Padded(s, es)
  {}

  /** The units as they are emitted: every symbol is its stretch of the data, in order, and a
      full parity symbol follows. */
  lemma EncodedEach(data: Bytes, es: nat, i: nat)
    requires es > 0 && data != [] && i < |Encoded(data, es)|
    ensures var u, k := Encoded(data, es), |Encoded(data, es)| - 1;
            && (k - 1) * es < |data| <= k * es && u[i].esi == i && u[i].len == |u[i].data|
            && (i == k ==> |u[i].data| == es)
            && (i < k ==> i * es <= |data|
                          && u[i].data == data[i * es..if (i + 1) * es <= |data| then (i + 1) * es else |data|])
  {
    var k := |Cut(data, es)|;
    CutSlice(data, es, k - 1);
    if i < k {
      CutSlice(data, es, i);
    }
    hide Parity, Cut;
  }

  function Bit(x: nat, b: nat): nat { if b == 0 then x % 2 else Bit(x / 2, b - 1) }

  /** How many symbols have bit b of byte j set; a short symbol has zeros behind its end. */
  function CountOnes(s: seq<Bytes>, j: nat, b: nat): nat {
    if s == [] then 0
    else
      var n := |s| - 1;
      CountOnes(s[..n], j, b) + if j < |s[n]| then Bit(s[n][j], b) else 0
  }

  lemma {:induction false} XorBit(a: nat, c: nat, b: nat)
    ensures Bit(F.Xor(a, c), b) == (Bit(a, b) + Bit(c, b)) % 2
  {
    var x := F.Xor(a, c);
    assert x % 2 == (a + c) % 2 && x / 2 == F.Xor(a / 2, c / 2);
    if b > 0 {
      XorBit(a / 2, c / 2, b - 1);
      hide F.Xor;
    }
  }

  lemma {:induction false} BitZero(b: nat)
    ensures Bit(0, b) == 0
  {
    if b > 0 {
      BitZero(b - 1);
    }
  }

  /** Every bit of the parity makes the number of ones in its place even. */
  lemma {:induction false} ParityBits(s: seq<Bytes>, es: nat, j: nat, b: nat)
    requires Fit(s, es) && j < es
    ensures Bit(Parity(s, es)[j], b) == CountOnes(s, j, b) % 2
  {
    hide F.Xor, Bit;
    BitZero(b);
    if s != [] {
      var n := |s| - 1;
      ParityBits(s[..n], es, j, b);
      var p, x := Parity(s[..n], es), Padded(s[n], es);
      XorBit(p[j], x[j], b);
      assert Parity(s, es)[j] == F.Xor(p[j], x[j]);
    }
  }

  // ----- decoding

  /** What the decoder makes of a list of k units, by esi. */
  ghost function Restored(s: seq<ByteEntry>, k: nat, es: nat): (r: seq<ByteEntry>)
    requires |s| == k > 0 && Fit(Datas(s), es)
  {
    if s[k - 1].esi != k then s
    else
      var m := FirstGap(s, 0);
      if m < k then Inserted(s, Entry(m, es, Parity(Datas(s), es)), m)[..k] else s
  }

  ghost function Datas(s: seq<ByteEntry>): (r: seq<Bytes>)
    ensures |r| == |s|
  {
    seq(|s|, i requires 0 <= i < |s| => s[i].data)
  }

  /** The first position whose esi is not the position itself. */
  ghost function FirstGap(s: seq<ByteEntry>, i: nat): (m: nat)
    requires i <= |s|
    ensures i <= m <= |s| && (forall j :: i <= j < m ==> s[j].esi == j) && (m < |s| ==> s[m].esi != m)
    decreases |s| - i
  {
    if i < |s| && s[i].esi == i then FirstGap(s, i + 1) else i
  }

  ghost predicate Decodable(tb: TransBlock<Bytes>, es: nat)
    reads tb, tb.units
  {
    && tb.Valid() && |tb.units| == tb.k > 0
    && forall i :: 0 <= i < tb.k ==> tb.units[i].esi <= tb.k && tb.units[i].len == |tb.units[i].data| <= es
  }

  lemma {:induction false} SortedBound(s: seq<ByteEntry>, i: nat)
    requires Sorted(s) && i < |s|
    ensures i <= s[i].esi && (forall j :: i <= j < |s| ==> s[i].esi + (j - i) <= s[j].esi)
  {
    if i > 0 {
      SortedBound(s, i - 1);
    }
    SortedGrowth(s, i, |s| - 1);
  }

  lemma {:induction false} SortedGrowth(s: seq<ByteEntry>, i: nat, n: nat)
    requires Sorted(s) && i <= n < |s|
    ensures forall j :: i <= j <= n ==> s[i].esi + (j - i) <= s[j].esi
  {
    if i < n {
      SortedGrowth(s, i, n - 1);
      assert s[n - 1].esi < s[n].esi;
    }
  }

  /** k ordered units up to esi k, the parity among them: exactly one esi is skipped. */
  lemma OneGap(s: seq<ByteEntry>, k: nat)
    requires Sorted(s) && |s| == k > 0 && s[k - 1].esi == k
    ensures FirstGap(s, 0) < k && s[FirstGap(s, 0)].esi == FirstGap(s, 0) + 1
  {
    var m := FirstGap(s, 0);
    SortedBound(s, m);
  }

  /** Scroll to the last unit. */
  method LastUnit(tb: TransBlock<Bytes>) returns (tu: TransUnit<Bytes>)
    requires tb.Valid() && tb.units != []
    ensures tu == tb.units[|tb.units| - 1]
  {
    tu := tb.unitList;
    var nextTu := tu.next;
    ghost var i := 0;
    while nextTu != null
      invariant i < |tb.units| && tu == tb.units[i] && nextTu == Neighbour(tb.units, i + 1)
      decreases |tb.units| - i
    {
      tu := nextTu;
      nextTu := tu.next;
      i := i + 1;
    }
  }

  /** Look for the first skipped esi. */
  method FindMissing(tb: TransBlock<Bytes>, es: nat) returns (missingEsi: int)
    requires Decodable(tb, es) && tb.units[tb.k - 1].esi == tb.k
    ensures missingEsi == FirstGap(tb.Entries(), 0) < tb.k
    ensures tb.units[missingEsi].esi == missingEsi + 1
  {
    OneGap(tb.Entries(), tb.k);
    missingEsi := -1;
    var lastEsi: int := -1;
    var nextTu := tb.unitList;
    ghost var i := 0;
    while nextTu != null
      invariant i <= FirstGap(tb.Entries(), 0) && nextTu == Neighbour(tb.units, i) && lastEsi == i - 1
      decreases |tb.units| - i
    {
      var tu := nextTu;
      assert tb.Entries()[i].esi == tu.esi;
      if tu.esi != lastEsi + 1 {
        missingEsi := tu.esi - 1;
        break;
      }
      nextTu := tu.next;
      lastEsi := tu.esi;
      i := i + 1;
    }
  }

  /** Exclusive or of everything received. */
  method XorReceived(tb: TransBlock<Bytes>, es: nat) returns (missingSymb: array<byte>)
    requires Decodable(tb, es)
    ensures fresh(missingSymb) && Fit(Datas(tb.Entries()), es)
    ensures missingSymb[..] == Parity(Datas(tb.Entries()), es)
  {
    hide XorBytes, Parity, Padded;
    missingSymb := new byte[es](_ => 0);
    var paddedSymb := new byte[es](_ => 0);
    ghost var i, d := 0, Datas(tb.Entries());
    ParityNone(d, es);
    var nextTu := tb.unitList;
    while nextTu != null
      invariant i <= |tb.units| && nextTu == Neighbour(tb.units, i)
      invariant Fit(d[..i], es) && missingSymb[..] == Parity(d[..i], es)
      decreases |tb.units| - i
    {
      var tu := nextTu;
      ParityNext(d, i, es);
      PadSymbol(paddedSymb, tu.data, es);
      XorInto(missingSymb, paddedSymb, es);
      nextTu := tu.next;
      i := i + 1;
    }
    assert d[..|d|] == d;
  }

  lemma ParityNone(s: seq<Bytes>, es: nat)
    ensures Fit(s[..0], es) && Parity(s[..0], es) == Zeros(es)
  {}

  /** Splice the rebuilt unit in front of the first unit with a larger esi. */
  method InsertMissing(tb: TransBlock<Bytes>, missingUnit: TransUnit<Bytes>, missingEsi: nat)
    requires tb.Valid() && missingUnit !in tb.units && missingUnit.prev == null && missingUnit.next == null
    requires missingEsi < |tb.units| && missingUnit.esi == missingEsi && BelongsAt(tb.units, missingEsi, missingEsi)
    modifies missingUnit, tb`unitList, tb.units
    ensures tb.unitList == Inserted(tb.units, missingUnit, missingEsi)[0]
    ensures Linked(Inserted(tb.units, missingUnit, missingEsi))
  {
    ghost var units := tb.units;
    var nextTu := tb.unitList;
    ghost var i := 0;
    while nextTu != null
      invariant i <= missingEsi && nextTu == Neighbour(units, i) && tb.Valid()
      invariant missingUnit.prev == null && missingUnit.next == null
      decreases |units| - i
    {
      var tu := nextTu;
      if missingEsi == 0 {
        tb.unitList := missingUnit;
        missingUnit.next := tu;
        tu.prev := missingUnit;
        break;
      }
      if tu.esi > missingEsi {
        tu.prev.next := missingUnit;
        missingUnit.prev := tu.prev;
        missingUnit.next := tu;
        tu.prev := missingUnit;
        break;
      }
      nextTu := tu.next;
      i := i + 1;
    }
    LinkedInserted(units, missingUnit, missingEsi);
  }

  /** Cut the list behind the last source symbol. */
  method RemoveParity(tb: TransBlock<Bytes>, ghost units: seq<TransUnit<Bytes>>)
    requires tb.k > 0 && |units| == tb.k + 1 && Linked(units) && tb.unitList == units[0]
    requires forall i :: 0 <= i < |units| ==> units[i].esi == i
    modifies units[tb.k - 1]
    ensures Linked(units[..tb.k])
  {
    var tu := tb.unitList;
    for j := 0 to tb.k
      invariant j < tb.k && tu == units[j] && Linked(units)
    {
      if tu.esi == tb.k - 1 {
        tu.next := null;
        break;
      }
      tu := tu.next;
    }
  }

  /** Everything up to the missing esi is in place, everything else is one further. */
  lemma GapPositions(s: seq<ByteEntry>, k: nat, i: nat)
    requires Sorted(s) && |s| == k > 0 && s[k - 1].esi == k && i < k
    ensures s[i].esi == if i < FirstGap(s, 0) then i else i + 1
  {
    var m := FirstGap(s, 0);
    OneGap(s, k);
    if i >= m {
      SortedBound(s, m);
      SortedBound(s, i);
    }
  }

  /** Build the missing unit. */
  method MissingUnit(tb: TransBlock<Bytes>, es: nat, missingEsi: nat) returns (missingUnit: TransUnit<Bytes>)
    requires Decodable(tb, es) && Fit(Datas(tb.Entries()), es)
    ensures fresh(missingUnit) && missingUnit.prev == null && missingUnit.next == null
    ensures EntryOf(missingUnit) == Entry(missingEsi, es, Parity(Datas(tb.Entries()), es))
  {
    hide Parity;
    var missingSymb := XorReceived(tb, es);
    missingUnit := new TransUnit(missingEsi, es, missingSymb[..]);
  }

  /** Relink the list: splice the missing unit in and cut the parity unit off. */
  method Relink(tb: TransBlock<Bytes>, missingUnit: TransUnit<Bytes>, missingEsi: nat, ghost all: seq<TransUnit<Bytes>>)
    requires tb.Valid() && |tb.units| == tb.k > 0 && missingEsi < tb.k && BelongsAt(tb.units, missingEsi, missingEsi)
    requires missingUnit !in tb.units && missingUnit.prev == null && missingUnit.next == null
    requires missingUnit.esi == missingEsi && all == Inserted(tb.units, missingUnit, missingEsi)
    requires forall i :: 0 <= i < |all| ==> all[i].esi == i
    modifies missingUnit, tb`unitList, tb.units
    ensures tb.unitList == all[0] && Linked(all[..tb.k])
  {
    assert all[tb.k - 1] in tb.units || all[tb.k - 1] == missingUnit;
    hide Inserted, BelongsAt, Ordered, Linked, Neighbour;
    InsertMissing(tb, missingUnit, missingEsi);
    RemoveParity(tb, all);
  }

  /** Splice the missing unit in and drop the parity unit. */
  method SpliceMissing(tb: TransBlock<Bytes>, missingUnit: TransUnit<Bytes>, missingEsi: nat)
    requires tb.Valid() && |tb.units| == tb.k > 0 && tb.units[tb.k - 1].esi == tb.k && missingEsi == FirstGap(tb.Entries(), 0)
    requires missingUnit !in tb.units && missingUnit.prev == null && missingUnit.next == null
    requires missingUnit.esi == missingEsi
    modifies missingUnit, tb`unitList, tb`units, tb.units
    ensures tb.Valid() && tb.units == Inserted(old(tb.units), missingUnit, missingEsi)[..tb.k]
  {
    SplicedUnits(tb.units, missingUnit, tb.k);
    ghost var all := Inserted(tb.units, missingUnit, missingEsi);
    hide FirstGap, EntriesOf, BelongsAt, Ordered, Linked;
    Relink(tb, missingUnit, missingEsi, all);
    tb.units := all[..tb.k];
  }

  lemma SplicedUnits(units: seq<TransUnit<Bytes>>, u: TransUnit<Bytes>, k: nat)
    requires Ordered(units) && |units| == k > 0 && units[k - 1].esi == k && u.esi == FirstGap(EntriesOf(units), 0)
    ensures u.esi < k && BelongsAt(units, u.esi, u.esi) && |Inserted(units, u, u.esi)| == k + 1
    ensures forall i :: 0 <= i <= k ==> Inserted(units, u, u.esi)[i].esi == i
    ensures Ordered(Inserted(units, u, u.esi)[..k])
  {
    UnitPositions(units, u, k);
    hide FirstGap, EntriesOf, BelongsAt;
    PrefixOrdered(Inserted(units, u, u.esi), k);
  }

  lemma PrefixOrdered(all: seq<TransUnit<Bytes>>, k: nat)
    requires k <= |all| && forall i :: 0 <= i < |all| ==> all[i].esi == i
    ensures Ordered(all[..k])
  {}

  method RestoreMissing(tb: TransBlock<Bytes>, es: nat)
    requires Decodable(tb, es) && tb.units[tb.k - 1].esi == tb.k && Fit(Datas(tb.Entries()), es)
    modifies tb`unitList, tb`units, tb.units
    ensures tb.Valid() && tb.Entries() == Restored(old(tb.Entries()), tb.k, es)
  {
    hide Parity, Restored, FirstGap, Inserted;
    ghost var units := tb.units;
    var missingEsi := FindMissing(tb, es);
    var missingUnit := MissingUnit(tb, es, missingEsi);
    RestoredIs(EntriesOf(units), units, missingUnit, tb.k, es);
    EsiOf(missingUnit);
    SpliceMissing(tb, missingUnit, missingEsi);
  }

  lemma EsiOf(u: TransUnit<Bytes>)
    ensures u.esi == EntryOf(u).esi
  {}

  lemma UnitEsis(units: seq<TransUnit<Bytes>>, k: nat)
    requires Ordered(units) && |units| == k > 0 && units[k - 1].esi == k
    ensures var m := FirstGap(EntriesOf(units), 0);
            m < k && forall i :: 0 <= i < k ==> units[i].esi == if i < m then i else i + 1
  {
    var s := EntriesOf(units);
    assert forall i :: 0 <= i < k ==> s[i].esi == units[i].esi;
    hide FirstGap, EntriesOf;
    OneGap(s, k);
    forall i | 0 <= i < k ensures s[i].esi == if i < FirstGap(s, 0) then i else i + 1 {
      GapPositions(s, k, i);
    }
  }

  lemma UnitPositions(units: seq<TransUnit<Bytes>>, u: TransUnit<Bytes>, k: nat)
    requires Ordered(units) && |units| == k > 0 && units[k - 1].esi == k && u.esi == FirstGap(EntriesOf(units), 0)
    ensures u.esi < k && BelongsAt(units, u.esi, u.esi)
    ensures forall i :: 0 <= i <= k ==> Inserted(units, u, u.esi)[i].esi == i
  {
    UnitEsis(units, k);
    hide FirstGap, EntriesOf, Ordered;
  }

  lemma RestoredIs(s: seq<ByteEntry>, units: seq<TransUnit<Bytes>>, u: TransUnit<Bytes>, k: nat, es: nat)
    requires s == EntriesOf(units) && Ordered(units) && |s| == k > 0 && s[k - 1].esi == k && Fit(Datas(s), es)
    requires EntryOf(u) == Entry(FirstGap(s, 0), es, Parity(Datas(s), es))
    ensures FirstGap(s, 0) < k
    ensures EntriesOf(Inserted(units, u, FirstGap(s, 0))[..k]) == Restored(s, k, es)
  {
    OneGap(s, k);
    hide Parity;
    EntriesInserted(units, u, FirstGap(s, 0));
    assert EntriesOf(Inserted(units, u, FirstGap(s, 0))[..k]) == EntriesOf(Inserted(units, u, FirstGap(s, 0)))[..k];
  }

  ghost predicate Lens(s: seq<ByteEntry>, es: nat) {
    forall i :: 0 <= i < |s| ==> s[i].len == |s[i].data| <= es
  }

  lemma NothingMissing(s: seq<ByteEntry>, k: nat, es: nat)
    requires |s| == k > 0 && Fit(Datas(s), es) && s[k - 1].esi != k
    ensures Restored(s, k, es) == s
  {}

  lemma RestoredShape(s: seq<ByteEntry>, k: nat, es: nat)
    requires |s| == k > 0 && Lens(s, es)
    ensures Fit(Datas(s), es) && |Restored(s, k, es)| == k && Lens(Restored(s, k, es), es)
  {
    hide Parity;
  }

  lemma {:induction false} PayloadBound(s: seq<ByteEntry>, es: nat)
    requires Lens(s, es)
    ensures |Payload(s)| <= es * |s|
  {
    if s != [] {
      PayloadBound(s[1..], es);
      assert es * |s| == es * |s[1..]| + es;
    }
  }

  /** The output buffer, one byte longer than the block. */
  method CopyBlock(tb: TransBlock<Bytes>, blockLen: nat) returns (buf: array<byte>)
    requires tb.Valid() && LensMatch(tb.Entries()) && |Payload(tb.Entries())| <= blockLen
    ensures fresh(buf) && buf.Length == blockLen + 1
    ensures var p := Payload(tb.Entries()); buf[..blockLen] == p + Zeros(blockLen - |p|)
  {
    hide Payload;
    buf := new byte[blockLen + 1](_ => 0);
    var tmp := CopyUnits(tb, buf);
  }

  /** xor_fec_decode_src_block on the k units that made the block ready. */
  method DecodeSrcBlock(tb: TransBlock<Bytes>, es: nat) returns (buf: array<byte>, blockLen: nat)
    requires Decodable(tb, es)
    modifies tb`unitList, tb`units, tb.units
    ensures tb.Valid() && Fit(Datas(old(tb.Entries())), es)
    ensures tb.Entries() == Restored(old(tb.Entries()), tb.k, es)
    ensures blockLen == es * tb.k && fresh(buf) && buf.Length == blockLen + 1
    ensures var p := Payload(tb.Entries());
            |p| <= blockLen && buf[..blockLen] == p + Zeros(blockLen - |p|)
  {
    hide Restored, Parity, Payload, Fit;
    var tu := LastUnit(tb);
    ghost var s := tb.Entries();
    RestoredShape(s, tb.k, es);
    if tu.esi == tb.k {
      RestoreMissing(tb, es);
    } else {
      NothingMissing(s, tb.k, es);
    }
    PayloadBound(tb.Entries(), es);
    blockLen := es * tb.k;
    buf := CopyBlock(tb, blockLen);
  }

  // ----- round trip

  /** A list without entry m. */
  ghost function Without<T>(s: seq<T>, m: nat): seq<T>
    requires m < |s|
  {
    s[..m] + s[m + 1..]
  }

  /** The block in order, with symbol m padded if it was rebuilt. */
  ghost function Rebuilt(data: Bytes, es: nat, m: nat): (r: seq<ByteEntry>)
    requires es > 0
  {
    CutFits(data, es);
    var s := InOrder(data, es);
    if m < |s| then s[m := Entry(m, es, Padded(Cut(data, es)[m], es))] else s
  }

  lemma EncodedShape(data: Bytes, es: nat)
    requires es > 0 && data != []
    ensures var s, k := Encoded(data, es), |Cut(data, es)|;
            && |s| == k + 1 && k > 0 && Lens(s, es)
            && (forall i :: 0 <= i < k ==> s[i] == SymbolEntry(data, es, i))
            && (forall i :: 0 <= i <= k ==> s[i].esi == i)
            && Fit(Cut(data, es), es) && s[k].data == Parity(Cut(data, es), es)
  {
    CutFits(data, es);
    hide Parity;
  }

  /** What arrives when entry m is lost. */
  lemma ErasedShape(data: Bytes, es: nat, m: nat)
    requires es > 0 && data != [] && m <= |Cut(data, es)|
    ensures var k, s := |Cut(data, es)|, Without(Encoded(data, es), m);
            && |s| == k > 0 && Sorted(s) && Lens(s, es) && Fit(Datas(s), es)
            && (forall i :: 0 <= i < k ==> s[i].esi == if i < m then i else i + 1)
            && (forall i :: 0 <= i < k ==> s[i] == Encoded(data, es)[if i < m then i else i + 1])
  {
    EncodedShape(data, es);
    hide Encoded;
  }

  /** Any single erasure is repaired: the list again holds esi 0 .. k-1. */
  lemma RestoresErasure(data: Bytes, es: nat, m: nat)
    requires es > 0 && data != [] && m <= |Cut(data, es)|
    ensures var k, s := |Cut(data, es)|, Without(Encoded(data, es), m);
            && |s| == k > 0 && Sorted(s) && Lens(s, es) && Fit(Datas(s), es)
            && (forall i :: 0 <= i < k ==> s[i].esi <= k)
            && Restored(s, k, es) == Rebuilt(data, es, m)
  {
    EncodedShape(data, es);
    ErasedShape(data, es, m);
    hide Parity, Encoded, Without, Restored, Rebuilt;
    if m < |Cut(data, es)| {
      RestoresSource(data, es, m);
    } else {
      RestoresParity(data, es);
    }
  }

  lemma RestoresParity(data: Bytes, es: nat)
    requires es > 0 && data != []
    ensures var k, s := |Cut(data, es)|, Without(Encoded(data, es), |Cut(data, es)|);
            |s| == k > 0 && Fit(Datas(s), es) && Restored(s, k, es) == Rebuilt(data, es, k)
  {
    ErasedShape(data, es, |Cut(data, es)|);
    EncodedShape(data, es);
    hide Parity, Encoded;
    var s := Without(Encoded(data, es), |Cut(data, es)|);
    hide Without;
    assert s == InOrder(data, es);
  }

  lemma RestoresSource(data: Bytes, es: nat, m: nat)
    requires es > 0 && data != [] && m < |Cut(data, es)|
    ensures var k, s := |Cut(data, es)|, Without(Encoded(data, es), m);
            |s| == k > 0 && Fit(Datas(s), es) && Restored(s, k, es) == Rebuilt(data, es, m)
  {
    var cut, k := Cut(data, es), |Cut(data, es)|;
    EncodedShape(data, es);
    ErasedShape(data, es, m);
    var s := Without(Encoded(data, es), m);
    hide Parity, Encoded, Without;
    GapFrom(s, m, 0);
    ErasedParity(data, es, m, s);
    RestoredAt(s, k, es, m);
    hide Datas, FirstGap, Padded, Restored;
    FilledGap(data, es, m, s);
  }

  lemma RestoredAt(s: seq<ByteEntry>, k: nat, es: nat, m: nat)
    requires |s| == k > 0 && Fit(Datas(s), es) && s[k - 1].esi == k && FirstGap(s, 0) == m < k
    ensures Restored(s, k, es) == Inserted(s, Entry(m, es, Parity(Datas(s), es)), m)[..k]
  {}

  lemma ErasedParity(data: Bytes, es: nat, m: nat, s: seq<ByteEntry>)
    requires es > 0 && data != [] && m < |Cut(data, es)| && s == Without(Encoded(data, es), m)
    ensures Fit(Datas(s), es) && Fit(Cut(data, es), es)
    ensures Parity(Datas(s), es) == Padded(Cut(data, es)[m], es)
  {
    var cut := Cut(data, es);
    EncodedShape(data, es);
    ErasedShape(data, es, m);
    hide Parity, Encoded, Without, Cut, Fit, Padded;
    RecoverLost(cut, m, es);
    ErasedDatas(s, cut, m, Parity(cut, es));
  }

  lemma ErasedDatas(s: seq<ByteEntry>, cut: seq<Bytes>, m: nat, parity: Bytes)
    requires |s| == |cut| && m < |s| && s[|s| - 1].data == parity
    requires forall i :: 0 <= i < |s| - 1 ==> s[i].data == cut[if i < m then i else i + 1]
    ensures Datas(s) == cut[..m] + cut[m + 1..] + [parity]
  {}

  lemma FilledGap(data: Bytes, es: nat, m: nat, s: seq<ByteEntry>)
    requires es > 0 && m < |Cut(data, es)| == |s| && Fit(Cut(data, es), es)
    requires forall i :: 0 <= i < |s| - 1 ==> s[i] == SymbolEntry(data, es, if i < m then i else i + 1)
    ensures Inserted(s, Entry(m, es, Padded(Cut(data, es)[m], es)), m)[..|s|] == Rebuilt(data, es, m)
  {
    hide Padded;
    var r := Inserted(s, Entry(m, es, Padded(Cut(data, es)[m], es)), m);
    hide Inserted;
    forall i | 0 <= i < |s| ensures r[i] == Rebuilt(data, es, m)[i] {
      if i > m {
        assert r[i] == s[i - 1];
      } else if i < m {
        assert r[i] == s[i];
      }
    }
  }

  lemma {:induction false} GapFrom(s: seq<ByteEntry>, m: nat, i: nat)
    requires i <= m < |s| && forall j :: 0 <= j < |s| ==> s[j].esi == if j < m then j else j + 1
    ensures FirstGap(s, i) == m
    decreases m - i
  {
    if i < m {
      GapFrom(s, m, i + 1);
    }
  }

  lemma {:induction false} PayloadAppend(s: seq<ByteEntry>, e: ByteEntry)
    ensures Payload(s + [e]) == Payload(s) + e.data
  {
    if s != [] {
      assert (s + [e])[1..] == s[1..] + [e];
      PayloadAppend(s[1..], e);
    }
  }

  /** A rebuilt symbol only adds padding at the end of the block. */
  lemma RebuiltIs(data: Bytes, es: nat, m: nat)
    requires es > 0 && data != []
    ensures exists pad: nat :: Payload(Rebuilt(data, es, m)) == data + Zeros(pad)
  {
    var cut, s, r, k := Cut(data, es), InOrder(data, es), Rebuilt(data, es, m), |Cut(data, es)|;
    CutFits(data, es);
    PayloadInOrder(data, es);
    if m == k - 1 {
      hide Payload;
      assert s == s[..m] + [s[m]] && r == s[..m] + [r[m]];
      PayloadAppend(s[..m], s[m]);
      PayloadAppend(s[..m], r[m]);
      assert Payload(r) == data + Zeros(es - |cut[m]|);
    } else {
      if m < k {
        CutLengths(data, es, m);
        assert Padded(cut[m], es) == cut[m];
        assert r[m] == s[m];
      }
      assert r == s;
      assert data + Zeros(0) == data;
    }
  }

  /** The rebuilt block is the data, zero-padded to k * es bytes. */
  lemma RebuiltPayload(data: Bytes, es: nat, m: nat)
    requires es > 0 && data != []
    ensures var p, n := Payload(Rebuilt(data, es, m)), es * |Cut(data, es)|;
            |data| <= |p| <= n && p + Zeros(n - |p|) == data + Zeros(n - |data|)
  {
    RebuiltIs(data, es, m);
    CutFits(data, es);
    PayloadBound(Rebuilt(data, es, m), es);
    assert |Rebuilt(data, es, m)| == |Cut(data, es)|;
  }

  /** The block in order, possibly with padding at its end. */
  ghost predicate InOrderPadded(s: seq<ByteEntry>, data: Bytes, es: nat, k: nat) {
    && |s| == k && (forall i :: 0 <= i < k ==> s[i].esi == i)
    && |data| <= |Payload(s)| <= es * k
    && Payload(s) + Zeros(es * k - |Payload(s)|) == data + Zeros(es * k - |data|)
  }

  lemma RebuiltInOrder(data: Bytes, es: nat, m: nat)
    requires es > 0 && data != []
    ensures InOrderPadded(Rebuilt(data, es, m), data, es, |Cut(data, es)|)
  {
    RebuiltPayload(data, es, m);
  }

  /** Round trip. If all symbols of the block but one, whichever it is, arrive in any order and
      some of them more than once, the decoder's list is the block in order and what it
      copies is the data, zero-padded to k * es bytes. */
  lemma RoundTrip(data: Bytes, es: nat, m: nat, arrivals: seq<ByteEntry>, len: nat)
    requires es > 0 && data != [] && m <= |Cut(data, es)|
    requires forall e :: e in arrivals <==> e in Without(Encoded(data, es), m)
    ensures var list, k := ReceiveAll(arrivals, len).list, |Cut(data, es)|;
            && |list| == k > 0 && Sorted(list) && Lens(list, es) && Fit(Datas(list), es)
            && (forall i :: 0 <= i < k ==> list[i].esi <= k)
            && InOrderPadded(Restored(list, k, es), data, es, k)
  {
    hide Parity, Encoded, Without, Restored, Rebuilt, ReceiveAll, InOrderPadded, Datas, Sorted, SumLens, Cut;
    EncodedShape(data, es);
    RestoresErasure(data, es, m);
    RebuiltInOrder(data, es, m);
    ReceivesAnyOrder(Without(Encoded(data, es), m), arrivals, len);
  }
}
