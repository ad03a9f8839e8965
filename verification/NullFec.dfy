/** Compact No-Code FEC: a block is only cut into symbols. The encoder emits symbol 0
    last; the receiver's sorted list undoes that. */
module NullFec {
  import opened Symbols
  import opened Transport

  type ByteEntry = Entry<Bytes>

  ghost function SymbolEntry(data: Bytes, es: nat, i: nat): ByteEntry
    requires es > 0 && i < |Cut(data, es)|
  {
    Entry(i, |Cut(data, es)[i]|, Cut(data, es)[i])
  }

  /** The symbols in esi order. */
  ghost function InOrder(data: Bytes, es: nat): (r: seq<ByteEntry>)
    requires es > 0
    ensures |r| == |Cut(data, es)|
  {
    seq(|Cut(data, es)|, i requires 0 <= i < |Cut(data, es)| => SymbolEntry(data, es, i))
  }

  /** The order of transmission: symbol 0 comes last. */
  ghost function Emitted(data: Bytes, es: nat): (r: seq<ByteEntry>)
    requires es > 0
  {
    var s := InOrder(data, es);
    if |s| > 1 then s[1..] + [s[0]] else s
  }

  /** Fill the next unit of the array. */
  method PlaceUnit(units: array<ByteEntry>, u: nat, e: ByteEntry, ghost data: Bytes, ghost es: nat, ghost skipped: nat)
    requires es > 0 && u < units.Length && u + skipped < |Cut(data, es)|
    requires Placed(units[..u], data, es, skipped) && e == SymbolEntry(data, es, u + skipped)
    modifies units
    ensures Placed(units[..u + 1], data, es, skipped)
  {
    hide Cut, SymbolEntry, Placed;
    PlacedNext(units[..u], data, es, skipped);
    units[u] := e;
    assert units[..u + 1] == old(units[..u]) + [e];
  }

  /** null_fec_encode_src_block: the units of the block in the order of the unit array. */
  method EncodeSrcBlock(data: Bytes, es: nat) returns (units: array<ByteEntry>)
    requires es > 0
    ensures units[..] == Emitted(data, es)
  {
    CutCount(data, es);
    var nb := CeilDiv(|data|, es);
    ghost var skipped := if nb > 1 then 1 else 0;
    hide Cut, SymbolEntry, Placed, Emitted, Reached, CeilDiv;
    PlacedNone(data, es, skipped);
    ReachedStart(data, es);
    var ptr: nat, dataLeft: nat, u: nat, es0Len: nat := 0, |data|, 0, 0;
    units := new ByteEntry[nb](_ => Entry(0, 0, []));
    for i := 0 to nb
      invariant ptr + dataLeft == |data| && Reached(data, es, ptr, i)
      invariant u == if i == 0 then 0 else i - skipped
      invariant Placed(units[..u], data, es, skipped)
      invariant nb > 1 && i > 0 ==> es0Len <= |data| && Entry(0, es0Len, data[..es0Len]) == SymbolEntry(data, es, 0)
    {
      NextSymbol(data, es, ptr, i);
      var len := if dataLeft < es then dataLeft else es;
      if i == 0 && nb > 1 {
        es0Len := len;
      } else {
        PlaceUnit(units, u, Entry(i, len, data[ptr..ptr + len]), data, es, skipped);
        u := u + 1;
      }
      ptr := ptr + len;
      dataLeft := dataLeft - len;
    }
    EmittedIs(data, es, units[..u], skipped);
    if nb > 1 {
      units[u] := Entry(0, es0Len, data[..es0Len]);
    }
  }

  /** Symbol i starts at ptr. */
  ghost predicate Reached(data: Bytes, es: nat, ptr: nat, i: nat)
    requires es > 0 && i <= |Cut(data, es)|
  {
    ptr <= |data| && Cut(data[ptr..], es) == Cut(data, es)[i..] && (i == 0 ==> ptr == 0)
  }

  lemma ReachedStart(data: Bytes, es: nat)
    requires es > 0
    ensures Reached(data, es, 0, 0)
  {
    assert data[0..] == data;
  }

  /** The first units of the array: the symbols in order, without symbol 0 if it comes last. */
  ghost predicate Placed(s: seq<ByteEntry>, data: Bytes, es: nat, skipped: nat)
    requires es > 0
  {
    |s| + skipped <= |Cut(data, es)| && forall j :: 0 <= j < |s| ==> s[j] == SymbolEntry(data, es, j + skipped)
  }

  lemma PlacedNone(data: Bytes, es: nat, skipped: nat)
    requires es > 0 && skipped <= |Cut(data, es)|
    ensures Placed([], data, es, skipped)
  {}

  lemma PlacedNext(s: seq<ByteEntry>, data: Bytes, es: nat, skipped: nat)
    requires es > 0 && Placed(s, data, es, skipped) && |s| + skipped < |Cut(data, es)|
    ensures Placed(s + [SymbolEntry(data, es, |s| + skipped)], data, es, skipped)
  {
    hide Cut;
  }

  lemma EmittedIs(data: Bytes, es: nat, s: seq<ByteEntry>, skipped: nat)
    requires es > 0 && Placed(s, data, es, skipped) && |s| + skipped == |Cut(data, es)|
    requires skipped == if |Cut(data, es)| > 1 then 1 else 0
    ensures Emitted(data, es) == s + if skipped == 1 then [SymbolEntry(data, es, 0)] else []
  {
    hide Cut;
  }

  /** The next symbol starts at ptr. */
  lemma CutHead(data: Bytes, es: nat, ptr: nat, i: nat)
    requires es > 0 && ptr <= |data| && i < |Cut(data, es)| && Cut(data[ptr..], es) == Cut(data, es)[i..]
    ensures var len := if |data| - ptr < es then |data| - ptr else es;
            data[ptr..ptr + len] == Cut(data, es)[i] && Cut(data[ptr + len..], es) == Cut(data, es)[i + 1..]
            && |Cut(data, es)[i]| == len
  {
    var rest := data[ptr..];
    assert Cut(rest, es)[0] == Cut(data, es)[i];
    assert Cut(rest, es)[1..] == Cut(data, es)[i + 1..];
    assert rest != [];
    if |rest| > es {
      assert rest[es..] == data[ptr + es..];
      assert rest[..es] == data[ptr..ptr + es];
    } else {
      assert rest == data[ptr..ptr + |rest|];
      assert data[ptr + |rest|..] == [];
    }
  }

  lemma NextSymbol(data: Bytes, es: nat, ptr: nat, i: nat)
    requires es > 0 && i < |Cut(data, es)| && Reached(data, es, ptr, i)
    ensures var len := if |data| - ptr < es then |data| - ptr else es;
            && 0 < len && ptr + len <= |data| && Reached(data, es, ptr + len, i + 1)
            && Entry(i, len, data[ptr..ptr + len]) == SymbolEntry(data, es, i)
            && (i == 0 ==> data[..len] == data[ptr..ptr + len])
  {
    CutHead(data, es, ptr, i);
  }

  ghost function Payload(s: seq<ByteEntry>): Bytes {
    if s == [] then [] else s[0].data + Payload(s[1..])
  }

  ghost predicate LensMatch(s: seq<ByteEntry>) {
    forall i :: 0 <= i < |s| ==> s[i].len == |s[i].data|
  }

  /** The copy loop of the decoders: all units of the list, one after the other. */
  method CopyUnits(tb: TransBlock<Bytes>, buf: array<byte>) returns (tmp: nat)
    requires tb.Valid() && LensMatch(tb.Entries()) && |Payload(tb.Entries())| <= buf.Length
    modifies buf
    ensures tmp == |Payload(tb.Entries())|
    ensures buf[..] == Payload(tb.Entries()) + old(buf[..])[tmp..]
  {
    tmp := 0;
    var nextTu := tb.unitList;
    ghost var i, s := 0, tb.Entries();
    assert s[0..] == s;
    while nextTu != null
      invariant i <= |tb.units| && nextTu == Neighbour(tb.units, i)
      invariant 0 <= tmp <= buf.Length && tmp + |Payload(s[i..])| == |Payload(s)|
      invariant buf[..tmp] + Payload(s[i..]) == Payload(s)
      invariant buf[tmp..] == old(buf[..])[tmp..]
      decreases |tb.units| - i
    {
      var tu := nextTu;
      PayloadStep(s, i);
      CopyBytes(buf, tmp, tu.data, tu.len);
      tmp := tmp + tu.len;
      nextTu := tu.next;
      i := i + 1;
    }
  }

  /** null_fec_decode_src_block: eslen is the size of the buffer the caller asks for. */
  method DecodeSrcBlock(tb: TransBlock<Bytes>, eslen: nat) returns (buf: array<byte>, blockLen: nat)
    requires tb.Valid() && LensMatch(tb.Entries()) && |Payload(tb.Entries())| <= eslen
    ensures fresh(buf) && buf.Length == eslen && blockLen == |Payload(tb.Entries())|
    ensures buf[..] == Payload(tb.Entries()) + Zeros(eslen - blockLen)
  {
    buf := new byte[eslen](_ => 0);
    blockLen := CopyUnits(tb, buf);
  }

  lemma PayloadStep(s: seq<ByteEntry>, i: nat)
    requires i < |s|
    ensures Payload(s[i..]) == s[i].data + Payload(s[i + 1..])
  {
    assert s[i..][1..] == s[i + 1..];
  }

  /** memcpy into a buffer at an offset. */
  method CopyBytes(buf: array<byte>, off: nat, src: Bytes, n: nat)
    requires n <= |src| && off + n <= buf.Length
    modifies buf
    ensures buf[..] == old(buf[..off]) + src[..n] + old(buf[off + n..])
  {
    for i := 0 to n
      invariant buf[..] == old(buf[..off]) + src[..i] + old(buf[off + i..])
    {
      buf[off + i] := src[i];
    }
  }

  /** The units as they are emitted: unit j has esi j + 1, the last one esi 0, and each carries
      its stretch of the data. */
  lemma EmittedEach(data: Bytes, es: nat, j: nat)
    requires es > 0 && j < |Emitted(data, es)|
    ensures var u, nb := Emitted(data, es), |Emitted(data, es)|;
            var i := if j + 1 < nb then j + 1 else 0;
            && (nb - 1) * es < |data| <= nb * es && i * es <= |data|
            && u[j].esi == i && u[j].len == |u[j].data|
            && u[j].data == data[i * es..if (i + 1) * es <= |data| then (i + 1) * es else |data|]
  {
    hide Cut;
    var nb := |Cut(data, es)|;
    CutSlice(data, es, nb - 1);
    CutSlice(data, es, if j + 1 < nb then j + 1 else 0);
  }

  // ----- round trip under loss-free reordering and duplication

  lemma InOrderSorted(data: Bytes, es: nat)
    requires es > 0
    ensures Sorted(InOrder(data, es)) && LensMatch(InOrder(data, es))
  {}

  lemma {:induction false} PayloadFlatten(s: seq<ByteEntry>, cut: seq<Bytes>)
    requires |s| == |cut| && forall i :: 0 <= i < |s| ==> s[i].data == cut[i]
    ensures Payload(s) == Flatten(cut)
  {
    if s != [] {
      PayloadFlatten(s[1..], cut[1..]);
    }
  }

  lemma PayloadInOrder(data: Bytes, es: nat)
    requires es > 0
    ensures Payload(InOrder(data, es)) == data
  {
    PayloadFlatten(InOrder(data, es), Cut(data, es));
    FlattenCut(data, es);
  }

  lemma EmittedMembers(data: Bytes, es: nat, e: ByteEntry)
    requires es > 0
    ensures e in Emitted(data, es) <==> e in InOrder(data, es)
  {
    var s := InOrder(data, es);
    if |s| > 1 {
      assert s == [s[0]] + s[1..];
    }
  }

  /** Whatever order and duplication the emitted units arrive in, once each esi has arrived
      the receiver's list is the block in order, and decoding it gives the data back. */
  lemma RoundTrip(data: Bytes, es: nat, arrivals: seq<ByteEntry>, len: nat)
    requires es > 0
    requires forall e :: e in arrivals <==> e in Emitted(data, es)
    ensures var list := ReceiveAll(arrivals, len).list;
            list == InOrder(data, es) && LensMatch(list) && Payload(list) == data
    ensures ReceiveAll(arrivals, len).rxBytes == Min(len, |data|)
  {
    var s := InOrder(data, es);
    InOrderSorted(data, es);
    PayloadInOrder(data, es);
    SumLensPayload(s);
    forall e ensures e in arrivals <==> e in s {
      EmittedMembers(data, es, e);
    }
    hide Emitted;
    ReceivesAnyOrder(s, arrivals, len);
  }

  lemma {:induction false} SumLensPayload(s: seq<ByteEntry>)
    requires LensMatch(s)
    ensures SumLens(s) == |Payload(s)|
  {
    if s != [] {
      SumLensPayload(s[1..]);
    }
  }
}
