/** Reed-Solomon FEC at block level: a block of bytes becomes k source and n - k repair
    units, and any k of them give it back. A unit's buffer is a buffer of 16-bit words. */
module RsFec {
  import opened Symbols
  import opened Transport
  import NullFec
  import opened Field
  import L = Linear
  import opened Tables
  import opened Codec
  import opened Fec
  import opened FecPackets

  // ----- bytes and words

  /** A byte buffer seen as words of two bytes, low byte first. */
  function Pack(b: Bytes): (r: seq<gf>)
    requires |b| % 2 == 0
    ensures |r| == |b| / 2
  {
    seq(|b| / 2, i requires 0 <= i < |b| / 2 => Word(b[2 * i], b[2 * i + 1]))
  }

  function Word(low: byte, high: byte): gf { low + 256 * high }

  function Unpack(w: seq<gf>): (r: Bytes)
    ensures |r| == 2 * |w|
  {
    seq(2 * |w|, i requires 0 <= i < 2 * |w| => if i % 2 == 0 then w[i / 2] % 256 else w[i / 2] / 256)
  }

  lemma UnpackPack(b: Bytes)
    requires |b| % 2 == 0
    ensures Unpack(Pack(b)) == b
  {
    forall i | 0 <= i < |b| ensures Unpack(Pack(b))[i] == b[i] {
      assert i % 2 == 0 ==> 2 * (i / 2) == i;
      assert i % 2 == 1 ==> 2 * (i / 2) + 1 == i;
    }
  }

  /** The source symbols of a block as packets of words. */
  ghost function Source(data: Bytes, es: nat): (r: L.Matrix)
    requires es > 0 && es % 2 == 0
    ensures L.IsMatrix(r, |Cut(data, es)|, es / 2)
  {
    seq(|Cut(data, es)|, i requires 0 <= i < |Cut(data, es)| => SourcePacketOf(data, es, i))
  }

  ghost function SourcePacketOf(data: Bytes, es: nat, i: nat): (r: L.Vector)
    requires es > 0 && es % 2 == 0 && i < |Cut(data, es)|
    ensures |r| == es / 2
  {
    CutLengths(data, es, i);
    Pack(Padded(Cut(data, es)[i], es))
  }

  /** Word j of source packet i is the bytes of the data at i * es + 2 * j, zero behind its end. */
  lemma SourceWord(data: Bytes, es: nat, i: nat, j: nat)
    requires es > 0 && es % 2 == 0 && i < |Cut(data, es)| && j < es / 2
    ensures var x := i * es + 2 * j;
            var low: int := if x < |data| then data[x] else 0;
            var high: int := if x + 1 < |data| then data[x + 1] else 0;
            Source(data, es)[i][j] == low + 256 * high
  {
    hide Cut;
    CutSlice(data, es, i);
    CutLengths(data, es, i);
    PaddedSlice(data, i * es, es, 2 * j);
    PaddedSlice(data, i * es, es, 2 * j + 1);
    assert (i + 1) * es == i * es + es;
  }

  /** Byte y of a padded stretch of the data. */
  lemma PaddedSlice(data: Bytes, lo: nat, es: nat, y: nat)
    requires lo < |data| && y < es
    ensures var c := data[lo..if lo + es <= |data| then lo + es else |data|];
            |c| <= es && Padded(c, es)[y] == if lo + y < |data| then data[lo + y] else 0
  {}

  /** The quotients of both ends are determined by their bounds, so they agree. */
  lemma SameNumber(k: nat, maxK: nat, maxN: nat, n: nat, n': nat)
    requires n * maxK <= k * maxN < (n + 1) * maxK && n' * maxK <= k * maxN < (n' + 1) * maxK
    ensures n == n'
  {
    MulMonotone(n, n', maxK);
    MulMonotone(n', n, maxK);
    assert (n + 1) * maxK == n * maxK + maxK && (n' + 1) * maxK == n' * maxK + maxK;
  }

  lemma DivAtLeast(a: nat, d: nat, q: nat)
    requires d > 0 && a >= q * d
    ensures a / d >= q
  {
    var x := a / d;
    assert a == d * x + a % d && d * x == x * d;
    MulMonotone(x, q, d);
  }

  /** At least as many encoding symbols as source symbols. */
  lemma EnoughSymbols(k: nat, maxK: nat, rs: nat)
    requires maxK > 0
    ensures maxK * (100 + rs) / 100 >= maxK && k * (maxK * (100 + rs) / 100) / maxK >= k
  {
    assert maxK * (100 + rs) >= maxK * 100;
    DivAtLeast(maxK * (100 + rs), 100, maxK);
    MoreThan(k, maxK, maxK * (100 + rs) / 100);
  }

  lemma MoreThan(k: nat, maxK: nat, maxN: nat)
    requires 0 < maxK <= maxN
    ensures k * maxN / maxK >= k
  {
    assert k * maxN >= k * maxK;
    DivAtLeast(k * maxN, maxK, k);
  }

  lemma AtMost(x: nat, d: nat, q: nat)
    requires d > 0 && x < (q + 1) * d
    ensures x / d <= q
  {
    DivBounds(x, d);
    MulMonotone(q, x / d, d);
    assert (q + 1) * d == q * d + d;
  }

  // ----- encoding

  type WordEntry = Entry<array<gf>>

  /** The fields of the transport block that the encoder sets. */
  datatype RsBlock = RsBlock(sbn: nat, k: nat, n: nat, maxK: nat, maxN: nat, units: array<WordEntry>)

  /** Unit i is the encoding symbol with index i of the block. */
  ghost predicate HoldsSymbols(units: seq<WordEntry>, k: nat, src: L.Matrix, w: nat, m: nat)
    requires k >= 1 && L.IsMatrix(src, k, w) && m <= |units|
    reads set i | 0 <= i < m :: units[i].data
  {
    forall i :: 0 <= i < m ==> HoldsSymbol(units[i], k, src, w, i)
  }

  ghost predicate HoldsSymbol(u: WordEntry, k: nat, src: L.Matrix, w: nat, i: nat)
    requires k >= 1 && L.IsMatrix(src, k, w)
    reads u.data
  {
    u.esi == i && u.data.Length == w && u.data[..] == EncPacket(k, src, w, i)
  }

  ghost predicate SeparateData(units: seq<WordEntry>, m: nat)
    requires m <= |units|
  {
    forall i, j :: 0 <= i < j < m ==> units[i].data != units[j].data
  }

  /** Storing the next unit. */
  lemma HoldsNext(was: seq<WordEntry>, now: seq<WordEntry>, k: nat, src: L.Matrix, w: nat, m: nat)
    requires k >= 1 && L.IsMatrix(src, k, w) && m < |was| == |now| && now[..m] == was[..m]
    requires HoldsSymbols(was, k, src, w, m) && SeparateData(was, m)
    requires HoldsSymbol(now[m], k, src, w, m)
    requires forall i :: 0 <= i < m ==> was[i].data != now[m].data
    ensures HoldsSymbols(now, k, src, w, m + 1) && SeparateData(now, m + 1)
  {
    hide HoldsSymbol;
    forall i | 0 <= i < m ensures now[i] == was[i] {
      assert now[i] == now[..m][i];
    }
  }

  /** One source unit: a zeroed buffer filled from the data. */
  method SourceUnit(data: Bytes, es: nat, ptr: nat, len: nat, i: nat) returns (u: WordEntry)
    requires es > 0 && es % 2 == 0 && i < |Cut(data, es)| <= GF_SIZE && ptr + len <= |data|
    requires data[ptr..ptr + len] == Cut(data, es)[i]
    ensures HoldsSymbol(u, |Cut(data, es)|, Source(data, es), es / 2, i) && u.len == len && fresh(u.data)
  {
    CutLengths(data, es, i);
    hide EncPacket, Cut, Pack;
    var words := Pack(Padded(data[ptr..ptr + len], es));
    var buffer := new gf[es / 2](j requires 0 <= j < |words| => words[j]);
    assert buffer[..] == words == Source(data, es)[i];
    SourcePacket(|Cut(data, es)|, Source(data, es), es / 2, i);
    u := Entry(i, len, buffer);
  }

  /** The first loop: one zeroed buffer per source symbol, filled from the data. */
  method SourceUnits(data: Bytes, es: nat, units: array<WordEntry>)
    requires es > 0 && es % 2 == 0 && 1 <= |Cut(data, es)| <= GF_SIZE && |Cut(data, es)| <= units.Length
    modifies units
    ensures HoldsSymbols(units[..], |Cut(data, es)|, Source(data, es), es / 2, |Cut(data, es)|)
    ensures SeparateData(units[..], |Cut(data, es)|)
    ensures forall i :: 0 <= i < |Cut(data, es)| ==> units[i].len == |Cut(data, es)[i]| && fresh(units[i].data)
  {
    hide Cut, Source, HoldsSymbol;
    ghost var cut := Cut(data, es);
    var k := |Cut(data, es)|;
    var ptr, dataLeft := 0, |data|;
    assert data[0..] == data;
    for i := 0 to k
      invariant 0 <= ptr <= |data| && ptr + dataLeft == |data| && Cut(data[ptr..], es) == cut[i..]
      invariant HoldsSymbols(units[..], k, Source(data, es), es / 2, i) && SeparateData(units[..], i)
      invariant forall j :: 0 <= j < i ==> units[j].len == |cut[j]| && fresh(units[j].data)
    {
      NullFec.CutHead(data, es, ptr, i);
      var len := if dataLeft < es then dataLeft else es;
      var u := SourceUnit(data, es, ptr, len, i);
      ghost var was := units[..];
      units[i] := u;
      HoldsNext(was, units[..], k, Source(data, es), es / 2, i);
      ptr := ptr + len;
      dataLeft := dataLeft - len;
    }
  }

  /** The buffers the encoder reads. */
  function Buffers(units: seq<WordEntry>, k: nat): (r: seq<array<gf>>)
    requires k <= |units|
    ensures |r| == k
  {
    seq(k, i requires 0 <= i < k => units[i].data)
  }

  lemma SourceContents(units: seq<WordEntry>, k: nat, src: L.Matrix, w: nat)
    requires 1 <= k <= GF_SIZE + 1 && k <= |units| && L.IsMatrix(src, k, w) && HoldsSymbols(units, k, src, w, k)
    ensures forall p :: p in Buffers(units, k) ==> p.Length >= w
    ensures Contents(Buffers(units, k), w) == src
  {
    hide EncPacket;
    forall i | 0 <= i < k ensures Buffers(units, k)[i][..w] == src[i] {
      SourcePacket(k, src, w, i);
      assert units[i].data[..w] == units[i].data[..];
    }
  }

  /** One repair unit. */
  method RepairUnit(t: GfTables, code: FecParms, es: nat, units: seq<WordEntry>, index: nat, ghost src: L.Matrix)
    returns (u: WordEntry)
    requires t.Valid() && code.Valid() && code.k <= |units| && es % 2 == 0 && index < code.n
    requires L.IsMatrix(src, code.k, es / 2) && HoldsSymbols(units, code.k, src, es / 2, code.k)
    ensures HoldsSymbol(u, code.k, src, es / 2, index) && u.len == es && fresh(u.data)
  {
    hide EncPacket, GfTables.Valid, Kernels.At, Kernels.Rows, EncRow;
    var buffer := new gf[es / 2](_ => 0);
    SourceContents(units, code.k, src, es / 2);
    FecEncode(t, code, Buffers(units, code.k), buffer, index, es);
    assert buffer[..] == buffer[..es / 2];
    u := Entry(index, es, buffer);
  }

  /** The second loop: one repair unit per index from k on. */
  method RepairUnits(t: GfTables, code: FecParms, es: nat, units: array<WordEntry>, ghost src: L.Matrix)
    requires t.Valid() && code.Valid() && units.Length == code.n && es > 0 && es % 2 == 0
    requires L.IsMatrix(src, code.k, es / 2) && HoldsSymbols(units[..], code.k, src, es / 2, code.k)
    requires SeparateData(units[..], code.k)
    modifies units
    ensures HoldsSymbols(units[..], code.k, src, es / 2, code.n) && SeparateData(units[..], code.n)
    ensures forall i :: 0 <= i < code.k ==> units[i] == old(units[i])
    ensures forall i :: code.k <= i < code.n ==> units[i].len == es && fresh(units[i].data)
  {
    hide HoldsSymbol, GfTables.Valid, Kernels.At, Kernels.Rows, EncRow;
    ghost var given := units[..];
    var k := code.k;
    for i := 0 to code.n - k
      invariant HoldsSymbols(units[..], k, src, es / 2, k + i) && SeparateData(units[..], k + i)
      invariant forall j :: 0 <= j < k ==> units[j] == given[j]
      invariant forall j :: k <= j < k + i ==> units[j].len == es && fresh(units[j].data)
    {
      var u := RepairUnit(t, code, es, units[..], k + i, src);
      ghost var was := units[..];
      units[k + i] := u;
      HoldsNext(was, units[..], k, src, es / 2, k + i);
    }
  }

  /** max_n and n. */
  method Numbers(k: nat, maxK: nat, rs: nat) returns (maxN: nat, n: nat)
    requires maxK > 0
    ensures maxN == maxK * (100 + rs) / 100 && n == k * maxN / maxK >= k
    ensures 100 * maxN <= maxK * (100 + rs) < 100 * (maxN + 1)
    ensures n * maxK <= k * maxN < (n + 1) * maxK
  {
    EnoughSymbols(k, maxK, rs);
    maxN := maxK * (100 + rs) / 100;
    DivBounds(maxK * (100 + rs), 100);
    n := k * maxN / maxK;
    DivBounds(k * maxN, maxK);
  }

  lemma CutSize(data: Bytes, es: nat)
    requires es > 0 && data != []
    ensures (|Cut(data, es)| - 1) * es < |data| <= |Cut(data, es)| * es
  {
    CutSlice(data, es, |Cut(data, es)| - 1);
  }

  /** All n units of the block. */
  method EncodeUnits(t: GfTables, data: Bytes, es: nat, k: nat, n: nat) returns (units: array<WordEntry>)
    requires t.Valid() && data != [] && es > 0 && es % 2 == 0
    requires k == |Cut(data, es)| <= GF_SIZE && 1 <= k <= n <= GF_SIZE + 1
    ensures fresh(units) && units.Length == n
    ensures HoldsSymbols(units[..], k, Source(data, es), es / 2, n) && SeparateData(units[..], n)
    ensures forall i :: 0 <= i < n ==> fresh(units[i].data)
    ensures forall i :: 0 <= i < n ==> units[i].len == if i < k then |Cut(data, es)[i]| else es
  {
    hide EncPacket, GfTables.Valid, FecParms.Valid, Cut, Source, HoldsSymbols, SeparateData;
    var code := FecNew(t, k, n);
    units := new WordEntry[n];
    SourceUnits(data, es, units);
    RepairUnits(t, code.value, es, units, Source(data, es));
  }

  /** rs_fec_encode_src_block. */
  method EncodeSrcBlock(t: GfTables, data: Bytes, sbn: nat, es: nat, rs: nat, maxSbLen: nat) returns (b: RsBlock)
    requires t.Valid() && data != [] && es > 0 && es % 2 == 0 && maxSbLen > 0
    requires |Cut(data, es)| <= GF_SIZE
    requires |Cut(data, es)| * (maxSbLen * (100 + rs) / 100) / maxSbLen <= GF_SIZE + 1
    ensures b.sbn == sbn && b.k == |Cut(data, es)| >= 1 && b.maxK == maxSbLen
    ensures (b.k - 1) * es < |data| <= b.k * es
    ensures 100 * b.maxN <= maxSbLen * (100 + rs) < 100 * (b.maxN + 1)
    ensures b.n * b.maxK <= b.k * b.maxN < (b.n + 1) * b.maxK
    ensures b.n == b.units.Length >= b.k
    ensures fresh(b.units) && HoldsSymbols(b.units[..], b.k, Source(data, es), es / 2, b.n)
    ensures SeparateData(b.units[..], b.n)
    ensures forall i :: 0 <= i < b.n ==> fresh(b.units[i].data)
    ensures forall i :: 0 <= i < b.n ==> b.units[i].len == if i < b.k then |Cut(data, es)[i]| else es
  {
    hide GfTables.Valid, Cut, Source, HoldsSymbols, SeparateData, CeilDiv;
    CutCount(data, es);
    CutSome(data, es);
    CutSize(data, es);
    var k := CeilDiv(|data|, es);
    var maxN, n := Numbers(k, maxSbLen, rs);
    var units := EncodeUnits(t, data, es, k, n);
    b := RsBlock(sbn, k, n, maxSbLen, maxN, units);
  }

  lemma CutSome(data: Bytes, es: nat)
    requires es > 0 && data != []
    ensures |Cut(data, es)| >= 1
  {}

  // ----- decoding

  ghost function DataOf(s: seq<WordEntry>): (r: seq<array<gf>>)
    ensures |r| == |s|
  {
    seq(|s|, i requires 0 <= i < |s| => s[i].data)
  }

  ghost function EsisOf<D>(s: seq<Entry<D>>): (r: seq<nat>)
    ensures |r| == |s|
  {
    seq(|s|, i requires 0 <= i < |s| => s[i].esi)
  }

  /** The block is ready: k units with a symbol buffer each. */
  ghost predicate Ready(tb: TransBlock<array<gf>>, es: nat)
    reads tb, tb.units
  {
    tb.Valid() && |tb.units| == tb.k && SeparateBuffers(DataOf(tb.Entries()), es / 2)
  }

  /** The list as arrays of buffers and indices. */
  method CollectUnits(tb: TransBlock<array<gf>>, es: nat) returns (dst: array<array<gf>>, index: array<nat>)
    requires Ready(tb, es) && tb.k >= 1
    ensures fresh(dst) && fresh(index) && dst.Length == index.Length == tb.k
    ensures dst[..] == DataOf(tb.Entries()) && index[..] == EsisOf(tb.Entries())
    ensures SeparateBuffers(dst[..], es / 2)
  {
    var first := tb.unitList;
    dst := new array<gf>[tb.k](_ => first.data);
    index := new nat[tb.k](_ => 0);
    var at := 0;
    var nextTu := tb.unitList;
    while nextTu != null
      invariant at <= tb.k && nextTu == Neighbour(tb.units, at)
      invariant forall j :: 0 <= j < at ==> dst[j] == tb.units[j].data && index[j] == tb.units[j].esi
      decreases tb.k - at
    {
      var tu := nextTu;
      dst[at] := tu.data;
      index[at] := tu.esi;
      nextTu := tu.next;
      at := at + 1;
    }
  }

  /** The bytes of k packets, one after the other. */
  ghost function PacketBytes(m: L.Matrix): (r: Bytes)
  {
    if m == [] then [] else PacketBytes(m[..|m| - 1]) + Unpack(m[|m| - 1])
  }

  lemma {:induction false} PacketBytesLength(m: L.Matrix, w: nat)
    requires L.IsMatrix(m, |m|, w)
    ensures |PacketBytes(m)| == |m| * (2 * w)
  {
    if m != [] {
      PacketBytesLength(m[..|m| - 1], w);
      assert (|m| - 1) * (2 * w) + 2 * w == |m| * (2 * w);
    }
  }

  lemma PacketBytesNext(m: L.Matrix, i: nat)
    requires i < |m|
    ensures PacketBytes(m[..i + 1]) == PacketBytes(m[..i]) + Unpack(m[i])
  {
    assert m[..i + 1][..i] == m[..i];
  }

  /** Copy the decoded packets to the block buffer. */
  method CopyPackets(dst: array<array<gf>>, es: nat, k: nat) returns (buf: array<byte>)
    requires es % 2 == 0 && dst.Length == k && SeparateBuffers(dst[..], es / 2)
    ensures fresh(buf) && buf.Length == k * es + 1
    ensures buf[..k * es] == PacketBytes(Contents(dst[..], es / 2))
  {
    hide Unpack, PacketBytes, Kernels.At;
    ghost var m := Contents(dst[..], es / 2);
    PacketBytesStart(m);
    Kernels.AtNext(0, es);
    BlockSize(k, es);
    buf := new byte[k * es + 1](_ => 0);
    for i := 0 to k
      invariant Kernels.At(i, es) <= Kernels.At(k, es) && buf[..Kernels.At(i, es)] == PacketBytes(m[..i])
      invariant Contents(dst[..], es / 2) == m
    {
      PacketBytesNext(m, i);
      Kernels.AtNext(i, es);
      Kernels.AtBound(i, k, es);
      NullFec.CopyBytes(buf, Kernels.At(i, es), Unpack(dst[i][..es / 2]), es);
    }
    assert m[..k] == m;
  }

  lemma BlockSize(k: nat, es: nat)
    ensures Kernels.At(k, es) == k * es
  {}

  lemma PacketBytesStart(m: L.Matrix)
    ensures PacketBytes(m[..0]) == []
  {}

  /** The contents of the unit buffers. */
  ghost function Received(tb: TransBlock<array<gf>>, es: nat): (r: L.Matrix)
    requires Ready(tb, es)
    reads tb, tb.units, DataOf(tb.Entries())
    ensures L.IsMatrix(r, tb.k, es / 2)
  {
    Contents(DataOf(tb.Entries()), es / 2)
  }

  /** fec_decode on the units of a list, whatever it returns. */
  method DecodeUnits(t: GfTables, code: FecParms, tb: TransBlock<array<gf>>, es: nat) returns (dst: array<array<gf>>)
    requires t.Valid() && Ready(tb, es) && code.Valid() && code.k == tb.k
    modifies DataOf(tb.Entries())
    ensures fresh(dst) && dst.Length == code.k && SeparateBuffers(dst[..], es / 2)
    ensures DistinctIndices(EsisOf(tb.Entries()), code.n) ==>
              Reproduces(code.k, Contents(dst[..], es / 2), es / 2, EsisOf(tb.Entries()), old(Received(tb, es)))
  {
    hide GfTables.Valid, FecParms.Valid, DistinctIndices, Reproduces;
    CodeSize(code);
    var index;
    dst, index := CollectUnits(tb, es);
    var r := FecDecode(t, code, dst, index, es);
  }

  lemma CodeSize(code: FecParms)
    requires code.Valid()
    ensures 1 <= code.k <= code.n
  {}

  /** rs_fec_decode_src_block. The packets it puts together re-encode to what was received. */
  method DecodeSrcBlock(t: GfTables, tb: TransBlock<array<gf>>, es: nat)
    returns (buf: array<byte>, blockLen: nat, ghost n: nat, ghost decoded: L.Matrix)
    requires t.Valid() && Ready(tb, es) && tb.k >= 1 && es % 2 == 0 && tb.maxK > 0
    requires tb.maxK <= tb.maxN && tb.k * tb.maxN < (GF_SIZE + 2) * tb.maxK
    modifies DataOf(tb.Entries())
    ensures fresh(buf) && blockLen == tb.k * es && buf.Length == blockLen + 1
    ensures L.IsMatrix(decoded, tb.k, es / 2) && buf[..blockLen] == PacketBytes(decoded)
    ensures n * tb.maxK <= tb.k * tb.maxN < (n + 1) * tb.maxK
    ensures (forall i :: 0 <= i < tb.k ==> tb.units[i].esi < n) ==>
              Reproduces(tb.k, decoded, es / 2, EsisOf(tb.Entries()), old(Received(tb, es)))
  {
    hide GfTables.Valid, FecParms.Valid, DistinctIndices, Reproduces, PacketBytes;
    DivBounds(tb.k * tb.maxN, tb.maxK);
    MoreThan(tb.k, tb.maxK, tb.maxN);
    AtMost(tb.k * tb.maxN, tb.maxK, GF_SIZE + 1);
    var n' := tb.k * tb.maxN / tb.maxK;
    n := n';
    var code := FecNew(t, tb.k, n');
    ListDistinct(tb.Entries(), n');
    var dst := DecodeUnits(t, code.value, tb, es);
    decoded := Contents(dst[..], es / 2);
    buf := CopyPackets(dst, es, tb.k);
    blockLen := tb.k * es;
  }

  lemma ListDistinct<D>(s: seq<Entry<D>>, n: nat)
    requires Sorted(s)
    ensures DistinctIndices(EsisOf(s), n) <==> forall i :: 0 <= i < |s| ==> s[i].esi < n
  {
    if DistinctIndices(EsisOf(s), n) {
      forall i | 0 <= i < |s| ensures s[i].esi < n {
        assert EsisOf(s)[i] < n;
      }
    }
  }

  // ----- round trip

  lemma UnpackSource(data: Bytes, es: nat, i: nat)
    requires es > 0 && es % 2 == 0 && i < |Cut(data, es)|
    ensures |Cut(data, es)[i]| <= es
    ensures Unpack(Source(data, es)[i]) == Padded(Cut(data, es)[i], es)
  {
    CutLengths(data, es, i);
    UnpackPack(Padded(Cut(data, es)[i], es));
  }

  /** All symbols but the last fill their packet. */
  lemma {:induction false} FullPackets(data: Bytes, es: nat, i: nat)
    requires es > 0 && es % 2 == 0 && i < |Cut(data, es)|
    ensures PacketBytes(Source(data, es)[..i]) == Flatten(Cut(data, es)[..i])
  {
    hide Unpack, Cut, Source;
    var cut := Cut(data, es);
    if i > 0 {
      FullPackets(data, es, i - 1);
      PacketBytesNext(Source(data, es), i - 1);
      UnpackSource(data, es, i - 1);
      CutLengths(data, es, i - 1);
      assert Padded(cut[i - 1], es) == cut[i - 1];
      assert cut[..i] == cut[..i - 1] + [cut[i - 1]];
      FlattenAppend(cut[..i - 1], [cut[i - 1]]);
      FlattenOne(cut[i - 1]);
      hide PacketBytes, Flatten;
    }
  }

  lemma FlattenOne(s: Bytes)
    ensures Flatten([s]) == s
  {}

  lemma SourceSize(data: Bytes, es: nat)
    requires es > 0 && es % 2 == 0
    ensures |PacketBytes(Source(data, es))| == |Cut(data, es)| * es
  {
    PacketBytesLength(Source(data, es), es / 2);
    assert 2 * (es / 2) == es;
  }

  /** The last packet is padded with zeros. */
  lemma LastPacket(data: Bytes, es: nat)
    requires es > 0 && es % 2 == 0 && data != []
    ensures exists pad: nat :: PacketBytes(Source(data, es)) == data + Symbols.Zeros(pad)
  {
    hide Unpack, Cut, Source, PacketBytes, Flatten;
    CutSome(data, es);
    FlattenCut(data, es);
    var cut, m, k := Cut(data, es), Source(data, es), |Cut(data, es)|;
    FullPackets(data, es, k - 1);
    UnpackSource(data, es, k - 1);
    var last := cut[k - 1];
    PacketBytesNext(m, k - 1);
    assert m[..k] == m && cut == cut[..k - 1] + [last];
    FlattenAppend(cut[..k - 1], [last]);
    FlattenOne(last);
    assert PacketBytes(m) == data + Symbols.Zeros(es - |last|);
  }

  /** The packets of a block are its bytes, zero-padded to whole symbols. */
  lemma SourceBytes(data: Bytes, es: nat)
    requires es > 0 && es % 2 == 0 && data != []
    ensures |Cut(data, es)| * es >= |data|
    ensures PacketBytes(Source(data, es)) == data + Symbols.Zeros(|Cut(data, es)| * es - |data|)
  {
    SourceSize(data, es);
    LastPacket(data, es);
  }

  /** Round trip. Let units of the block arrive in any order, some of them again, until the
      list holds k, whichever k of the n indices they are; if the buffers still hold what
      the encoder put there, then what the decoder puts together is the data, zero-padded
      to k * es bytes. */
  lemma RoundTrip(data: Bytes, es: nat, n: nat, arrivals: seq<WordEntry>, len: nat, received: L.Matrix, decoded: L.Matrix)
    requires es > 0 && es % 2 == 0 && data != [] && |Cut(data, es)| <= n <= GF_SIZE + 1
    requires forall i :: 0 <= i < |arrivals| ==> arrivals[i].esi < n
    requires |ReceiveAll(arrivals, len).list| == |Cut(data, es)|
    requires L.IsMatrix(received, |Cut(data, es)|, es / 2) && L.IsMatrix(decoded, |Cut(data, es)|, es / 2)
    requires HoldEncodings(received, EsisOf(ReceiveAll(arrivals, len).list), data, es)
    requires Reproduces(|Cut(data, es)|, decoded, es / 2, EsisOf(ReceiveAll(arrivals, len).list), received)
    ensures decoded == Source(data, es)
    ensures |Cut(data, es)| * es >= |data|
    ensures PacketBytes(decoded) == data + Symbols.Zeros(|Cut(data, es)| * es - |data|)
  {
    var list, k := ReceiveAll(arrivals, len).list, |Cut(data, es)|;
    CutSome(data, es);
    SourceBytes(data, es);
    ReceivedBelow(arrivals, len, n);
    ListDistinct(list, n);
    hide EncPacket, Cut, Source, PacketBytes, DistinctIndices, ReceiveAll, Reproduces;
    DecodedIsSource(k, es / 2, n, Source(data, es), decoded, EsisOf(list), received);
  }

  /** Row i of the matrix is the encoding symbol of the block with index esis[i]. */
  ghost predicate HoldEncodings(received: L.Matrix, esis: seq<nat>, data: Bytes, es: nat)
    requires es > 0 && es % 2 == 0 && data != [] && |received| == |esis|
  {
    forall i :: 0 <= i < |esis| ==> received[i] == EncPacket(|Cut(data, es)|, Source(data, es), es / 2, esis[i])
  }

  lemma ReceivedBelow(arrivals: seq<WordEntry>, len: nat, n: nat)
    requires forall i :: 0 <= i < |arrivals| ==> arrivals[i].esi < n
    ensures var list := ReceiveAll(arrivals, len).list; Sorted(list) && forall i :: 0 <= i < |list| ==> list[i].esi < n
  {
    ReceiverInvariant(arrivals, len);
    var list := ReceiveAll(arrivals, len).list;
    hide ReceiveAll;
    forall i | 0 <= i < |list| ensures list[i].esi < n {
      assert FirstArrival(arrivals, list[i]);
    }
  }
}
