/** The unit list of a source block: insert_unit keeps received encoding symbols in a
    doubly linked list ordered by esi and drops duplicates. */
module Transport {
  import opened Symbols

  /** struct trans_unit; D is what the data pointer refers to. */
  class TransUnit<D> {
    var prev: TransUnit?<D>
    var next: TransUnit?<D>
    // set when the unit is filled, before it is inserted
    const esi: nat
    const len: nat
    const data: D

    constructor (esi: nat, len: nat, data: D)
      ensures prev == null && next == null && this.esi == esi && this.len == len && this.data == data
    {
      prev, next := null, null;
      this.esi, this.len, this.data := esi, len, data;
    }
  }

  /** The payload of a unit as a value. */
  datatype Entry<D> = Entry(esi: nat, len: nat, data: D)

  ghost function EntryOf<D>(u: TransUnit<D>): Entry<D> {
    Entry(u.esi, u.len, u.data)
  }

  ghost predicate Sorted<D>(s: seq<Entry<D>>) {
    forall i, j :: 0 <= i < j < |s| ==> s[i].esi < s[j].esi
  }

  ghost predicate HasEsi<D>(s: seq<Entry<D>>, esi: nat) {
    exists i :: 0 <= i < |s| && s[i].esi == esi
  }

  /** Sorted insertion that ignores duplicates. */
  function InsertEntry<D>(s: seq<Entry<D>>, e: Entry<D>): seq<Entry<D>> {
    if s == [] then [e]
    else if e.esi < s[0].esi then [e] + s
    else if e.esi == s[0].esi then s
    else [s[0]] + InsertEntry(s[1..], e)
  }

  /** struct trans_obj, as far as insert_unit touches it. */
  class TransObj {
    var len: nat
    var rxBytes: nat

    constructor (len: nat)
      ensures this.len == len && rxBytes == 0
    {
      this.len, rxBytes := len, 0;
    }
  }

  /** The unit at position i, or null outside the list. */
  ghost function Neighbour<D>(units: seq<TransUnit<D>>, i: int): TransUnit?<D> {
    if 0 <= i < |units| then units[i] else null
  }

  ghost predicate Linked<D>(units: seq<TransUnit<D>>)
    reads units
  {
    && (forall i {:trigger units[i].prev} :: 0 <= i < |units| ==> units[i].prev == Neighbour(units, i - 1))
    && (forall i {:trigger units[i].next} :: 0 <= i < |units| ==> units[i].next == Neighbour(units, i + 1))
  }

  ghost predicate Ordered<D>(units: seq<TransUnit<D>>) {
    forall i, j :: 0 <= i < j < |units| ==> units[i].esi < units[j].esi
  }

  ghost function EntriesOf<D>(units: seq<TransUnit<D>>): (r: seq<Entry<D>>)
    ensures |r| == |units|
  {
    seq(|units|, i requires 0 <= i < |units| => EntryOf(units[i]))
  }

  /** struct trans_block. */
  class TransBlock<D> {
    var sbn: nat
    var k: nat
    var n: nat
    var maxK: nat
    var maxN: nat
    var nbOfRxUnits: nat
    var unitList: TransUnit?<D>
    ghost var units: seq<TransUnit<D>>

    constructor (k: nat)
      ensures Valid() && units == [] && this.k == k
    {
      sbn, this.k, n, maxK, maxN, nbOfRxUnits, unitList := 0, k, 0, 0, 0, 0, null;
      units := [];
    }

    /** The list is properly linked, strictly ordered and counted. */
    ghost predicate Valid()
      reads this, units
    {
      && nbOfRxUnits == |units|
      && unitList == Neighbour(units, 0)
      && Ordered(units) && Linked(units)
    }

    ghost function Entries(): (r: seq<Entry<D>>)
      reads this
      ensures |r| == |units|
    {
      EntriesOf(units)
    }
  }

  ghost function Inserted<T>(s: seq<T>, x: T, p: nat): (r: seq<T>)
    requires p <= |s|
    ensures |r| == |s| + 1
    ensures forall i :: 0 <= i < |r| ==> r[i] == if i < p then s[i] else if i == p then x else s[i - 1]
  {
    s[..p] + [x] + s[p..]
  }

  lemma {:induction false} InsertAt<D>(s: seq<Entry<D>>, e: Entry<D>, p: nat)
    requires Sorted(s) && p <= |s|
    requires forall i :: 0 <= i < p ==> s[i].esi < e.esi
    requires p < |s| ==> e.esi < s[p].esi
    ensures InsertEntry(s, e) == Inserted(s, e, p) && !HasEsi(s, e.esi)
  {
    if p > 0 {
      InsertAt(s[1..], e, p - 1);
      assert Inserted(s, e, p) == [s[0]] + Inserted(s[1..], e, p - 1);
    } else {
      assert Inserted(s, e, 0) == [e] + s;
    }
  }

  lemma {:induction false} InsertDuplicate<D>(s: seq<Entry<D>>, e: Entry<D>, p: nat)
    requires Sorted(s) && p < |s| && s[p].esi == e.esi
    ensures InsertEntry(s, e) == s && HasEsi(s, e.esi)
  {
    if p > 0 {
      InsertDuplicate(s[1..], e, p - 1);
      assert s[0].esi < s[p].esi;
    }
  }

  /** Position p is where a unit with this esi belongs. */
  ghost predicate BelongsAt<D>(units: seq<TransUnit<D>>, esi: nat, p: nat) {
    && p <= |units|
    && (forall i :: 0 <= i < p ==> units[i].esi < esi)
    && (forall i :: p <= i < |units| ==> esi < units[i].esi)
  }

  lemma OrderedInserted<D>(units: seq<TransUnit<D>>, tu: TransUnit<D>, p: nat)
    requires Ordered(units) && BelongsAt(units, tu.esi, p)
    ensures Ordered(Inserted(units, tu, p))
  {
    var r := Inserted(units, tu, p);
    hide Inserted;
    forall i, j | 0 <= i < j < |r| ensures r[i].esi < r[j].esi {
      assert r[i] == if i < p then units[i] else if i == p then tu else units[i - 1];
      assert r[j] == if j < p then units[j] else if j == p then tu else units[j - 1];
    }
  }

  /** The links after relinking around position p. */
  lemma LinkedInserted<D>(units: seq<TransUnit<D>>, tu: TransUnit<D>, p: nat)
    requires p <= |units|
    requires tu.prev == Neighbour(units, p - 1) && tu.next == Neighbour(units, p)
    requires forall i {:trigger units[i].prev} :: 0 <= i < |units| ==> units[i].prev == if i == p then tu else Neighbour(units, i - 1)
    requires forall i {:trigger units[i].next} :: 0 <= i < |units| ==> units[i].next == if i == p - 1 then tu else Neighbour(units, i + 1)
    ensures Linked(Inserted(units, tu, p))
  {
    var r := Inserted(units, tu, p);
    hide Inserted;
    forall i | 0 <= i < |r| ensures r[i].prev == Neighbour(r, i - 1) && r[i].next == Neighbour(r, i + 1) {
      assert r[i] == if i < p then units[i] else if i == p then tu else units[i - 1];
      assert i > 0 ==> r[i - 1] == if i - 1 < p then units[i - 1] else if i - 1 == p then tu else units[i - 2];
      assert i + 1 < |r| ==> r[i + 1] == if i + 1 < p then units[i + 1] else if i + 1 == p then tu else units[i];
    }
  }

  /** Relink tmp, the unit at position p, and its predecessor so that tu comes before tmp. */
  method LinkBefore<D>(tu: TransUnit<D>, tmp: TransUnit<D>, tb: TransBlock<D>, ghost units: seq<TransUnit<D>>, ghost p: nat)
    requires Linked(units) && Ordered(units) && tu !in units && p < |units| && tmp == units[p]
    requires tb.unitList == units[0]
    modifies tu, tb`unitList, units
    ensures tb.unitList == if p == 0 then tu else units[0]
    ensures tu.prev == Neighbour(units, p - 1) && tu.next == Neighbour(units, p)
    ensures forall i {:trigger units[i].prev} :: 0 <= i < |units| ==> units[i].prev == if i == p then tu else Neighbour(units, i - 1)
    ensures forall i {:trigger units[i].next} :: 0 <= i < |units| ==> units[i].next == if i == p - 1 then tu else Neighbour(units, i + 1)
  {
    tu.next := tmp;
    tu.prev := tmp.prev;
    if tmp.prev == null {
      tmp.prev := tu;
      tb.unitList := tu;
    } else {
      tmp.prev.next := tu;
      tmp.prev := tu;
    }
  }

  /** Link tu after tmp, the last unit. */
  method LinkLast<D>(tu: TransUnit<D>, tmp: TransUnit<D>, ghost units: seq<TransUnit<D>>)
    requires Linked(units) && Ordered(units) && tu !in units && units != [] && tmp == units[|units| - 1]
    modifies tu, units
    ensures tu.prev == tmp && tu.next == null
    ensures forall i {:trigger units[i].prev} :: 0 <= i < |units| ==> units[i].prev == Neighbour(units, i - 1)
    ensures forall i {:trigger units[i].next} :: 0 <= i < |units| ==> units[i].next == if i == |units| - 1 then tu else Neighbour(units, i + 1)
  {
    tu.next := tmp.next;
    tu.prev := tmp;
    tmp.next := tu;
  }

  /** The two linking cases of insert_unit behind a non-empty list. */
  method Link<D>(tu: TransUnit<D>, tmp: TransUnit<D>, tb: TransBlock<D>, ghost p: nat)
    requires tb.Valid() && tu !in tb.units && |tb.units| > 0 && BelongsAt(tb.units, tu.esi, p)
    requires tmp == tb.units[if p < |tb.units| then p else p - 1]
    modifies tu, tb`unitList, tb.units
    ensures tb.unitList == Inserted(tb.units, tu, p)[0]
    ensures Linked(Inserted(tb.units, tu, p)) && Ordered(Inserted(tb.units, tu, p))
  {
    hide Ordered, Linked;
    ghost var units := tb.units;
    if tu.esi < tmp.esi {
      LinkBefore(tu, tmp, tb, units, p);
    } else {
      LinkLast(tu, tmp, units);
    }
    LinkedInserted(units, tu, p);
    OrderedInserted(units, tu, p);
  }

  lemma EntriesInserted<D>(units: seq<TransUnit<D>>, tu: TransUnit<D>, p: nat)
    requires p <= |units|
    ensures EntriesOf(Inserted(units, tu, p)) == Inserted(EntriesOf(units), EntryOf(tu), p)
  {}

  method AddBytes<D>(tu: TransUnit<D>, to: TransObj)
    modifies to
    ensures to.len == old(to.len) && to.rxBytes == Min(old(to.len), old(to.rxBytes) + tu.len)
  {
    to.rxBytes := to.rxBytes + tu.len;
    if to.rxBytes > to.len {
      to.rxBytes := to.len;
    }
  }

  /** Accept tu at position p of a non-empty list. */
  method Accept<D>(tu: TransUnit<D>, tmp: TransUnit<D>, tb: TransBlock<D>, to: TransObj, ghost p: nat)
    requires tb.Valid() && tu !in tb.units && |tb.units| > 0 && BelongsAt(tb.units, tu.esi, p)
    requires tmp == tb.units[if p < |tb.units| then p else p - 1]
    modifies tu, tb`nbOfRxUnits, tb`unitList, tb`units, tb.units, to
    ensures tb.Valid() && tb.units == Inserted(old(tb.units), tu, p)
    ensures tb.Entries() == Inserted(old(tb.Entries()), EntryOf(tu), p)
    ensures to.len == old(to.len) && to.rxBytes == Min(old(to.len), old(to.rxBytes) + tu.len)
  {
    hide Ordered, Linked;
    ghost var units, entries := tb.units, tb.Entries();
    AddBytes(tu, to);
    Link(tu, tmp, tb, p);
    assert EntriesOf(units) == entries;
    EntriesInserted(units, tu, p);
    tb.nbOfRxUnits := tb.nbOfRxUnits + 1;
    tb.units := Inserted(units, tu, p);
  }

  /** The first unit of a block. */
  method AcceptFirst<D>(tu: TransUnit<D>, tb: TransBlock<D>, to: TransObj)
    requires tb.Valid() && tb.units == [] && tu.prev == null && tu.next == null
    modifies tb`nbOfRxUnits, tb`unitList, tb`units, to
    ensures tb.Valid() && tb.units == [tu]
    ensures tb.Entries() == InsertEntry([], EntryOf(tu))
    ensures to.len == old(to.len) && to.rxBytes == Min(old(to.len), old(to.rxBytes) + tu.len)
  {
    AddBytes(tu, to);
    tb.nbOfRxUnits := tb.nbOfRxUnits + 1;
    tb.unitList := tu;
    tb.units := [tu];
  }

  lemma PlaceOfUnit<D>(units: seq<TransUnit<D>>, tu: TransUnit<D>, p: nat)
    requires Ordered(units) && p <= |units| && (forall i :: 0 <= i < p ==> units[i].esi < tu.esi)
    requires p < |units| ==> tu.esi < units[p].esi
    ensures BelongsAt(units, tu.esi, p)
    ensures InsertEntry(EntriesOf(units), EntryOf(tu)) == Inserted(EntriesOf(units), EntryOf(tu), p)
    ensures !HasEsi(EntriesOf(units), tu.esi)
  {
    InsertAt(EntriesOf(units), EntryOf(tu), p);
  }

  /** insert_unit: 1 for a duplicate, which leaves everything as it was; 0 otherwise. */
  method InsertUnit<D>(tu: TransUnit<D>, tb: TransBlock<D>, to: TransObj) returns (retval: int)
    requires tb.Valid() && tu !in tb.units && tu.prev == null && tu.next == null
    modifies tu, tb`nbOfRxUnits, tb`unitList, tb`units, tb.units, to
    ensures tb.Valid()
    ensures tb.Entries() == InsertEntry(old(tb.Entries()), EntryOf(tu))
    ensures retval == if HasEsi(old(tb.Entries()), tu.esi) then 1 else 0
    ensures to.len == old(to.len)
    ensures retval == 1 ==> to.rxBytes == old(to.rxBytes) && tb.units == old(tb.units)
    ensures retval == 0 ==> to.rxBytes == Min(old(to.len), old(to.rxBytes) + tu.len)
    ensures forall u :: u in tb.units ==> u in old(tb.units) || u == tu
  {
    hide InsertEntry, EntriesOf, BelongsAt, EntryOf;
    retval := 0;
    var tmp := tb.unitList;
    if tmp == null {
      NothingThere(tb.units, tu.esi);
      AcceptFirst(tu, tb, to);
      return;
    }
    hide HasEsi, Inserted;
    ghost var p := 0;
    while true
      invariant p < |tb.units| && tmp == tb.units[p]
      invariant forall i :: 0 <= i < p ==> tb.units[i].esi < tu.esi
      decreases |tb.units| - p
    {
      if tu.esi < tmp.esi {
        PlaceOfUnit(tb.units, tu, p);
        Accept(tu, tmp, tb, to, p);
        return;
      } else if tu.esi == tmp.esi {
        DuplicateUnit(tb.units, tu, p);
        return 1;
      }
      if tmp.next == null {
        PlaceOfUnit(tb.units, tu, p + 1);
        Accept(tu, tmp, tb, to, p + 1);
        return;
      }
      tmp := tmp.next;
      p := p + 1;
    }
  }

  lemma NothingThere<D>(units: seq<TransUnit<D>>, esi: nat)
    requires units == []
    ensures EntriesOf(units) == [] && !HasEsi(EntriesOf(units), esi)
  {}

  lemma DuplicateUnit<D>(units: seq<TransUnit<D>>, tu: TransUnit<D>, p: nat)
    requires Ordered(units) && p < |units| && units[p].esi == tu.esi
    ensures InsertEntry(EntriesOf(units), EntryOf(tu)) == EntriesOf(units) && HasEsi(EntriesOf(units), tu.esi)
  {
    InsertDuplicate(EntriesOf(units), EntryOf(tu), p);
  }

  // ----- whole runs

  ghost function SumLens<D>(s: seq<Entry<D>>): nat {
    if s == [] then 0 else s[0].len + SumLens(s[1..])
  }

  /** The list and the byte counter of a receiver. */
  datatype Receiver<D> = Receiver(list: seq<Entry<D>>, rxBytes: nat)

  /** One call of insert_unit, as InsertUnit specifies it. */
  ghost function Receive<D>(r: Receiver<D>, e: Entry<D>, len: nat): Receiver<D> {
    if HasEsi(r.list, e.esi) then r else Receiver(InsertEntry(r.list, e), Min(len, r.rxBytes + e.len))
  }

  ghost function ReceiveAll<D>(arrivals: seq<Entry<D>>, len: nat): Receiver<D> {
    if arrivals == [] then Receiver([], 0)
    else Receive(ReceiveAll(arrivals[..|arrivals| - 1], len), arrivals[|arrivals| - 1], len)
  }

  lemma {:induction false} InsertEntryFacts<D>(s: seq<Entry<D>>, e: Entry<D>)
    requires Sorted(s)
    ensures Sorted(InsertEntry(s, e))
    ensures HasEsi(s, e.esi) ==> InsertEntry(s, e) == s
    ensures !HasEsi(s, e.esi) ==> forall x :: x in InsertEntry(s, e) <==> x in s || x == e
    ensures !HasEsi(s, e.esi) ==> SumLens(InsertEntry(s, e)) == SumLens(s) + e.len
    ensures !HasEsi(s, e.esi) ==> |InsertEntry(s, e)| == |s| + 1
  {
    var p := Place(s, e.esi);
    hide InsertEntry, SumLens;
    if p < |s| && s[p].esi == e.esi {
      InsertDuplicate(s, e, p);
    } else {
      InsertAt(s, e, p);
      SumLensInserted(s, e, p);
      InsertedFacts(s, e, p);
    }
  }

  lemma InsertEntryMember<D>(s: seq<Entry<D>>, e: Entry<D>, x: Entry<D>)
    requires Sorted(s)
    ensures x in InsertEntry(s, e) <==> x in s || (x == e && !HasEsi(s, e.esi))
  {
    InsertEntryFacts(s, e);
    hide InsertEntry, Sorted, SumLens;
  }

  lemma InsertedFacts<D>(s: seq<Entry<D>>, e: Entry<D>, p: nat)
    requires Sorted(s) && p <= |s| && (forall i :: 0 <= i < p ==> s[i].esi < e.esi) && (p < |s| ==> e.esi < s[p].esi)
    ensures Sorted(Inserted(s, e, p))
    ensures forall x :: x in Inserted(s, e, p) <==> x in s || x == e
  {
    assert forall i :: p <= i < |s| ==> e.esi < s[i].esi;
    assert Inserted(s, e, p)[p] == e;
  }

  /** The first position whose esi is not below the given one. */
  lemma {:induction false} Place<D>(s: seq<Entry<D>>, esi: nat) returns (p: nat)
    requires Sorted(s)
    ensures p <= |s| && (forall i :: 0 <= i < p ==> s[i].esi < esi) && (p < |s| ==> esi <= s[p].esi)
  {
    p := 0;
    while p < |s| && s[p].esi < esi
      invariant p <= |s| && forall i :: 0 <= i < p ==> s[i].esi < esi
    {
      p := p + 1;
    }
  }

  lemma {:induction false} SumLensInserted<D>(s: seq<Entry<D>>, e: Entry<D>, p: nat)
    requires p <= |s|
    ensures SumLens(Inserted(s, e, p)) == SumLens(s) + e.len
  {
    if p == 0 {
      assert Inserted(s, e, 0) == [e] + s;
    } else {
      SumLensInserted(s[1..], e, p - 1);
      assert Inserted(s, e, p) == [s[0]] + Inserted(s[1..], e, p - 1);
    }
  }

  /** e is the first arrival with its esi. */
  ghost predicate FirstArrival<D>(arrivals: seq<Entry<D>>, e: Entry<D>) {
    exists i :: 0 <= i < |arrivals| && arrivals[i] == e && forall j :: 0 <= j < i ==> arrivals[j].esi != e.esi
  }

  /** list is sorted and holds exactly the first arrival of every esi. */
  ghost predicate HoldsFirst<D>(list: seq<Entry<D>>, arrivals: seq<Entry<D>>) {
    && Sorted(list)
    && (forall i :: 0 <= i < |list| ==> FirstArrival(arrivals, list[i]))
    && (forall i :: 0 <= i < |arrivals| ==> HasEsi(list, arrivals[i].esi))
  }

  /** After any arrivals the list is sorted and holds exactly the first arrival of every
      esi, and rx_bytes is the accepted total capped at the object length. */
  lemma {:induction false} ReceiverInvariant<D>(arrivals: seq<Entry<D>>, len: nat)
    ensures var r := ReceiveAll(arrivals, len);
            HoldsFirst(r.list, arrivals) && r.rxBytes == Min(len, SumLens(r.list))
  {
    if arrivals != [] {
      var rest, x := arrivals[..|arrivals| - 1], arrivals[|arrivals| - 1];
      ReceiverInvariant(rest, len);
      var r := ReceiveAll(rest, len);
      assert rest + [x] == arrivals;
      HoldsFirstStep(r.list, rest, x);
      assert Sorted(r.list);
      hide HoldsFirst, SumLens, InsertEntry, HasEsi;
      InsertEntryFacts(r.list, x);
    }
  }

  lemma HoldsFirstStep<D>(list: seq<Entry<D>>, rest: seq<Entry<D>>, x: Entry<D>)
    requires HoldsFirst(list, rest)
    ensures HoldsFirst(InsertEntry(list, x), rest + [x])
  {
    InsertEntryFacts(list, x);
    ListsFirst(list, rest, x);
    ListsAll(list, rest, x);
  }

  lemma ListsFirst<D>(list: seq<Entry<D>>, rest: seq<Entry<D>>, x: Entry<D>)
    requires HoldsFirst(list, rest)
    ensures forall i :: 0 <= i < |InsertEntry(list, x)| ==> FirstArrival(rest + [x], InsertEntry(list, x)[i])
  {
    InsertEntryFacts(list, x);
    var list' := InsertEntry(list, x);
    hide InsertEntry, SumLens, HasEsi, Sorted, HoldsFirst, FirstArrival;
    forall i | 0 <= i < |list'| ensures FirstArrival(rest + [x], list'[i]) {
      var e := list'[i];
      assert e in list';
      InsertEntryMember(list, x, e);
      ListedFirst(list, rest, x, e);
    }
  }

  lemma ListsAll<D>(list: seq<Entry<D>>, rest: seq<Entry<D>>, x: Entry<D>)
    requires HoldsFirst(list, rest)
    ensures forall i :: 0 <= i < |rest + [x]| ==> HasEsi(InsertEntry(list, x), (rest + [x])[i].esi)
  {
    HasEsiStep(list, x);
    var s := rest + [x];
    hide InsertEntry, HasEsi, Sorted, FirstArrival;
    forall i | 0 <= i < |s| ensures HasEsi(InsertEntry(list, x), s[i].esi) {
      if i < |rest| {
        assert HasEsi(list, rest[i].esi);
      }
    }
  }

  lemma ListedFirst<D>(list: seq<Entry<D>>, rest: seq<Entry<D>>, x: Entry<D>, e: Entry<D>)
    requires HoldsFirst(list, rest) && (e in list || (e == x && !HasEsi(list, x.esi)))
    ensures FirstArrival(rest + [x], e)
  {
    FirstArrivalOf(rest, x, e);
    ArrivedBefore(list, rest, x.esi);
    hide HasEsi, Sorted;
    if e in list {
      var j :| 0 <= j < |list| && list[j] == e;
      assert FirstArrival(rest, list[j]);
    }
  }

  lemma FirstArrivalOf<D>(rest: seq<Entry<D>>, x: Entry<D>, e: Entry<D>)
    ensures FirstArrival(rest + [x], e) <==> FirstArrival(rest, e) || (e == x && !HasEsi(rest, x.esi))
  {
    var s := rest + [x];
    if FirstArrival(rest, e) {
      var i :| 0 <= i < |rest| && rest[i] == e && forall j :: 0 <= j < i ==> rest[j].esi != e.esi;
      assert s[i] == e && forall j :: 0 <= j < i ==> s[j].esi != e.esi;
    } else if e == x && !HasEsi(rest, x.esi) {
      assert s[|rest|] == e && forall j :: 0 <= j < |rest| ==> s[j].esi != e.esi;
    }
    if FirstArrival(s, e) {
      var i :| 0 <= i < |s| && s[i] == e && forall j :: 0 <= j < i ==> s[j].esi != e.esi;
      if i < |rest| {
        assert rest[i] == e && forall j :: 0 <= j < i ==> rest[j] == s[j];
      } else {
        assert forall j :: 0 <= j < |rest| ==> rest[j] == s[j];
      }
    }
  }

  lemma ArrivedBefore<D>(list: seq<Entry<D>>, rest: seq<Entry<D>>, esi: nat)
    requires HoldsFirst(list, rest)
    ensures HasEsi(list, esi) <==> HasEsi(rest, esi)
  {
    if HasEsi(list, esi) {
      var i :| 0 <= i < |list| && list[i].esi == esi;
      assert FirstArrival(rest, list[i]);
    }
    if HasEsi(rest, esi) {
      var i :| 0 <= i < |rest| && rest[i].esi == esi;
      assert HasEsi(list, rest[i].esi);
    }
  }

  lemma HasEsiStep<D>(s: seq<Entry<D>>, x: Entry<D>)
    requires Sorted(s)
    ensures forall n :: HasEsi(s, n) ==> HasEsi(InsertEntry(s, x), n)
    ensures HasEsi(InsertEntry(s, x), x.esi)
  {
    InsertEntryFacts(s, x);
    hide InsertEntry;
    var s' := InsertEntry(s, x);
    forall n | HasEsi(s, n) ensures HasEsi(s', n) {
      var i :| 0 <= i < |s| && s[i].esi == n;
      assert s[i] in s';
    }
    if !HasEsi(s, x.esi) {
      assert x in s';
    }
  }

  /** Sorted lists with the same entries are the same. */
  lemma {:induction false} SortedUnique<D>(a: seq<Entry<D>>, b: seq<Entry<D>>)
    requires Sorted(a) && Sorted(b) && forall e :: e in a <==> e in b
    ensures a == b
  {
    SameHead(a, b);
    if a != [] {
      assert |b| > 0;
      forall e ensures e in a[1..] <==> e in b[1..] {
        TailMember(a, e);
        TailMember(b, e);
      }
      SortedUnique(a[1..], b[1..]);
    }
  }

  lemma TailMember<D>(s: seq<Entry<D>>, e: Entry<D>)
    requires Sorted(s) && s != []
    ensures e in s[1..] <==> e in s && e != s[0]
  {}

  lemma SameHead<D>(a: seq<Entry<D>>, b: seq<Entry<D>>)
    requires Sorted(a) && Sorted(b) && forall e :: e in a <==> e in b
    ensures a == [] <==> b == []
    ensures a != [] ==> b != [] && a[0] == b[0]
  {
    assert a != [] ==> a[0] in a;
    assert b != [] ==> b[0] in b;
  }

  lemma SameEsiSameEntry<D>(s: seq<Entry<D>>, a: Entry<D>, b: Entry<D>)
    requires Sorted(s) && a in s && b in s && a.esi == b.esi
    ensures a == b
  {
    var i :| 0 <= i < |s| && s[i] == a;
    var j :| 0 <= j < |s| && s[j] == b;
    assert i == j;
  }

  lemma ListedIffSent<D>(s: seq<Entry<D>>, arrivals: seq<Entry<D>>, list: seq<Entry<D>>, e: Entry<D>)
    requires Sorted(s) && HoldsFirst(list, arrivals) && forall x :: x in arrivals <==> x in s
    ensures e in list <==> e in s
  {
    if e in list {
      var i :| 0 <= i < |list| && list[i] == e;
      assert FirstArrival(arrivals, list[i]);
      assert e in arrivals;
    }
    if e in s {
      assert e in arrivals;
      var i :| 0 <= i < |arrivals| && arrivals[i] == e;
      assert HasEsi(list, arrivals[i].esi);
      var j :| 0 <= j < |list| && list[j].esi == e.esi;
      assert FirstArrival(arrivals, list[j]);
      assert list[j] in arrivals;
      SameEsiSameEntry(s, list[j], e);
    }
  }

  /** Whatever the order and the duplicates, the list ends up as the sorted list of what was
      sent. */
  lemma ReceivesAnyOrder<D>(s: seq<Entry<D>>, arrivals: seq<Entry<D>>, len: nat)
    requires Sorted(s) && forall e :: e in arrivals <==> e in s
    ensures ReceiveAll(arrivals, len) == Receiver(s, Min(len, SumLens(s)))
  {
    ReceiverInvariant(arrivals, len);
    var list := ReceiveAll(arrivals, len).list;
    hide ReceiveAll, HoldsFirst;
    forall e ensures e in list <==> e in s {
      ListedIffSent(s, arrivals, list, e);
    }
    assert Sorted(list) by { ListSorted(list, arrivals); }
    SortedUnique(list, s);
  }

  lemma ListSorted<D>(list: seq<Entry<D>>, arrivals: seq<Entry<D>>)
    requires HoldsFirst(list, arrivals)
    ensures Sorted(list)
  {}

  // ----- until the block is ready

  /** block_ready_to_decode for packets that carry one symbol. */
  method BlockReadyToDecode<D>(tb: TransBlock<D>) returns (ready: bool)
    requires tb.Valid()
    ensures ready <==> |tb.Entries()| == tb.k || |tb.Entries()| == tb.maxK
  {
    ready := tb.nbOfRxUnits == tb.k || tb.nbOfRxUnits == tb.maxK;
  }

  /** A block that is ready takes no more units. */
  ghost function OfferAll<D>(arrivals: seq<Entry<D>>, len: nat, k: nat, maxK: nat): Receiver<D> {
    if arrivals == [] then Receiver([], 0)
    else
      var r := OfferAll(arrivals[..|arrivals| - 1], len, k, maxK);
      if |r.list| == k || |r.list| == maxK then r else Receive(r, arrivals[|arrivals| - 1], len)
  }

  /** The block stops at exactly k units: it holds what a receiver of the first n arrivals
      holds, and all of them if it is not ready yet. */
  lemma {:induction false} StopsWhenReady<D>(arrivals: seq<Entry<D>>, len: nat, k: nat, maxK: nat) returns (n: nat)
    requires k <= maxK
    ensures n <= |arrivals| && OfferAll(arrivals, len, k, maxK) == ReceiveAll(arrivals[..n], len)
    ensures |OfferAll(arrivals, len, k, maxK).list| <= k
    ensures |OfferAll(arrivals, len, k, maxK).list| < k ==> n == |arrivals|
  {
    n := 0;
    if arrivals != [] {
      var last := |arrivals| - 1;
      n := StopsWhenReady(arrivals[..last], len, k, maxK);
      assert arrivals[..last][..n] == arrivals[..n];
      var r := OfferAll(arrivals[..last], len, k, maxK);
      if |r.list| < k {
        n := |arrivals|;
        ReceiverInvariant(arrivals[..last], len);
        ListSorted(r.list, arrivals[..last]);
        InsertEntryFacts(r.list, arrivals[last]);
        assert arrivals[..n] == arrivals;
      }
    }
  }
}
