/** What one packet and whole runs do to a receiver, spelled out in the numbers, times and
    lists of its state. */
module RlcProperties {
  import opened RlcState

  /** The packet is for the session. */
  ghost predicate ForUs(s: State, h: Header) {
    h.reserved == 0x55 && h.layer < |s.chIds|
  }

  /** The receiver does not listen. */
  ghost predicate StaysDeaf(s: State, now: real) {
    s.deafWait != 0.0 && s.deafWait > now
  }

  // ----- the stages of a packet

  lemma UpdateStage(c: Config, s: State, now: real)
    requires s.Shape()
    ensures var t := Updated(c, s, now);
            && t.Shape() && t.waitFor == s.waitFor && t.chIds == s.chIds && t.firstSp == s.firstSp
            && (forall l :: 0 <= l < MAX_CHANNELS && s.firstPkt[l] ==> t.firstPkt[l])
  {
    hide TotalDead, Live, Aged, Repeat, LiveLayers, Total;
  }

  /** Without a flush the update only moves expired packets from the late lists to the losses. */
  lemma QuietUpdate(c: Config, s: State, h: Header, now: real, join: Join)
    requires s.Shape() && ForUs(s, h) && !Flushes(c, s, Packet(h, now, join))
    ensures var t := Updated(c, s, now);
            var e := TotalDead(s.missing[..|s.chIds|], now);
            && t.firstPkt == s.firstPkt && t.deafWait == s.deafWait && t.dropHighest == s.dropHighest
            && t.missing == LiveLayers(s.missing, |s.chIds|, now)
            && t.nbLate == s.nbLate - e && t.nbLateSinceSp == s.nbLateSinceSp - e
            && t.nbLostSinceSp == s.nbLostSinceSp + e
  {
    hide TotalDead, Live, Aged, Repeat, LiveLayers, Total;
  }

  /** Either the packet only tells the next number, or its number and its synchronisation
      point are looked at. */
  lemma Stages(c: Config, s: State, h: Header, now: real, join: Join)
    requires s.Shape() && ForUs(s, h)
    ensures var t, r := Updated(c, s, now), Analyze(c, s, h, now, join);
            && t.Shape() && r.deafWait == t.deafWait
            && (StaysDeaf(t, now) ==> r == t.(waitFor := t.waitFor[h.layer := (h.seqid + 1) % 65536]))
            && (!StaysDeaf(t, now) ==> Sequence(c, t, h, now).Shape() && r == SyncPoint(c, Sequence(c, t, h, now), h, join))
  {
    hide Updated, Sequence, SyncPoint;
    ShapeUpdates(c, s, now);
    var t := Updated(c, s, now);
    ShapeSequence(c, t, h, now);
    SequenceFrame(c, t, h, now);
    SyncFrame(c, Sequence(c, t, h, now), h, join);
  }

  lemma SequenceFrame(c: Config, s: State, h: Header, now: real)
    requires s.Shape() && h.layer < MAX_CHANNELS
    ensures var r := Sequence(c, s, h, now);
            && r.deafWait == s.deafWait && r.chIds == s.chIds && r.lost == s.lost && r.firstSp == s.firstSp
            && r.nbLostSinceSp == s.nbLostSinceSp && r.dropHighest == s.dropHighest
            && r.nbLateSinceSp - s.nbLateSinceSp == r.nbLate - s.nbLate
  {
    hide LateRun, FindLate;
  }

  lemma SyncFrame(c: Config, s: State, h: Header, join: Join)
    requires s.Shape() && h.layer < MAX_CHANNELS
    ensures var r := SyncPoint(c, s, h, join);
            && r.deafWait == s.deafWait && r.waitFor == s.waitFor && r.missing == s.missing && r.lost == s.lost
            && r.firstPkt == s.firstPkt && r.dropHighest == s.dropHighest && r.nbLate == s.nbLate && r.nbLost == s.nbLost
  {}

  // ----- sequence numbers

  lemma SequenceNumber(c: Config, s: State, h: Header, now: real)
    requires s.Shape() && h.layer < MAX_CHANNELS
    ensures var r := Sequence(c, s, h, now);
            var w := s.waitFor[h.layer];
            var d := (h.seqid - w) % 65536;
            r.waitFor == if s.firstPkt[h.layer] || d < 32768 || (d == 32768 && w > h.seqid)
              then s.waitFor[h.layer := (h.seqid + 1) % 65536] else s.waitFor
  {
    hide LateRun, FindLate;
  }

  /** The number expected next on a layer moves on exactly with packets at most half the
      number space ahead, and with every packet during the deaf period and every first one;
      all other layers keep theirs. */
  lemma ExpectedNumber(c: Config, s: State, h: Header, now: real, join: Join)
    requires s.Shape() && h.reserved == 0x55 && h.layer < |s.chIds|
    ensures var r := Analyze(c, s, h, now, join);
            var w := s.waitFor[h.layer];
            var d := (h.seqid - w) % 65536;
            var deaf := r.deafWait != 0.0 && r.deafWait > now;
            && (deaf || s.firstPkt[h.layer] || d < 32768 || (d == 32768 && w > h.seqid) ==>
                  r.waitFor == s.waitFor[h.layer := (h.seqid + 1) % 65536])
            && (!deaf && !s.firstPkt[h.layer] && !Flushes(c, s, Packet(h, now, join)) ==>
                  (d > 32768 || (d == 32768 && w < h.seqid) ==> r.waitFor == s.waitFor))
  {
    hide Analyze, Updated, Sequence, SyncPoint, Flushes;
    Stages(c, s, h, now, join);
    UpdateStage(c, s, now);
    if !Flushes(c, s, Packet(h, now, join)) {
      QuietUpdate(c, s, h, now, join);
    }
    var t := Updated(c, s, now);
    SequenceNumber(c, t, h, now);
    if !StaysDeaf(t, now) {
      SyncFrame(c, Sequence(c, t, h, now), h, join);
    }
  }

  // ----- late lists

  /** The survivors of a late list are its entries whose time has not come, each as often as
      before; if none has expired the list is as it was. */
  lemma {:induction false} Survivors(l: seq<Late>, now: real, e: Late)
    ensures multiset(Live(l, now))[e] == if e.lostTime > now then multiset(l)[e] else 0
    ensures (forall i :: 0 <= i < |l| ==> l[i].lostTime > now) ==> Live(l, now) == l
  {
    hide Live;
    if l == [] {
      assert Live(l, now) == [] by { LiveNone(now); }
    } else {
      var n := |l| - 1;
      var x := l[n];
      Survivors(l[..n], now, e);
      assert l == l[..n] + [x];
      LiveLast(l[..n], x, now);
    }
  }

  lemma LiveNone(now: real)
    ensures Live([], now) == []
  {}

  lemma LiveLast(l: seq<Late>, x: Late, now: real)
    ensures Live(l + [x], now) == if x.lostTime <= now then Live(l, now) else Live(l, now) + [x]
  {
    assert (l + [x])[..|l|] == l;
  }

  /** A packet that is expected, or the first of its layer, changes no late list. */
  lemma InOrderLists(c: Config, s: State, h: Header, now: real)
    requires s.Shape() && h.layer < MAX_CHANNELS && (s.firstPkt[h.layer] || h.seqid == s.waitFor[h.layer])
    ensures Sequence(c, s, h, now).missing == s.missing && Sequence(c, s, h, now).nbLate == s.nbLate
  {
    hide LateRun, FindLate;
  }

  lemma AheadLists(c: Config, s: State, h: Header, now: real)
    requires s.Shape() && h.layer < MAX_CHANNELS && !s.firstPkt[h.layer]
    requires var w := s.waitFor[h.layer]; var d := (h.seqid - w) % 65536; 0 < d < 32768 || (d == 32768 && w > h.seqid)
    ensures var w := s.waitFor[h.layer];
            var n: nat := if w < h.seqid then (if h.seqid - w <= 100 then h.seqid - w else 100) else 100;
            Sequence(c, s, h, now).missing
            == s.missing[h.layer := LateRun(w, n, now + c.pktTimeout as real / 1000.0) + s.missing[h.layer]]
  {
    hide LateRun, FindLate;
  }

  lemma BehindLists(c: Config, s: State, h: Header, now: real)
    requires s.Shape() && h.layer < MAX_CHANNELS && !s.firstPkt[h.layer]
    requires var w := s.waitFor[h.layer]; var d := (h.seqid - w) % 65536; d > 32768 || (d == 32768 && w < h.seqid)
    ensures var l, p := s.missing[h.layer], FindLate(s.missing[h.layer], h.seqid, 0);
            Sequence(c, s, h, now).missing == if p < |l| then s.missing[h.layer := l[..p] + l[p + 1..]] else s.missing
  {
    hide LateRun, FindLate;
  }

  /** All late lists after a packet that neither flushes nor meets a deaf receiver. */
  lemma ListsAfter(c: Config, s: State, h: Header, now: real, join: Join)
    requires s.Shape() && ForUs(s, h) && !Flushes(c, s, Packet(h, now, join)) && !StaysDeaf(s, now)
    ensures var t := Updated(c, s, now);
            && t.Shape() && t.waitFor == s.waitFor && t.firstPkt == s.firstPkt
            && t.missing == LiveLayers(s.missing, |s.chIds|, now)
            && Analyze(c, s, h, now, join).missing == Sequence(c, t, h, now).missing
            && Analyze(c, s, h, now, join).lost == t.lost
  {
    hide Analyze, Updated, Sequence, SyncPoint, Flushes, LiveLayers;
    Stages(c, s, h, now, join);
    UpdateStage(c, s, now);
    QuietUpdate(c, s, h, now, join);
    var t := Updated(c, s, now);
    SequenceFrame(c, t, h, now);
    SyncFrame(c, Sequence(c, t, h, now), h, join);
  }

  /** A gap: the missing packets, youngest first and each with its deadline, come in front of
      what was still awaited; no other late list gets an entry. */
  lemma GapRecorded(c: Config, s: State, h: Header, now: real, join: Join)
    requires s.Shape() && h.reserved == 0x55 && h.layer < |s.chIds| && !s.firstPkt[h.layer]
    requires !Flushes(c, s, Packet(h, now, join)) && (s.deafWait == 0.0 || s.deafWait <= now)
    requires var w := s.waitFor[h.layer]; var d := (h.seqid - w) % 65536; 0 < d < 32768 || (d == 32768 && w > h.seqid)
    ensures var r, w := Analyze(c, s, h, now, join), s.waitFor[h.layer];
            var n: nat := if w < h.seqid then (if h.seqid - w <= 100 then h.seqid - w else 100) else 100;
            && |r.missing| == MAX_CHANNELS
            && |r.missing[h.layer]| == n + |Live(s.missing[h.layer], now)|
            && r.missing[h.layer][n..] == Live(s.missing[h.layer], now)
            && (forall k :: 0 <= k < n ==> r.missing[h.layer][k].seqNum == (w + n - 1 - k) % 65536)
            && (forall k :: 0 <= k < n ==> r.missing[h.layer][k].lostTime == now + c.pktTimeout as real / 1000.0)
            && (forall l :: 0 <= l < MAX_CHANNELS && l != h.layer ==>
                  r.missing[l] == if l < |s.chIds| then Live(s.missing[l], now) else s.missing[l])
  {
    hide Analyze, Updated, Sequence, Flushes, Live;
    ListsAfter(c, s, h, now, join);
    var t, w, l := Updated(c, s, now), s.waitFor[h.layer], Live(s.missing[h.layer], now);
    AheadLists(c, t, h, now);
    var n: nat := if w < h.seqid then (if h.seqid - w <= 100 then h.seqid - w else 100) else 100;
    var g := LateRun(w, n, now + c.pktTimeout as real / 1000.0);
    assert t.missing[h.layer] == l && Analyze(c, s, h, now, join).missing == t.missing[h.layer := g + l];
    assert (g + l)[n..] == l;
    assert forall k :: 0 <= k < n ==> (g + l)[k] == g[k] && g[k].seqNum == Onward(w, n - 1 - k);
  }

  /** A late arrival: exactly one entry with its own number leaves the late list, if there is
      one; nothing else does. */
  lemma LateArrival(c: Config, s: State, h: Header, now: real, join: Join)
    requires s.Shape() && h.reserved == 0x55 && h.layer < |s.chIds| && !s.firstPkt[h.layer]
    requires !Flushes(c, s, Packet(h, now, join)) && (s.deafWait == 0.0 || s.deafWait <= now)
    requires var w := s.waitFor[h.layer]; var d := (h.seqid - w) % 65536; d > 32768 || (d == 32768 && w < h.seqid)
    ensures var r, l := Analyze(c, s, h, now, join), Live(s.missing[h.layer], now);
            && |r.missing| == MAX_CHANNELS
            && ((exists p :: 0 <= p < |l| && l[p].seqNum == h.seqid) ==>
                  exists p :: 0 <= p < |l| && l[p].seqNum == h.seqid && r.missing[h.layer] == l[..p] + l[p + 1..])
            && ((forall p :: 0 <= p < |l| ==> l[p].seqNum != h.seqid) ==> r.missing[h.layer] == l)
            && (forall i :: 0 <= i < MAX_CHANNELS && i != h.layer ==>
                  r.missing[i] == if i < |s.chIds| then Live(s.missing[i], now) else s.missing[i])
  {
    hide Analyze, Updated, Sequence, Flushes, Live;
    ListsAfter(c, s, h, now, join);
    var t := Updated(c, s, now);
    BehindLists(c, t, h, now);
    var l := Live(s.missing[h.layer], now);
    assert t.missing[h.layer] == l;
    var p := FindLate(l, h.seqid, 0);
    if p < |l| {
      assert l[p].seqNum == h.seqid && Analyze(c, s, h, now, join).missing[h.layer] == l[..p] + l[p + 1..];
    }
  }

  /** Packets that are not for the session change nothing. */
  lemma Rejected(c: Config, s: State, h: Header, now: real, join: Join)
    requires s.Shape() && (h.reserved != 0x55 || h.layer >= |s.chIds|)
    ensures Analyze(c, s, h, now, join) == s
  {
    hide Updated, Sequence, SyncPoint;
  }

  // ----- runs in order

  /** The number behind the last packet of a layer, -1 if there was none. */
  ghost function Next(ps: seq<Packet>, l: nat): int {
    if ps == [] then -1
    else
      var n := |ps| - 1;
      if ps[n].h.layer == l then (ps[n].h.seqid + 1) % 65536 else Next(ps[..n], l)
  }

  /** On every layer the packets arrive in order and without loss. */
  ghost predicate InOrder(ps: seq<Packet>, layers: nat) {
    forall i :: 0 <= i < |ps| ==>
      && ps[i].h.reserved == 0x55 && ps[i].h.layer < layers
      && (Next(ps[..i], ps[i].h.layer) == -1 || ps[i].h.seqid == Next(ps[..i], ps[i].h.layer))
  }

  ghost predicate Quiet(s: State) {
    && (forall l :: 0 <= l < |s.missing| ==> s.missing[l] == []) && s.lost == []
    && s.deafWait == 0.0 && !s.dropHighest
  }

  lemma QuietNoFlush(c: Config, s: State, p: Packet)
    requires Inv(c, s) && Quiet(s)
    ensures !Flushes(c, s, p) && TotalDead(s.missing[..|s.chIds|], p.now) == 0
    ensures LiveLayers(s.missing, |s.chIds|, p.now) == s.missing
  {
    hide TotalDead, Total;
    NothingDead(s.missing[..|s.chIds|], p.now);
    TotalPrefix(s.missing, |s.chIds|);
    assert s.missing == Empty(MAX_CHANNELS);
    TotalEmpty(MAX_CHANNELS);
  }

  lemma QuietStep(c: Config, s: State, p: Packet)
    requires Inv(c, s) && Quiet(s) && ForUs(s, p.h) && (s.firstPkt[p.h.layer] || p.h.seqid == s.waitFor[p.h.layer])
    ensures var r := Step(c, s, p);
            && r.Shape() && Quiet(r) && |r.chIds| >= |s.chIds|
            && r.waitFor == s.waitFor[p.h.layer := (p.h.seqid + 1) % 65536]
            && r.firstPkt == s.firstPkt[p.h.layer := false]
  {
    hide Analyze, Updated, Sequence, SyncPoint, Flushes, LiveLayers, TotalDead;
    var h, now, join := p.h, p.now, p.join;
    QuietNoFlush(c, s, p);
    ListsAfter(c, s, h, now, join);
    Stages(c, s, h, now, join);
    UpdateStage(c, s, now);
    QuietUpdate(c, s, h, now, join);
    StepLosses(c, s, p);
    var t := Updated(c, s, now);
    InOrderLists(c, t, h, now);
    SequenceNumber(c, t, h, now);
    FirstSeen(c, t, h, now);
    SequenceFrame(c, t, h, now);
    SyncFrame(c, Sequence(c, t, h, now), h, join);
    SyncGrows(c, Sequence(c, t, h, now), h, join);
    AnalyzeKeeps(c, s, h, now, join);
    hide Inv;
    assert Aged([]) == [];
    assert Repeat(c.lossTimeout, 0) + Aged(s.lost) == [];
  }

  lemma FirstSeen(c: Config, s: State, h: Header, now: real)
    requires s.Shape() && h.layer < MAX_CHANNELS
    ensures Sequence(c, s, h, now).firstPkt == s.firstPkt[h.layer := false]
  {
    hide LateRun, FindLate;
    if !s.firstPkt[h.layer] {
      assert s.firstPkt[h.layer := false] == s.firstPkt;
    }
  }

  lemma SyncGrows(c: Config, s: State, h: Header, join: Join)
    requires s.Shape() && h.layer < MAX_CHANNELS
    ensures |SyncPoint(c, s, h, join).chIds| >= |s.chIds|
  {}

  /** The state knows the number behind the last packet of every layer. */
  ghost predicate Tracks(s: State, ps: seq<Packet>)
    requires s.Shape()
  {
    forall l :: 0 <= l < MAX_CHANNELS ==>
      if Next(ps, l) == -1 then s.firstPkt[l] else !s.firstPkt[l] && s.waitFor[l] == Next(ps, l)
  }

  lemma TracksNext(s: State, r: State, ps: seq<Packet>)
    requires s.Shape() && r.Shape() && ps != [] && Tracks(s, ps[..|ps| - 1])
    requires var p := ps[|ps| - 1]; p.h.layer < MAX_CHANNELS
                                    && r.waitFor == s.waitFor[p.h.layer := (p.h.seqid + 1) % 65536]
                                    && r.firstPkt == s.firstPkt[p.h.layer := false]
    ensures Tracks(r, ps)
  {
    var n := |ps| - 1;
    forall l | 0 <= l < MAX_CHANNELS
      ensures if Next(ps, l) == -1 then r.firstPkt[l] else !r.firstPkt[l] && r.waitFor[l] == Next(ps, l)
    {
      assert Next(ps, l) == if ps[n].h.layer == l then (ps[n].h.seqid + 1) % 65536 else Next(ps[..n], l);
    }
  }

  lemma InitQuiet(chIds: seq<Channel>)
    requires 1 <= |chIds| <= MAX_CHANNELS
    ensures Quiet(Init(chIds)) && Init(chIds).Shape() && Tracks(Init(chIds), [])
  {}

  lemma RunNext(c: Config, s: State, ps: seq<Packet>)
    requires Inv(c, s) && ps != []
    ensures Run(c, s, ps) == Step(c, Run(c, s, ps[..|ps| - 1]), ps[|ps| - 1])
  {}

  lemma {:induction false} InOrderRun(c: Config, chIds: seq<Channel>, ps: seq<Packet>)
    requires c.Valid() && 1 <= |chIds| <= MAX_CHANNELS && InOrder(ps, |chIds|)
    ensures Inv(c, Init(chIds))
    ensures var r := Run(c, Init(chIds), ps); r.Shape() && Quiet(r) && |r.chIds| >= |chIds| && Tracks(r, ps)
  {
    hide Inv, Step, Tracks, Quiet, InOrder, Run, Next, State.Shape;
    InitInv(c, chIds);
    if ps == [] {
      InitQuiet(chIds);
      RunNone(c, Init(chIds));
    } else {
      var n := |ps| - 1;
      InOrderPrefix(ps, |chIds|);
      InOrderRun(c, chIds, ps[..n]);
      var s, p := Run(c, Init(chIds), ps[..n]), ps[n];
      Expected(s, ps[..n], p.h);
      QuietStep(c, s, p);
      RunNext(c, Init(chIds), ps);
      TracksNext(s, Step(c, s, p), ps);
    }
  }

  lemma RunNone(c: Config, s: State)
    requires Inv(c, s)
    ensures Run(c, s, []) == s
  {}

  lemma Expected(s: State, ps: seq<Packet>, h: Header)
    requires s.Shape() && Tracks(s, ps) && h.layer < MAX_CHANNELS
    requires Next(ps, h.layer) == -1 || h.seqid == Next(ps, h.layer)
    ensures s.firstPkt[h.layer] || h.seqid == s.waitFor[h.layer]
  {}

  /** A stream without loss or reordering never makes the receiver miss, lose or drop
      anything: both lists stay empty, it does not go deaf, and no layer is left. */
  lemma InOrderQuiet(c: Config, chIds: seq<Channel>, ps: seq<Packet>)
    requires c.Valid() && 1 <= |chIds| <= MAX_CHANNELS && InOrder(ps, |chIds|)
    ensures Inv(c, Init(chIds))
    ensures var r := Run(c, Init(chIds), ps);
            && (forall l :: 0 <= l < |r.missing| ==> r.missing[l] == []) && r.lost == []
            && r.deafWait == 0.0 && !r.dropHighest && |r.chIds| >= |chIds|
  {
    hide Run, Inv;
    InOrderRun(c, chIds, ps);
  }

  lemma InOrderPrefix(ps: seq<Packet>, layers: nat)
    requires InOrder(ps, layers) && ps != []
    ensures InOrder(ps[..|ps| - 1], layers)
    ensures var p := ps[|ps| - 1];
            p.h.reserved == 0x55 && p.h.layer < layers
            && (Next(ps[..|ps| - 1], p.h.layer) == -1 || p.h.seqid == Next(ps[..|ps| - 1], p.h.layer))
  {
    var n := |ps| - 1;
    forall i | 0 <= i < n ensures ps[..n][..i] == ps[..i] {}
  }

  // ----- when the lists are flushed

  lemma {:induction false} AgedCount(lost: seq<int>)
    ensures |Aged(lost)| == |set i | 0 <= i < |lost| && lost[i] != 1|
  {
    if lost != [] {
      var n := |lost| - 1;
      AgedCount(lost[..n]);
      var a, b := set i | 0 <= i < n && lost[..n][i] != 1, set i | 0 <= i < |lost| && lost[i] != 1;
      assert b == if lost[n] != 1 then a + {n} else a;
    }
  }

  /** The expired late packets of the first n layers and of the first j places of layer n. */
  ghost function ExpiredUpTo(missing: seq<seq<Late>>, n: nat, j: nat, now: real): set<(nat, nat)>
    requires n < |missing|
  {
    set a: nat, b: nat | a < |missing| && b < |missing[a]| && (a < n || (a == n && b < j)) && missing[a][b].lostTime <= now
      :: (a, b)
  }

  lemma {:induction false} ExpiredCount(missing: seq<seq<Late>>, n: nat, j: nat, now: real)
    requires n < |missing| && j <= |missing[n]|
    ensures |ExpiredUpTo(missing, n, j, now)| == TotalDead(missing[..n], now) + Dead(missing[n][..j], now)
    decreases n, j
  {
    hide TotalDead, Live;
    if j > 0 {
      var l := missing[n];
      ExpiredCount(missing, n, j - 1, now);
      assert l[..j] == l[..j - 1] + [l[j - 1]];
      LiveLast(l[..j - 1], l[j - 1], now);
      assert ExpiredUpTo(missing, n, j, now)
          == ExpiredUpTo(missing, n, j - 1, now) + if l[j - 1].lostTime <= now then {(n, j - 1)} else {};
    } else if n > 0 {
      ExpiredCount(missing, n - 1, |missing[n - 1]|, now);
      assert missing[n - 1][..|missing[n - 1]|] == missing[n - 1];
      TotalDeadLayer(missing, n - 1, now);
      assert ExpiredUpTo(missing, n, 0, now) == ExpiredUpTo(missing, n - 1, |missing[n - 1]|, now);
      LiveNone(now);
    } else {
      assert ExpiredUpTo(missing, 0, 0, now) == {};
      LiveNone(now);
      assert TotalDead(missing[..0], now) == 0 by { NoneDead(missing[..0], now); }
    }
  }

  lemma NoneDead(missing: seq<seq<Late>>, now: real)
    requires missing == []
    ensures TotalDead(missing, now) == 0
  {}

  /** The expired late packets of the session's layers. */
  ghost function Expired(missing: seq<seq<Late>>, layers: nat, now: real): set<(nat, nat)>
    requires layers <= |missing|
  {
    set a: nat, b: nat | a < layers && b < |missing[a]| && missing[a][b].lostTime <= now :: (a, b)
  }

  lemma ExpiredAll(missing: seq<seq<Late>>, layers: nat, now: real)
    requires 1 <= layers <= |missing|
    ensures |Expired(missing, layers, now)| == TotalDead(missing[..layers], now)
  {
    var n := layers - 1;
    ExpiredCount(missing, n, |missing[n]|, now);
    assert missing[n][..|missing[n]|] == missing[n];
    TotalDeadLayer(missing, n, now);
    assert Expired(missing, layers, now) == ExpiredUpTo(missing, n, |missing[n]|, now);
  }

  /** A packet for the session flushes exactly if late packets have expired and, together with
      the losses that do not age out with this packet, reach the limit. */
  lemma FlushExactly(c: Config, s: State, p: Packet)
    requires Inv(c, s)
    ensures Flushes(c, s, p)
            <==> && p.h.reserved == 0x55 && p.h.layer < |s.chIds| && Expired(s.missing, |s.chIds|, p.now) != {}
                 && |set i | 0 <= i < |s.lost| && s.lost[i] != 1| + |Expired(s.missing, |s.chIds|, p.now)| >= c.lossLimit
  {
    hide TotalDead, Aged, Total, Expired;
    AgedCount(s.lost);
    ExpiredAll(s.missing, |s.chIds|, p.now);
  }

  lemma FlushUpdate(c: Config, s: State, p: Packet)
    requires s.Shape() && Flushes(c, s, p)
    ensures Updated(c, s, p.now) == Dropped(c, AgeLosses(s), p.now)
  {
    hide TotalDead, Aged;
  }

  /** A flush empties all lists and counters, marks the highest layer and its channel, and
      starts the deaf period; the receiving thread then leaves the layer, unless it is the
      only one. */
  lemma FlushMarks(c: Config, s: State, p: Packet)
    requires Inv(c, s) && Flushes(c, s, p) && c.deafPeriod > 0 && p.now >= 0.0
    ensures var r, top := Step(c, s, p), |s.chIds| - 1;
            && r.missing == seq(10, _ => []) && r.lost == []
            && r.nbLate == r.nbLost == r.nbLateSinceSp == r.nbLostSinceSp == 0
            && r.deafWait == p.now + c.deafPeriod as real / 1000.0
            && r.firstPkt == s.firstPkt[s.chIds[top] := true] && r.firstSp == s.firstSp
            && r.chIds == (if top > 0 then s.chIds[..top] else s.chIds) && r.dropHighest == (top == 0)
  {
    FlushUpdate(c, s, p);
    hide Analyze, Updated, Sequence, SyncPoint, Flushes, Inv;
    Stages(c, s, p.h, p.now, p.join);
  }

  lemma {:induction false} AgedEach(lost: seq<int>, v: int)
    ensures multiset(Aged(lost))[v] == if v == 0 then 0 else multiset(lost)[v + 1]
  {
    hide Aged;
    if lost == [] {
      assert Aged(lost) == [] by { AgedNone(lost); }
    } else {
      var n := |lost| - 1;
      AgedEach(lost[..n], v);
      AgedOne(lost[..n], lost[n]);
      assert lost == lost[..n] + [lost[n]];
    }
  }

  lemma AgedNone(lost: seq<int>)
    requires lost == []
    ensures Aged(lost) == []
  {}

  /** Without a flush every expired late packet becomes a loss with the full count, and every
      older loss counts one less, or is gone. */
  lemma LossesAfter(c: Config, s: State, p: Packet, v: int)
    requires Inv(c, s) && ForUs(s, p.h) && !Flushes(c, s, p) && v >= 1
    ensures var r, e := Step(c, s, p), |Expired(s.missing, |s.chIds|, p.now)|;
            && |r.lost| >= e && (forall i :: 0 <= i < e ==> r.lost[i] == c.lossTimeout)
            && multiset(r.lost[e..])[v] == multiset(s.lost)[v + 1]
            && 0 !in r.lost[e..]
  {
    hide TotalDead, Aged, Total, Expired, Step, Flushes, Inv;
    StepLosses(c, s, p);
    SessionLayers(c, s);
    ExpiredAll(s.missing, |s.chIds|, p.now);
    AgedEach(s.lost, v);
    AgedEach(s.lost, 0);
    var e := TotalDead(s.missing[..|s.chIds|], p.now);
    assert (Repeat(c.lossTimeout, e) + Aged(s.lost))[e..] == Aged(s.lost);
    assert multiset(Aged(s.lost))[0] == 0;
  }

  lemma SessionLayers(c: Config, s: State)
    requires Inv(c, s)
    ensures 1 <= |s.chIds| <= |s.missing|
  {}

  // ----- when layers are joined and left

  /** A layer is joined exactly at a synchronisation point of the highest layer that is not
      the one to skip, if not more packets were late or lost since the last one than are
      accepted, the session is not full and joining succeeds; then both counts restart. */
  lemma JoinExactly(c: Config, s: State, h: Header, now: real, id: Channel)
    requires s.Shape() && h.reserved == 0x55 && h.layer < |s.chIds|
    ensures var q, r := Analyze(c, s, h, now, Refused), Analyze(c, s, h, now, Joined(id));
            var deaf := q.deafWait != 0.0 && q.deafWait > now;
            var atSp := !deaf && h.sp && h.layer == |s.chIds| - 1;
            && q.chIds == s.chIds
            && q.firstSp == (if atSp then s.firstSp[h.layer := false] else s.firstSp)
            && r == if atSp && !s.firstSp[h.layer] && |s.chIds| < 10
                       && q.nbLostSinceSp <= c.lossAccepted && q.nbLateSinceSp <= c.lateAccepted
              then q.(chIds := s.chIds + [id], nbLostSinceSp := 0, nbLateSinceSp := 0) else q
  {
    hide Analyze, Updated, Sequence, Flushes;
    Stages(c, s, h, now, Refused);
    Stages(c, s, h, now, Joined(id));
    UpdateStage(c, s, now);
    SequenceFrame(c, Updated(c, s, now), h, now);
    var u := Sequence(c, Updated(c, s, now), h, now);
    if !s.firstSp[h.layer] {
      assert s.firstSp[h.layer := false] == s.firstSp;
    }
  }

  /** Since the last synchronisation point the losses grow by the expired late packets and the
      late packets by what the late lists grow. */
  lemma SinceSp(c: Config, s: State, h: Header, now: real)
    requires Inv(c, s) && ForUs(s, h) && !Flushes(c, s, Packet(h, now, Refused))
    ensures var q := Analyze(c, s, h, now, Refused);
            && q.nbLostSinceSp == s.nbLostSinceSp + |Expired(s.missing, |s.chIds|, now)|
            && q.nbLateSinceSp - s.nbLateSinceSp == Total(q.missing) - Total(s.missing)
  {
    hide Analyze, Updated, Sequence, Flushes, TotalDead, LiveLayers, Expired, Total;
    Stages(c, s, h, now, Refused);
    QuietUpdate(c, s, h, now, Refused);
    SequenceFrame(c, Updated(c, s, now), h, now);
    ExpiredAll(s.missing, |s.chIds|, now);
    AnalyzeKeeps(c, s, h, now, Refused);
  }

  /** Without a flush a receiver that is not told to drop keeps all its layers. */
  lemma LeavesOnlyAfterFlush(c: Config, s: State, p: Packet)
    requires Inv(c, s) && !Flushes(c, s, p) && !s.dropHighest
    ensures var r := Step(c, s, p); |s.chIds| <= |r.chIds| && r.chIds[..|s.chIds|] == s.chIds && !r.dropHighest
  {
    hide Analyze, Updated, Sequence, SyncPoint, Flushes, Total, TotalDead, LiveLayers;
    if ForUs(s, p.h) {
      Stages(c, s, p.h, p.now, p.join);
      UpdateStage(c, s, p.now);
      QuietUpdate(c, s, p.h, p.now, p.join);
      ShapeSequence(c, Updated(c, s, p.now), p.h, p.now);
      var u := Sequence(c, Updated(c, s, p.now), p.h, p.now);
      SequenceFrame(c, Updated(c, s, p.now), p.h, p.now);
      SyncFrame(c, u, p.h, p.join);
      SyncKeepsLayers(c, u, p.h, p.join);
    } else {
      Rejected(c, s, p.h, p.now, p.join);
    }
  }

  lemma SyncKeepsLayers(c: Config, s: State, h: Header, join: Join)
    requires s.Shape() && h.layer < MAX_CHANNELS
    ensures var r := SyncPoint(c, s, h, join).chIds; |s.chIds| <= |r| && r[..|s.chIds|] == s.chIds
  {}
}
