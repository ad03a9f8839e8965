/** mad_rlc.c: the congestion control block of a receiving session. */
module Rlc {
  import opened RlcState
  import opened Symbols

  /** struct mad_rlc with the channel list of its session. */
  class MadRlc {
    const c: Config
    const rxMissing: array<seq<Late>>
    const rxWaitFor: array<SeqNum>
    const rxFirstPkt: array<bool>
    const rxFirstSp: array<bool>
    var rxLost: seq<int>
    var rxNblate: int
    var rxNblost: int
    var rxNblateSinceSp: int
    var rxNblostSinceSp: int
    var rxDeafWait: real
    var dropHighestLayer: bool
    var chList: seq<Channel>

    ghost predicate Valid()
      reads this
    {
      && rxMissing.Length == rxWaitFor.Length == rxFirstPkt.Length == rxFirstSp.Length == MAX_CHANNELS
      && 1 <= |chList| <= MAX_CHANNELS && rxFirstPkt != rxFirstSp
    }

    ghost function View(): (s: State)
      requires Valid()
      reads this, rxMissing, rxWaitFor, rxFirstPkt, rxFirstSp
      ensures s.Shape()
    {
      State(rxMissing[..], rxLost, rxNblate, rxNblost, rxNblateSinceSp, rxNblostSinceSp, rxWaitFor[..],
            rxFirstPkt[..], rxFirstSp[..], rxDeafWait, dropHighestLayer, chList)
    }

    /** init_mad_rlc. */
    constructor (chIds: seq<Channel>)
      requires 1 <= |chIds| <= MAX_CHANNELS
      ensures Valid() && View() == Init(chIds)
      ensures c.pktTimeout == 500 && c.deafPeriod == 10000 && c.lateAccepted == 0 && c.lossAccepted == 0
      ensures c.lossLimit == 1 && c.lossTimeout == 20
      ensures fresh(rxMissing) && fresh(rxWaitFor) && fresh(rxFirstPkt) && fresh(rxFirstSp)
    {
      c := DEFAULTS;
      rxMissing := new seq<Late>[MAX_CHANNELS](_ => []);
      rxWaitFor := new SeqNum[MAX_CHANNELS](_ => 0);
      var firstPkt := new bool[MAX_CHANNELS](_ => true);
      rxFirstPkt := firstPkt;
      rxFirstSp := new bool[MAX_CHANNELS](_ => false);
      rxLost, rxNblate, rxNblost, rxNblateSinceSp, rxNblostSinceSp := [], 0, 0, 0, 0;
      rxDeafWait, dropHighestLayer, chList := 0.0, false, chIds;
    }

    /** mad_rlc_free_lists. */
    method FreeLists()
      requires Valid()
      modifies this, rxMissing
      ensures Valid() && View() == Flushed(old(View()))
    {
      for i := 0 to MAX_CHANNELS
        invariant Valid() && forall j :: 0 <= j < i ==> rxMissing[j] == []
        invariant View() == old(View()).(missing := rxMissing[..])
      {
        while rxMissing[i] != []
          invariant Valid() && forall j :: 0 <= j < i ==> rxMissing[j] == []
          invariant View() == old(View()).(missing := rxMissing[..])
          decreases |rxMissing[i]|
        {
          rxMissing[i] := rxMissing[i][1..];
        }
      }
      assert rxMissing[..] == Empty(MAX_CHANNELS);
      while rxLost != []
        invariant Valid() && View() == old(View()).(missing := Empty(MAX_CHANNELS), lost := rxLost)
        decreases |rxLost|
      {
        rxLost := rxLost[1..];
      }
      rxNblost, rxNblate, rxNblostSinceSp, rxNblateSinceSp := 0, 0, 0, 0;
    }

    /** mad_rlc_add_late. */
    method AddLate(layer: nat, nseq: nat, now: real) returns (r: int)
      requires Valid() && layer < MAX_CHANNELS
      modifies this`rxNblate, this`rxNblateSinceSp, rxMissing
      ensures Valid() && r == if layer > |chList| then -1 else 0
      ensures r == -1 ==> View() == old(View())
      ensures r == 0 ==> View() == AddLates(c, old(View()), layer, nseq, 1, now)
    {
      if layer > |chList| {
        return -1;
      }
      var newMissing := Late(nseq % SEQ_MOD, now + Seconds(c.pktTimeout));
      assert LateRun(nseq, 1, now + Seconds(c.pktTimeout)) == [newMissing];
      rxMissing[layer] := [newMissing] + rxMissing[layer];
      rxNblate := rxNblate + 1;
      rxNblateSinceSp := rxNblateSinceSp + 1;
      r := 0;
    }

    /** mad_rlc_remove_late. */
    method RemoveLate(layer: nat, nseq: SeqNum) returns (r: int)
      requires Valid() && layer < MAX_CHANNELS && layer <= |chList|
      modifies this`rxNblate, this`rxNblateSinceSp, rxMissing
      ensures Valid() && View() == RlcState.RemoveLate(old(View()), layer, nseq)
      ensures r == if FindLate(old(rxMissing[layer]), nseq, 0) == |old(rxMissing[layer])| then -1 else 0
    {
      var l := rxMissing[layer];
      var i := 0;
      while i < |l| && l[i].seqNum != nseq
        invariant i <= |l| && FindLate(l, nseq, i) == FindLate(l, nseq, 0)
      {
        i := i + 1;
      }
      if i == |l| {
        return -1;
      }
      rxMissing[layer] := l[..i] + l[i + 1..];
      rxNblate := rxNblate - 1;
      rxNblateSinceSp := rxNblateSinceSp - 1;
      r := 0;
    }

    /** mad_rlc_add_lost: -1000 when the highest layer is to be dropped. */
    method AddLost(now: real) returns (r: int)
      requires Valid()
      modifies this, rxMissing, rxFirstPkt
      ensures Valid() && View() == RlcState.AddLost(c, old(View()), now)
      ensures r == if old(rxNblost) + 1 >= c.lossLimit then -1000 else 0
    {
      rxNblost := rxNblost + 1;
      rxNblostSinceSp := rxNblostSinceSp + 1;
      if rxNblost >= c.lossLimit {
        dropHighestLayer := true;
        rxFirstPkt[chList[|chList| - 1]] := true;
        FreeLists();
        rxDeafWait := now + Seconds(c.deafPeriod);
        return -1000;
      }
      rxLost := [c.lossTimeout] + rxLost;
      r := 0;
    }

    /** Age the loss at position i; one that is too old is removed. */
    method AgeEntry(i: nat) returns (removed: bool)
      requires i < |rxLost|
      modifies this`rxLost, this`rxNblost
      ensures rxLost == AgeOne(old(rxLost), i) && removed == (old(rxLost)[i] == 1)
      ensures rxNblost == old(rxNblost) - if removed then 1 else 0
    {
      rxLost := rxLost[i := rxLost[i] - 1];
      removed := rxLost[i] == 0;
      if removed {
        rxLost := rxLost[..i] + rxLost[i + 1..];
        rxNblost := rxNblost - 1;
      }
    }

    /** mad_rlc_update_loss_list. */
    method UpdateLossList()
      requires Valid()
      modifies this`rxLost, this`rxNblost
      ensures Valid() && View() == AgeLosses(old(View()))
    {
      ghost var was := rxLost;
      ghost var j := 0;
      var i := 0;
      AgedNone(was);
      hide Aged, AgeOne;
      while i < |rxLost|
        invariant j <= |was| && i == |Aged(was[..j])| && rxLost == Aged(was[..j]) + was[j..]
        invariant rxNblost == old(rxNblost) - (|was| - |rxLost|)
        decreases |was| - j
      {
        AgedNext(was, j);
        var removed := AgeEntry(i);
        if !removed {
          i := i + 1;
        }
        j := j + 1;
      }
      assert was[..j] == was && was[j..] == [];
    }

    /** The late packet at position i is lost. */
    method ExpireEntry(layer: nat, i: nat, now: real) returns (r: int)
      requires Valid() && layer < MAX_CHANNELS && i < |rxMissing[layer]|
      modifies this, rxMissing, rxFirstPkt
      ensures Valid() && View() == RlcState.AddLost(c, RemoveAt(old(View()), layer, i), now)
      ensures r == if old(rxNblost) + 1 >= c.lossLimit then -1000 else 0
    {
      ghost var s := View();
      rxMissing[layer] := rxMissing[layer][..i] + rxMissing[layer][i + 1..];
      rxNblate := rxNblate - 1;
      rxNblateSinceSp := rxNblateSinceSp - 1;
      assert View() == RemoveAt(s, layer, i);
      r := AddLost(now);
    }

    /** One round of the inner loop of mad_rlc_update_late_list. */
    method ExpireNext(layer: nat, i: nat, now: real, ghost s: State, ghost j: nat) returns (dropped: bool, next: nat)
      requires Valid() && layer < MAX_CHANNELS && i < |rxMissing[layer]|
      requires s.Shape() && j < |s.missing[layer]| && i == |Live(s.missing[layer][..j], now)|
      requires View() == Part(c, s, layer, j, now) && !TooMany(c, s, Dead(s.missing[layer][..j], now))
      modifies this, rxMissing, rxFirstPkt
      ensures Valid() && dropped == TooMany(c, s, Dead(s.missing[layer][..j + 1], now))
      ensures dropped ==> View() == Dropped(c, s, now)
      ensures !dropped ==> View() == Part(c, s, layer, j + 1, now) && next == |Live(s.missing[layer][..j + 1], now)|
    {
      PartNext(c, s, layer, j, now);
      hide RemoveAt, Part, Live, RlcState.AddLost, Dropped;
      dropped, next := false, i;
      if rxMissing[layer][i].lostTime <= now {
        PartLoses(c, s, layer, j, now);
        var r := ExpireEntry(layer, i, now);
        dropped := r == -1000;
      } else {
        PartStays(c, s, layer, j, now);
        next := i + 1;
      }
    }

    /** The inner loop of mad_rlc_update_late_list: one layer. */
    method ExpireLayer(layer: nat, now: real) returns (dropped: bool)
      requires Valid() && layer < MAX_CHANNELS
      modifies this, rxMissing, rxFirstPkt
      ensures Valid()
      ensures dropped == TooMany(c, old(View()), Dead(old(rxMissing[layer]), now))
      ensures View() == LayerExpired(c, old(View()), layer, now)
    {
      ghost var s := View();
      ghost var l, j := rxMissing[layer], 0;
      var i := 0;
      PartNone(c, s, layer, now);
      hide Part, Live, LayerExpired, Dropped, TooMany, Dead;
      while i < |rxMissing[layer]|
        invariant Valid() && j <= |l| && View() == Part(c, s, layer, j, now)
        invariant i == |Live(l[..j], now)| && |rxMissing[layer]| - i == |l| - j
        invariant !TooMany(c, s, Dead(l[..j], now))
        decreases |l| - j
      {
        dropped, i := ExpireNext(layer, i, now, s, j);
        j := j + 1;
        if dropped {
          DropsLayer(c, s, layer, j, now);
          return;
        }
      }
      PartAll(c, s, layer, now);
      dropped := false;
    }

    /** mad_rlc_update_late_list: -1 when the highest layer is dropped. */
    method UpdateLateList(now: real) returns (r: int)
      requires Valid()
      modifies this, rxMissing, rxFirstPkt
      ensures Valid() && View() == UpdateLate(c, old(View()), now)
      ensures r == if TooMany(c, old(View()), TotalDead(old(View().missing[..|chList|]), now)) then -1 else 0
    {
      ghost var s := View();
      var n := |chList|;
      LayersNone(c, s, now);
      hide ExpireLayers, LayerExpired, Dead, TotalDead;
      for layer := 0 to n
        invariant Valid() && View() == ExpireLayers(c, s, layer, now)
        invariant !TooMany(c, s, TotalDead(s.missing[..layer], now))
      {
        LayersNext(c, s, layer, now);
        var dropped := ExpireLayer(layer, now);
        if dropped {
          LayersStop(c, s, layer + 1, n, now);
          return -1;
        }
      }
      r := 0;
    }

    /** The loops of mad_rlc_check_sequence over missing sequence numbers. */
    method AddMissing(layer: nat, from: nat, n: nat, now: real)
      requires Valid() && layer < |chList|
      modifies this`rxNblate, this`rxNblateSinceSp, rxMissing
      ensures Valid() && View() == AddLates(c, old(View()), layer, from, n, now)
    {
      ghost var s := View();
      AddLatesNone(c, s, layer, from, now);
      hide AddLates;
      for i := from to from + n
        invariant Valid() && View() == AddLates(c, s, layer, from, i - from, now)
      {
        AddLatesNext(c, s, layer, from, i - from, now);
        var r := AddLate(layer, i, now);
      }
    }

    /** mad_rlc_check_sequence. */
    method CheckSequence(layer: nat, seqid: SeqNum, now: real)
      requires Valid() && layer < |chList|
      modifies this`rxNblate, this`rxNblateSinceSp, rxMissing, rxWaitFor
      ensures Valid() && View() == RlcState.CheckSequence(c, old(View()), layer, seqid, now)
    {
      hide AddLates, RlcState.RemoveLate;
      var w := rxWaitFor[layer];
      if w == seqid {
        rxWaitFor[layer] := (w + 1) % SEQ_MOD;
        return;
      }
      var delta1 := if w < seqid then seqid - w else w - seqid;
      var delta2 := 65535 - delta1;
      if w < seqid {
        if delta1 < delta2 {
          var n := Min(seqid - w, RLC_MAX_LATES);
          AddMissing(layer, w, n, now);
          rxWaitFor[layer] := (seqid + 1) % SEQ_MOD;
        } else {
          var r := RemoveLate(layer, seqid);
        }
      } else if delta1 < delta2 {
        var r := RemoveLate(layer, seqid);
      } else {
        AddMissing(layer, w, RLC_MAX_LATES, now);
        rxWaitFor[layer] := (seqid + 1) % SEQ_MOD;
      }
    }

    /** mad_rlc_process_rx_sp: 1 when a channel was added. */
    method ProcessRxSp(join: Join) returns (retval: int)
      requires Valid()
      modifies this`rxNblostSinceSp, this`rxNblateSinceSp, this`chList
      ensures Valid() && View() == ProcessSp(c, old(View()), join)
      ensures retval == 1 <==> |chList| > |old(chList)|
    {
      retval := 0;
      if rxNblostSinceSp <= c.lossAccepted && rxNblateSinceSp <= c.lateAccepted {
        if join.Joined? && |chList| < MAX_CHANNELS {
          chList := chList + [join.chId];
          rxNblostSinceSp := 0;
          rxNblateSinceSp := 0;
          retval := 1;
        }
      }
    }

    /** The sequence number part of mad_rlc_analyze_cci. */
    method AnalyzeSequence(h: Header, now: real)
      requires Valid() && h.layer < |chList|
      modifies this`rxNblate, this`rxNblateSinceSp, rxMissing, rxWaitFor, rxFirstPkt
      ensures Valid() && View() == Sequence(c, old(View()), h, now)
    {
      hide RlcState.CheckSequence;
      if rxFirstPkt[h.layer] {
        rxWaitFor[h.layer] := (h.seqid + 1) % SEQ_MOD;
        rxFirstPkt[h.layer] := false;
      } else {
        CheckSequence(h.layer, h.seqid, now);
      }
    }

    /** The synchronisation point part of mad_rlc_analyze_cci. */
    method AnalyzeSp(h: Header, join: Join)
      requires Valid() && h.layer < |chList|
      modifies this`rxNblostSinceSp, this`rxNblateSinceSp, this`chList, rxFirstSp
      ensures Valid() && View() == SyncPoint(c, old(View()), h, join)
    {
      if h.sp {
        if h.layer == |chList| - 1 {
          if rxFirstSp[h.layer] {
            rxFirstSp[h.layer] := false;
          } else {
            var r := ProcessRxSp(join);
          }
        }
      }
    }

    /** mad_rlc_analyze_cci: -1 for a packet that is not for this session. */
    method AnalyzeCci(h: Header, now: real, join: Join) returns (r: int)
      requires Valid()
      modifies this, rxMissing, rxWaitFor, rxFirstPkt, rxFirstSp
      ensures Valid() && View() == Analyze(c, old(View()), h, now, join)
      ensures r == if h.reserved == 0x55 && h.layer < |old(chList)| then 0 else -1
    {
      hide Sequence, SyncPoint, UpdateLate, AgeLosses;
      if h.reserved != 0x55 {
        return -1;
      }
      if h.layer >= |chList| {
        return -1;
      }
      ghost var s := View();
      ShapeUpdates(c, s, now);
      UpdateLossList();
      var late := UpdateLateList(now);
      ghost var t := View();
      r := 0;
      if rxDeafWait != 0.0 {
        if rxDeafWait > now {
          rxWaitFor[h.layer] := (h.seqid + 1) % SEQ_MOD;
          return;
        }
      }
      ShapeSequence(c, t, h, now);
      AnalyzeSequence(h, now);
      AnalyzeSp(h, join);
    }

    /** The receiving thread after a packet: leave the highest layer if told to. */
    method LeaveHighest()
      requires Valid()
      modifies this`dropHighestLayer, this`chList
      ensures Valid() && View() == Leave(old(View()))
    {
      if dropHighestLayer && |chList| != 1 {
        dropHighestLayer := false;
        chList := chList[..|chList| - 1];
      }
    }
  }

  lemma AddLatesNone(c: Config, s: State, layer: nat, from: nat, now: real)
    requires layer < |s.missing|
    ensures AddLates(c, s, layer, from, 0, now) == s
  {
    var l := s.missing[layer];
    assert LateRun(from, 0, now + Seconds(c.pktTimeout)) + l == l;
    assert s.missing[layer := l] == s.missing;
  }

  lemma LateRunNext(from: nat, n: nat, t: real)
    ensures LateRun(from, n + 1, t) == LateRun(from + n, 1, t) + LateRun(from, n, t)
  {
    var a, b := LateRun(from, n + 1, t), LateRun(from + n, 1, t) + LateRun(from, n, t);
    assert Onward(from + n, 0) == Onward(from, n);
    forall k | 0 <= k < n + 1 ensures a[k] == b[k] {}
  }

  lemma AddLatesNext(c: Config, s: State, layer: nat, from: nat, n: nat, now: real)
    requires layer < |s.missing|
    ensures AddLates(c, AddLates(c, s, layer, from, n, now), layer, from + n, 1, now)
            == AddLates(c, s, layer, from, n + 1, now)
  {
    var l, t := s.missing[layer], now + Seconds(c.pktTimeout);
    LateRunNext(from, n, t);
    var x, y := LateRun(from, n, t) + l, LateRun(from, n + 1, t) + l;
    assert LateRun(from + n, 1, t) + x == y;
    hide LateRun;
    assert s.missing[layer := x][layer := y] == s.missing[layer := y];
  }

  lemma LayersNone(c: Config, s: State, now: real)
    requires s.Shape()
    ensures ExpireLayers(c, s, 0, now) == s && TotalDead(s.missing[..0], now) == 0
  {
    assert LiveLayers(s.missing, 0, now) == s.missing;
    assert Repeat(c.lossTimeout, 0) + s.lost == s.lost;
  }

  lemma LayersNext(c: Config, s: State, n: nat, now: real)
    requires s.Shape() && n < MAX_CHANNELS && !TooMany(c, s, TotalDead(s.missing[..n], now))
    ensures var t := ExpireLayers(c, s, n, now);
            && t.Shape() && t.missing[n] == s.missing[n]
            && (TooMany(c, t, Dead(s.missing[n], now)) <==> TooMany(c, s, TotalDead(s.missing[..n + 1], now)))
            && LayerExpired(c, t, n, now) == ExpireLayers(c, s, n + 1, now)
  {
    hide TotalDead, Dead, Live, Repeat;
    TotalDeadLayer(s.missing, n, now);
    var e, d, m := TotalDead(s.missing[..n], now), Dead(s.missing[n], now), LiveLayers(s.missing, n, now);
    MoreLosses(c.lossTimeout, e, d, s.lost);
    assert LiveLayers(s.missing, n + 1, now) == m[n := Live(s.missing[n], now)];
  }

  lemma MoreLosses(x: int, n: nat, m: nat, lost: seq<int>)
    ensures Repeat(x, m) + (Repeat(x, n) + lost) == Repeat(x, n + m) + lost
  {}

  lemma {:induction false} LayersStop(c: Config, s: State, n: nat, m: nat, now: real)
    requires s.Shape() && n <= m <= MAX_CHANNELS && TooMany(c, s, TotalDead(s.missing[..n], now))
    ensures TooMany(c, s, TotalDead(s.missing[..m], now))
    ensures ExpireLayers(c, s, n, now) == ExpireLayers(c, s, m, now)
  {
    if n < m {
      LayersStop(c, s, n, m - 1, now);
      TotalDeadLayer(s.missing, m - 1, now);
    }
  }

  ghost function RemoveAt(s: State, layer: nat, i: nat): State
    requires layer < |s.missing| && i < |s.missing[layer]|
  {
    var l := s.missing[layer];
    s.(missing := s.missing[layer := l[..i] + l[i + 1..]], nbLate := s.nbLate - 1, nbLateSinceSp := s.nbLateSinceSp - 1)
  }

  /** One layer's expired packets become losses, or too many. */
  ghost function LayerExpired(c: Config, s: State, layer: nat, now: real): State
    requires s.Shape() && layer < MAX_CHANNELS
  {
    var l := s.missing[layer];
    if TooMany(c, s, Dead(l, now)) then Dropped(c, s, now)
    else Lose(c, s, s.missing[layer := Live(l, now)], Dead(l, now))
  }

  /** The state while the first j late packets of the layer have been looked at. */
  ghost function Part(c: Config, s: State, layer: nat, j: nat, now: real): (t: State)
    requires s.Shape() && layer < MAX_CHANNELS && j <= |s.missing[layer]|
    ensures t.Shape() && t.nbLost == s.nbLost + Dead(s.missing[layer][..j], now)
    ensures |t.missing[layer]| - |Live(s.missing[layer][..j], now)| == |s.missing[layer]| - j
  {
    var l := s.missing[layer];
    Lose(c, s, s.missing[layer := Live(l[..j], now) + l[j..]], Dead(l[..j], now))
  }

  lemma PartNone(c: Config, s: State, layer: nat, now: real)
    requires s.Shape() && layer < MAX_CHANNELS
    ensures Part(c, s, layer, 0, now) == s && Dead(s.missing[layer][..0], now) == 0
  {
    var l := s.missing[layer];
    assert Live(l[..0], now) + l[0..] == l;
    assert s.missing[layer := l] == s.missing;
    assert Repeat(c.lossTimeout, 0) + s.lost == s.lost;
  }

  lemma PartAll(c: Config, s: State, layer: nat, now: real)
    requires s.Shape() && layer < MAX_CHANNELS && !TooMany(c, s, Dead(s.missing[layer][..|s.missing[layer]|], now))
    ensures Part(c, s, layer, |s.missing[layer]|, now) == LayerExpired(c, s, layer, now)
    ensures !TooMany(c, s, Dead(s.missing[layer], now))
  {
    var l := s.missing[layer];
    assert l[..|l|] == l && l[|l|..] == [];
    assert Live(l, now) + l[|l|..] == Live(l, now);
    hide Live;
  }

  /** The next late packet is found where the loop looks. */
  lemma PartNext(c: Config, s: State, layer: nat, j: nat, now: real)
    requires s.Shape() && layer < MAX_CHANNELS && j < |s.missing[layer]|
    ensures var l := s.missing[layer];
            && Part(c, s, layer, j, now).missing[layer][|Live(l[..j], now)|] == l[j]
            && Live(l[..j + 1], now) == Live(l[..j], now) + if l[j].lostTime <= now then [] else [l[j]]
  {
    var l := s.missing[layer];
    assert l[..j + 1][..j] == l[..j];
    assert l[j..][0] == l[j];
  }

  /** It is still awaited. */
  lemma PartStays(c: Config, s: State, layer: nat, j: nat, now: real)
    requires s.Shape() && layer < MAX_CHANNELS && j < |s.missing[layer]| && s.missing[layer][j].lostTime > now
    ensures Part(c, s, layer, j + 1, now) == Part(c, s, layer, j, now)
    ensures Dead(s.missing[layer][..j + 1], now) == Dead(s.missing[layer][..j], now)
  {
    var l := s.missing[layer];
    PartNext(c, s, layer, j, now);
    var a := Live(l[..j], now);
    hide Live;
    assert a + l[j..] == (a + [l[j]]) + l[j + 1..];
    assert Dead(l[..j + 1], now) == Dead(l[..j], now);
    assert Live(l[..j + 1], now) + l[j + 1..] == a + l[j..];
    hide Dead;
  }

  /** It is lost: one loss more, or one too many. */
  lemma PartLoses(c: Config, s: State, layer: nat, j: nat, now: real)
    requires s.Shape() && layer < MAX_CHANNELS && j < |s.missing[layer]| && s.missing[layer][j].lostTime <= now
    ensures var l, t := s.missing[layer], Part(c, s, layer, j, now);
            var i := |Live(l[..j], now)|;
            && Dead(l[..j + 1], now) == Dead(l[..j], now) + 1
            && RlcState.AddLost(c, RemoveAt(t, layer, i), now)
               == (if t.nbLost + 1 >= c.lossLimit then Dropped(c, s, now) else Part(c, s, layer, j + 1, now))
  {
    var l := s.missing[layer];
    PartNext(c, s, layer, j, now);
    var a, n := Live(l[..j], now), Dead(l[..j], now);
    assert Live(l[..j + 1], now) == a && n + 1 == Dead(l[..j + 1], now);
    hide Live;
    var x, y := a + l[j..], a + l[j + 1..];
    assert x[..|a|] + x[|a| + 1..] == y;
    OneMore(c.lossTimeout, n, s.lost);
    hide Dead, Repeat;
    var t := Part(c, s, layer, j, now);
    assert t.missing == s.missing[layer := x];
    assert RemoveAt(t, layer, |a|).missing == s.missing[layer := y] == Part(c, s, layer, j + 1, now).missing;
    assert |t.missing| == |s.missing|;
  }

  lemma DropsLayer(c: Config, s: State, layer: nat, j: nat, now: real)
    requires s.Shape() && layer < MAX_CHANNELS && j <= |s.missing[layer]|
    requires TooMany(c, s, Dead(s.missing[layer][..j], now))
    ensures TooMany(c, s, Dead(s.missing[layer], now)) && LayerExpired(c, s, layer, now) == Dropped(c, s, now)
  {
    DeadPrefix(s.missing[layer], j, now);
  }

  lemma OneMore(x: int, n: nat, lost: seq<int>)
    ensures [x] + (Repeat(x, n) + lost) == Repeat(x, n + 1) + lost
  {}

  lemma {:induction false} DeadPrefix(l: seq<Late>, n: nat, now: real)
    requires n <= |l|
    ensures Dead(l[..n], now) <= Dead(l, now)
  {
    if n < |l| {
      DeadPrefix(l[..|l| - 1], n, now);
      assert l[..|l| - 1][..n] == l[..n];
    } else {
      assert l[..n] == l;
    }
  }

  ghost function AgeOne(x: seq<int>, i: nat): (r: seq<int>)
    requires i < |x|
    ensures |r| == if x[i] == 1 then |x| - 1 else |x|
  {
    if x[i] == 1 then x[..i] + x[i + 1..] else x[i := x[i] - 1]
  }

  lemma AgedNone(was: seq<int>)
    ensures Aged(was[..0]) == [] && was[0..] == was
  {}

  lemma AgeMiddle(a: seq<int>, x: int, rest: seq<int>)
    ensures AgeOne(a + ([x] + rest), |a|) == (a + if x == 1 then [] else [x - 1]) + rest
  {}

  /** The list while losses 0 .. j - 1 have been handled. */
  lemma AgedNext(was: seq<int>, j: nat)
    requires j < |was|
    ensures var i, x := |Aged(was[..j])|, Aged(was[..j]) + was[j..];
            x[i] == was[j] && AgeOne(x, i) == Aged(was[..j + 1]) + was[j + 1..]
    ensures |Aged(was[..j + 1])| == |Aged(was[..j])| + if was[j] == 1 then 0 else 1
  {
    hide Aged;
    var a := Aged(was[..j]);
    assert was[..j + 1] == was[..j] + [was[j]] && was[j..] == [was[j]] + was[j + 1..];
    AgedOne(was[..j], was[j]);
    AgeMiddle(a, was[j], was[j + 1..]);
  }
}
