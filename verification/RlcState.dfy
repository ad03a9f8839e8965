/** RLC congestion control at the receiver as a state machine: what each routine does to
    the late lists, the lost list and their counters. The clock is a parameter. */
module RlcState {
  import opened Symbols

  const MAX_CHANNELS := 10
  const RLC_MAX_LATES := 100
  const SEQ_MOD := 65536

  type SeqNum = x: int | 0 <= x < SEQ_MOD
  type Channel = x: int | 0 <= x < MAX_CHANNELS

  /** The limits that init_mad_rlc sets; times in milliseconds. */
  datatype Config = Config(pktTimeout: nat, deafPeriod: nat, lateAccepted: nat, lossAccepted: nat,
                           lossLimit: nat, lossTimeout: nat) {
    ghost predicate Valid() {
      lossLimit >= 1 && lossTimeout >= 1
    }
  }

  const DEFAULTS := Config(500, 10000, 0, 0, 1, 20)

  function Seconds(ms: nat): real { ms as real / 1000.0 }

  datatype Late = Late(seqNum: SeqNum, lostTime: real)

  /** missing[l] is the late list of layer l; lost holds the pkt_remaining fields; chIds are
      the channels of the session, one per layer. */
  datatype State = State(missing: seq<seq<Late>>, lost: seq<int>, nbLate: int, nbLost: int,
                         nbLateSinceSp: int, nbLostSinceSp: int, waitFor: seq<SeqNum>, firstPkt: seq<bool>,
                         firstSp: seq<bool>, deafWait: real, dropHighest: bool, chIds: seq<Channel>) {
    ghost predicate Shape() {
      && |missing| == |waitFor| == |firstPkt| == |firstSp| == MAX_CHANNELS
      && 1 <= |chIds| <= MAX_CHANNELS
    }
  }

  ghost function Empty(n: nat): seq<seq<Late>> {
    seq(n, _ => [])
  }

  ghost function Total(missing: seq<seq<Late>>): nat {
    if missing == [] then 0 else Total(missing[..|missing| - 1]) + |missing[|missing| - 1]|
  }

  lemma {:induction false} TotalUpdate(missing: seq<seq<Late>>, i: nat, l: seq<Late>)
    requires i < |missing|
    ensures Total(missing[i := l]) == Total(missing) - |missing[i]| + |l|
  {
    var n := |missing| - 1;
    if i < n {
      TotalUpdate(missing[..n], i, l);
      assert missing[i := l][..n] == missing[..n][i := l];
    } else {
      assert missing[i := l][..n] == missing[..n];
    }
  }

  lemma {:induction false} TotalEmpty(n: nat)
    ensures Total(Empty(n)) == 0
  {
    if n > 0 {
      TotalEmpty(n - 1);
      assert Empty(n)[..n - 1] == Empty(n - 1);
    }
  }

  lemma {:induction false} TotalZero(missing: seq<seq<Late>>)
    requires Total(missing) == 0
    ensures missing == Empty(|missing|)
  {
    if missing != [] {
      TotalZero(missing[..|missing| - 1]);
      assert missing == missing[..|missing| - 1] + [missing[|missing| - 1]];
    }
  }

  // ----- the routines

  /** mad_rlc_free_lists. */
  ghost function Flushed(s: State): State {
    s.(missing := Empty(|s.missing|), lost := [], nbLate := 0, nbLost := 0, nbLateSinceSp := 0, nbLostSinceSp := 0)
  }

  /** n late packets from a sequence number on, the youngest first. */
  ghost function LateRun(from: nat, n: nat, lostTime: real): (r: seq<Late>)
    ensures |r| == n
  {
    seq(n, k requires 0 <= k < n => Late(Onward(from, n - 1 - k), lostTime))
  }

  ghost function AddLates(c: Config, s: State, layer: nat, from: nat, n: nat, now: real): State
    requires layer < |s.missing|
  {
    s.(missing := s.missing[layer := LateRun(from, n, now + Seconds(c.pktTimeout)) + s.missing[layer]],
    nbLate := s.nbLate + n, nbLateSinceSp := s.nbLateSinceSp + n)
  }

  /** Position of the first late packet with this number, or the length of the list. */
  ghost function FindLate(l: seq<Late>, nseq: SeqNum, i: nat): (p: nat)
    requires i <= |l|
    ensures i <= p <= |l| && (p < |l| ==> l[p].seqNum == nseq) && forall j :: i <= j < p ==> l[j].seqNum != nseq
    decreases |l| - i
  {
    if i < |l| && l[i].seqNum != nseq then FindLate(l, nseq, i + 1) else i
  }

  /** mad_rlc_remove_late. */
  ghost function RemoveLate(s: State, layer: nat, nseq: SeqNum): State
    requires layer < |s.missing|
  {
    var l := s.missing[layer];
    var p := FindLate(l, nseq, 0);
    if p == |l| then s
    else s.(missing := s.missing[layer := l[..p] + l[p + 1..]], nbLate := s.nbLate - 1,
         nbLateSinceSp := s.nbLateSinceSp - 1)
  }

  /** Too many losses: forget everything, drop the highest layer and go deaf. */
  ghost function Dropped(c: Config, s: State, now: real): State
    requires s.Shape()
  {
    Flushed(s).(dropHighest := true, firstPkt := s.firstPkt[s.chIds[|s.chIds| - 1] := true],
    deafWait := now + Seconds(c.deafPeriod))
  }

  ghost function Repeat(x: int, n: nat): (r: seq<int>)
    ensures |r| == n
  {
    seq(n, _ => x)
  }

  /** mad_rlc_add_lost. */
  ghost function AddLost(c: Config, s: State, now: real): State
    requires s.Shape()
  {
    if s.nbLost + 1 >= c.lossLimit then Dropped(c, s, now)
    else s.(nbLost := s.nbLost + 1, nbLostSinceSp := s.nbLostSinceSp + 1, lost := [c.lossTimeout] + s.lost)
  }

  /** The late packets that may still arrive. */
  ghost function Live(l: seq<Late>, now: real): (r: seq<Late>)
    ensures |r| <= |l|
  {
    if l == [] then []
    else
      var last := l[|l| - 1];
      Live(l[..|l| - 1], now) + if last.lostTime <= now then [] else [last]
  }

  ghost function Dead(l: seq<Late>, now: real): nat {
    |l| - |Live(l, now)|
  }

  ghost function TotalDead(missing: seq<seq<Late>>, now: real): nat {
    if missing == [] then 0
    else TotalDead(missing[..|missing| - 1], now) + Dead(missing[|missing| - 1], now)
  }

  ghost function LiveLayers(missing: seq<seq<Late>>, n: nat, now: real): (r: seq<seq<Late>>)
    requires n <= |missing|
    ensures |r| == |missing|
  {
    seq(|missing|, i requires 0 <= i < |missing| => if i < n then Live(missing[i], now) else missing[i])
  }

  /** e late packets turned out lost, and their layers hold missing afterwards. */
  ghost function Lose(c: Config, s: State, missing: seq<seq<Late>>, e: nat): State {
    s.(missing := missing, nbLate := s.nbLate - e, nbLateSinceSp := s.nbLateSinceSp - e,
    lost := Repeat(c.lossTimeout, e) + s.lost, nbLost := s.nbLost + e, nbLostSinceSp := s.nbLostSinceSp + e)
  }

  ghost predicate TooMany(c: Config, s: State, e: nat) {
    e > 0 && s.nbLost + e >= c.lossLimit
  }

  /** mad_rlc_update_late_list on the first n layers: either all expired packets become
      losses, or they are too many and everything is dropped. */
  ghost function ExpireLayers(c: Config, s: State, n: nat, now: real): State
    requires s.Shape() && n <= MAX_CHANNELS
  {
    var e := TotalDead(s.missing[..n], now);
    if TooMany(c, s, e) then Dropped(c, s, now) else Lose(c, s, LiveLayers(s.missing, n, now), e)
  }

  ghost function UpdateLate(c: Config, s: State, now: real): State
    requires s.Shape()
  {
    ExpireLayers(c, s, |s.chIds|, now)
  }

  /** One more packet has arrived: losses that are too old are forgotten. */
  ghost function Aged(lost: seq<int>): (r: seq<int>)
    ensures |r| <= |lost|
  {
    if lost == [] then []
    else
      var last := lost[|lost| - 1] - 1;
      Aged(lost[..|lost| - 1]) + if last == 0 then [] else [last]
  }

  /** mad_rlc_update_loss_list. */
  ghost function AgeLosses(s: State): State {
    s.(lost := Aged(s.lost), nbLost := s.nbLost - (|s.lost| - |Aged(s.lost)|))
  }

  /** mad_rlc_check_sequence: a packet ahead of the expected one leaves a gap of late
      packets, one behind it fills such a gap. */
  ghost function CheckSequence(c: Config, s: State, layer: nat, seqid: SeqNum, now: real): State
    requires s.Shape() && layer < MAX_CHANNELS
  {
    var w := s.waitFor[layer];
    if w == seqid then s.(waitFor := s.waitFor[layer := (seqid + 1) % SEQ_MOD])
    else if Ahead(w, seqid) then
      var n := if w < seqid then Min(seqid - w, RLC_MAX_LATES) else RLC_MAX_LATES;
      AddLates(c, s, layer, w, n, now).(waitFor := s.waitFor[layer := (seqid + 1) % SEQ_MOD])
    else RemoveLate(s, layer, seqid)
  }

  /** The packet is at most half the number space ahead. */
  ghost predicate Ahead(w: SeqNum, seqid: SeqNum) {
    var d := (seqid - w) % SEQ_MOD;
    d < SEQ_MOD / 2 || (d == SEQ_MOD / 2 && w > seqid)
  }

  /** The outcome of joining a new channel at a synchronisation point. */
  datatype Join = Refused | Joined(chId: Channel)

  /** mad_rlc_process_rx_sp; a full session joins nothing. */
  ghost function ProcessSp(c: Config, s: State, join: Join): State {
    if s.nbLostSinceSp <= c.lossAccepted && s.nbLateSinceSp <= c.lateAccepted && join.Joined?
       && |s.chIds| < MAX_CHANNELS then
      s.(nbLostSinceSp := 0, nbLateSinceSp := 0, chIds := s.chIds + [join.chId])
    else s
  }

  datatype Header = Header(reserved: nat, layer: nat, seqid: SeqNum, sp: bool)

  ghost predicate Accepted(s: State, h: Header) {
    h.reserved == 0x55 && h.layer < |s.chIds|
  }

  /** The part of mad_rlc_analyze_cci behind the list updates. */
  ghost function Sequence(c: Config, s: State, h: Header, now: real): State
    requires s.Shape() && h.layer < MAX_CHANNELS
  {
    if s.firstPkt[h.layer] then
      s.(waitFor := s.waitFor[h.layer := (h.seqid + 1) % SEQ_MOD], firstPkt := s.firstPkt[h.layer := false])
    else CheckSequence(c, s, h.layer, h.seqid, now)
  }

  ghost function SyncPoint(c: Config, s: State, h: Header, join: Join): State
    requires s.Shape() && h.layer < MAX_CHANNELS
  {
    if !h.sp || h.layer != |s.chIds| - 1 then s
    else if s.firstSp[h.layer] then s.(firstSp := s.firstSp[h.layer := false])
    else ProcessSp(c, s, join)
  }

  ghost predicate Deaf(s: State, now: real) {
    s.deafWait != 0.0 && s.deafWait > now
  }

  /** mad_rlc_analyze_cci. */
  ghost function Analyze(c: Config, s: State, h: Header, now: real, join: Join): State
    requires s.Shape()
  {
    if !Accepted(s, h) then s
    else
      ShapeUpdates(c, s, now);
      var t := Updated(c, s, now);
      if Deaf(t, now) then t.(waitFor := t.waitFor[h.layer := (h.seqid + 1) % SEQ_MOD])
      else
        ShapeSequence(c, t, h, now);
        SyncPoint(c, Sequence(c, t, h, now), h, join)
  }

  /** The list updates that every accepted packet starts with. */
  ghost function Updated(c: Config, s: State, now: real): State
    requires s.Shape()
  {
    UpdateLate(c, AgeLosses(s), now)
  }

  lemma ShapeUpdates(c: Config, s: State, now: real)
    requires s.Shape()
    ensures var t := Updated(c, s, now);
            t.Shape() && t.waitFor == s.waitFor && t.chIds == s.chIds
  {}

  lemma ShapeSequence(c: Config, s: State, h: Header, now: real)
    requires s.Shape() && h.layer < MAX_CHANNELS
    ensures Sequence(c, s, h, now).Shape()
  {}

  // ----- the invariant

  /** The counters count what the lists hold, and losses stay below the limit. */
  ghost predicate Inv(c: Config, s: State) {
    && c.Valid() && s.Shape()
    && s.nbLate == Total(s.missing)
    && s.nbLost == |s.lost| < c.lossLimit
    && (forall i :: 0 <= i < |s.lost| ==> 1 <= s.lost[i] <= c.lossTimeout)
    && s.nbLateSinceSp <= s.nbLate && (c.lateAccepted == 0 ==> s.nbLateSinceSp == s.nbLate)
    && s.nbLostSinceSp >= 0
  }

  /** Deaf receivers remember nothing. */
  ghost predicate Silent(s: State, now: real) {
    now < s.deafWait ==> s.nbLate == 0 && s.nbLost == 0
  }

  lemma TotalDeadLayer(missing: seq<seq<Late>>, n: nat, now: real)
    requires n < |missing|
    ensures TotalDead(missing[..n + 1], now) == TotalDead(missing[..n], now) + Dead(missing[n], now)
  {
    assert missing[..n + 1][..n] == missing[..n];
  }

  lemma {:induction false} TotalLive(missing: seq<seq<Late>>, n: nat, now: real)
    requires n <= |missing|
    ensures Total(LiveLayers(missing, n, now)) + TotalDead(missing[..n], now) == Total(missing)
  {
    if n == 0 {
      assert LiveLayers(missing, 0, now) == missing;
    } else {
      hide Total, TotalDead, Live;
      TotalLive(missing, n - 1, now);
      TotalDeadLayer(missing, n - 1, now);
      TotalUpdate(LiveLayers(missing, n - 1, now), n - 1, Live(missing[n - 1], now));
      assert LiveLayers(missing, n, now) == LiveLayers(missing, n - 1, now)[n - 1 := Live(missing[n - 1], now)];
    }
  }

  lemma {:induction false} AgedFacts(lost: seq<int>, limit: nat)
    requires forall i :: 0 <= i < |lost| ==> 1 <= lost[i] <= limit
    ensures forall i :: 0 <= i < |Aged(lost)| ==> 1 <= Aged(lost)[i] < limit
  {
    if lost != [] {
      AgedFacts(lost[..|lost| - 1], limit);
    }
  }

  lemma {:induction false} LiveFacts(l: seq<Late>, now: real)
    ensures forall e :: e in Live(l, now) <==> e in l && e.lostTime > now
  {
    if l != [] {
      var rest := l[..|l| - 1];
      LiveFacts(rest, now);
      assert l == rest + [l[|l| - 1]];
    }
  }

  lemma {:induction false} NothingDead(missing: seq<seq<Late>>, now: real)
    ensures TotalDead(missing, now) <= Total(missing)
  {
    if missing != [] {
      NothingDead(missing[..|missing| - 1], now);
    }
  }

  lemma {:induction false} TotalPrefix(missing: seq<seq<Late>>, n: nat)
    requires n <= |missing|
    ensures Total(missing[..n]) <= Total(missing)
  {
    if n < |missing| {
      TotalPrefix(missing[..|missing| - 1], n);
      assert missing[..|missing| - 1][..n] == missing[..n];
    } else {
      assert missing[..n] == missing;
    }
  }

  // ----- every routine keeps the invariant

  lemma AgeKeeps(c: Config, s: State)
    requires Inv(c, s)
    ensures Inv(c, AgeLosses(s))
  {
    AgedFacts(s.lost, c.lossTimeout);
    hide Aged, Total;
  }

  lemma ExpireKeeps(c: Config, s: State, now: real)
    requires Inv(c, s)
    ensures Inv(c, UpdateLate(c, s, now))
  {
    var n := |s.chIds|;
    TotalLive(s.missing, n, now);
    TotalEmpty(MAX_CHANNELS);
    hide Total, TotalDead, LiveLayers;
  }

  lemma AddLatesKeeps(c: Config, s: State, layer: nat, from: nat, n: nat, now: real)
    requires Inv(c, s) && layer < MAX_CHANNELS
    ensures Inv(c, AddLates(c, s, layer, from, n, now))
  {
    TotalUpdate(s.missing, layer, LateRun(from, n, now + Seconds(c.pktTimeout)) + s.missing[layer]);
    hide Total, LateRun;
  }

  lemma RemoveKeeps(c: Config, s: State, layer: nat, nseq: SeqNum)
    requires Inv(c, s) && layer < MAX_CHANNELS
    ensures Inv(c, RemoveLate(s, layer, nseq))
  {
    var l := s.missing[layer];
    var p := FindLate(l, nseq, 0);
    if p < |l| {
      TotalUpdate(s.missing, layer, l[..p] + l[p + 1..]);
    }
    hide Total, FindLate;
  }

  lemma SequenceKeeps(c: Config, s: State, h: Header, now: real)
    requires Inv(c, s) && h.layer < MAX_CHANNELS
    ensures Inv(c, Sequence(c, s, h, now)) && Sequence(c, s, h, now).chIds == s.chIds
    ensures Sequence(c, s, h, now).deafWait == s.deafWait
  {
    hide Total, Ahead, FindLate, LateRun;
    var w := s.waitFor[h.layer];
    var n := if w < h.seqid then Min(h.seqid - w, RLC_MAX_LATES) else RLC_MAX_LATES;
    AddLatesKeeps(c, s, h.layer, w, n, now);
    RemoveKeeps(c, s, h.layer, h.seqid);
  }

  lemma SyncKeeps(c: Config, s: State, h: Header, join: Join)
    requires Inv(c, s) && h.layer < MAX_CHANNELS
    ensures Inv(c, SyncPoint(c, s, h, join))
    ensures var t := SyncPoint(c, s, h, join); t.lost == s.lost && t.missing == s.missing && t.deafWait == s.deafWait
  {
    hide Total;
  }

  /** One packet keeps the invariant. */
  lemma AnalyzeKeeps(c: Config, s: State, h: Header, now: real, join: Join)
    requires Inv(c, s)
    ensures Inv(c, Analyze(c, s, h, now, join))
  {
    if Accepted(s, h) {
      AgeKeeps(c, s);
      ExpireKeeps(c, AgeLosses(s), now);
      var t := Updated(c, s, now);
      ShapeUpdates(c, s, now);
      SequenceKeeps(c, t, h, now);
      SyncKeeps(c, Sequence(c, t, h, now), h, join);
      hide Updated, Sequence, SyncPoint, Total;
    }
  }

  lemma SilentKeeps(c: Config, s: State, h: Header, before: real, now: real, join: Join)
    requires Inv(c, s) && Silent(s, before) && 0.0 <= before <= now
    ensures Silent(Analyze(c, s, h, now, join), now)
  {
    if Accepted(s, h) {
      NothingDead(s.missing[..|s.chIds|], now);
      TotalPrefix(s.missing, |s.chIds|);
      AgeKeeps(c, s);
      ExpireKeeps(c, AgeLosses(s), now);
      var t := Updated(c, s, now);
      ShapeUpdates(c, s, now);
      assert Silent(t, now);
      SequenceKeeps(c, t, h, now);
      SyncKeeps(c, Sequence(c, t, h, now), h, join);
      hide Updated, Sequence, SyncPoint, Total;
    }
  }

  /** No packet stays on a late list of the session beyond its time. */
  lemma ExpiredGone(c: Config, s: State, now: real, layer: nat, e: Late)
    requires s.Shape() && layer < |s.chIds|
    ensures e in Updated(c, s, now).missing[layer] ==> e.lostTime > now
  {
    LiveFacts(s.missing[layer], now);
  }

  // ----- runs

  datatype Packet = Packet(h: Header, now: real, join: Join)

  /** The receiving thread leaves the highest layer when told to, unless it is the only one. */
  ghost function Leave(s: State): State
    requires s.Shape()
  {
    if s.dropHighest && |s.chIds| != 1 then s.(dropHighest := false, chIds := s.chIds[..|s.chIds| - 1]) else s
  }

  ghost function Step(c: Config, s: State, p: Packet): State
    requires Inv(c, s)
  {
    AnalyzeKeeps(c, s, p.h, p.now, p.join);
    Leave(Analyze(c, s, p.h, p.now, p.join))
  }

  ghost function Run(c: Config, s: State, ps: seq<Packet>): (r: State)
    requires Inv(c, s)
    ensures Inv(c, r)
  {
    if ps == [] then s
    else
      StepKeeps(c, Run(c, s, ps[..|ps| - 1]), ps[|ps| - 1]);
      Step(c, Run(c, s, ps[..|ps| - 1]), ps[|ps| - 1])
  }

  lemma StepKeeps(c: Config, s: State, p: Packet)
    requires Inv(c, s)
    ensures Inv(c, Step(c, s, p))
  {
    AnalyzeKeeps(c, s, p.h, p.now, p.join);
    hide Analyze, Total;
  }

  /** init_mad_rlc at a receiver with the given channels. */
  ghost function Init(chIds: seq<Channel>): State {
    State(Empty(MAX_CHANNELS), [], 0, 0, 0, 0, seq(MAX_CHANNELS, _ => 0), seq(MAX_CHANNELS, _ => true),
          seq(MAX_CHANNELS, _ => false), 0.0, false, chIds)
  }

  lemma InitInv(c: Config, chIds: seq<Channel>)
    requires c.Valid() && 1 <= |chIds| <= MAX_CHANNELS
    ensures Inv(c, Init(chIds)) && Silent(Init(chIds), 0.0)
  {
    TotalEmpty(MAX_CHANNELS);
  }

  ghost predicate Monotone(ps: seq<Packet>, from: real) {
    && (forall i :: 0 <= i < |ps| ==> from <= ps[i].now)
    && forall i, j :: 0 <= i < j < |ps| ==> ps[i].now <= ps[j].now
  }

  ghost function Last(ps: seq<Packet>, from: real): real {
    if ps == [] then from else ps[|ps| - 1].now
  }

  /** In every reachable state: while the receiver is deaf, both lists are empty. */
  lemma {:induction false} RunSilent(c: Config, s: State, ps: seq<Packet>, from: real)
    requires Inv(c, s) && Silent(s, from) && 0.0 <= from && Monotone(ps, from)
    ensures var r := Run(c, s, ps);
            Last(ps, from) < r.deafWait ==> r.missing == Empty(MAX_CHANNELS) && r.lost == []
  {
    RunQuiet(c, s, ps, from);
    var r := Run(c, s, ps);
    if Total(r.missing) == 0 {
      TotalZero(r.missing);
    }
  }

  lemma {:induction false} RunQuiet(c: Config, s: State, ps: seq<Packet>, from: real)
    requires Inv(c, s) && Silent(s, from) && 0.0 <= from && Monotone(ps, from)
    ensures Silent(Run(c, s, ps), Last(ps, from)) && from <= Last(ps, from)
  {
    if ps != [] {
      var n := |ps| - 1;
      RunQuiet(c, s, ps[..n], from);
      var r, p := Run(c, s, ps[..n]), ps[n];
      AnalyzeKeeps(c, r, p.h, p.now, p.join);
      SilentKeeps(c, r, p.h, Last(ps[..n], from), p.now, p.join);
      hide Analyze, Inv;
    }
  }

  // ----- how long a loss counts

  /** m further packets. */
  ghost function AgedTimes(lost: seq<int>, m: nat): seq<int> {
    if m == 0 then lost else Aged(AgedTimes(lost, m - 1))
  }

  lemma {:induction false} AgedAppend(a: seq<int>, b: seq<int>)
    ensures Aged(a + b) == Aged(a) + Aged(b)
  {
    if b == [] {
      assert a + b == a;
    } else {
      hide Aged;
      var n := |b| - 1;
      AgedAppend(a, b[..n]);
      AgedOne(b[..n], b[n]);
      AgedOne(a + b[..n], b[n]);
      assert b == b[..n] + [b[n]] && a + b == (a + b[..n]) + [b[n]];
    }
  }

  lemma AgedOne(s: seq<int>, x: int)
    ensures Aged(s + [x]) == Aged(s) + if x - 1 == 0 then [] else [x - 1]
  {
    assert (s + [x])[..|s|] == s;
  }

  lemma {:induction false} AgedTimesAppend(a: seq<int>, b: seq<int>, m: nat)
    ensures AgedTimes(a + b, m) == AgedTimes(a, m) + AgedTimes(b, m)
  {
    if m > 0 {
      AgedTimesAppend(a, b, m - 1);
      AgedAppend(AgedTimes(a, m - 1), AgedTimes(b, m - 1));
    }
  }

  lemma {:induction false} AgedRepeat(x: int, n: nat)
    ensures Aged(Repeat(x, n)) == if x == 1 then [] else Repeat(x - 1, n)
  {
    if n > 0 {
      AgedRepeat(x, n - 1);
      assert Repeat(x, n)[..n - 1] == Repeat(x, n - 1);
      assert Repeat(x - 1, n) == Repeat(x - 1, n - 1) + [x - 1];
    }
  }

  /** n losses recorded together last for exactly x packets. */
  lemma {:induction false} LossesLast(x: int, n: nat, m: nat)
    requires x >= 1
    ensures AgedTimes(Repeat(x, n), m) == if m < x then Repeat(x - m, n) else []
  {
    hide Aged, Repeat;
    if m == 0 {
      assert x - 0 == x;
    } else {
      LossesLast(x, n, m - 1);
      AgedRepeat(x - m + 1, n);
    }
  }

  /** This packet makes the losses too many. */
  ghost predicate Flushes(c: Config, s: State, p: Packet)
    requires s.Shape()
  {
    Accepted(s, p.h) && TooMany(c, AgeLosses(s), TotalDead(s.missing[..|s.chIds|], p.now))
  }

  ghost predicate NoFlush(c: Config, s: State, ps: seq<Packet>)
    requires Inv(c, s)
  {
    var n := |ps| - 1;
    ps == [] || (NoFlush(c, s, ps[..n]) && !Flushes(c, Run(c, s, ps[..n]), ps[n]))
  }

  /** Number of packets of the run that are accepted. */
  ghost function CountAccepted(c: Config, s: State, ps: seq<Packet>): nat
    requires Inv(c, s)
  {
    if ps == [] then 0
    else
      var n := |ps| - 1;
      CountAccepted(c, s, ps[..n]) + if Accepted(Run(c, s, ps[..n]), ps[n].h) then 1 else 0
  }

  ghost predicate EndsWith(s: seq<int>, t: seq<int>) {
    |t| <= |s| && s[|s| - |t|..] == t
  }

  /** An accepted packet that does not flush ages every loss by one; new losses count from
      loss_timeout. */
  lemma StepLosses(c: Config, s: State, p: Packet)
    requires Inv(c, s) && !Flushes(c, s, p)
    ensures Accepted(s, p.h) ==>
              Step(c, s, p).lost == Repeat(c.lossTimeout, TotalDead(s.missing[..|s.chIds|], p.now)) + Aged(s.lost)
    ensures !Accepted(s, p.h) ==> Step(c, s, p).lost == s.lost
  {
    if Accepted(s, p.h) {
      AgeKeeps(c, s);
      ExpireKeeps(c, AgeLosses(s), p.now);
      var t := Updated(c, s, p.now);
      ShapeUpdates(c, s, p.now);
      assert t.lost == Repeat(c.lossTimeout, TotalDead(s.missing[..|s.chIds|], p.now)) + Aged(s.lost);
      SequenceLost(c, t, p.h, p.now);
      SequenceKeeps(c, t, p.h, p.now);
      SyncKeeps(c, Sequence(c, t, p.h, p.now), p.h, p.join);
      hide Updated, Sequence, SyncPoint, Total, Aged, Repeat, TotalDead;
    }
  }

  lemma SequenceLost(c: Config, s: State, h: Header, now: real)
    requires s.Shape() && h.layer < MAX_CHANNELS
    ensures Sequence(c, s, h, now).lost == s.lost
  {}

  lemma StepSuffix(c: Config, s: State, p: Packet, t: seq<int>)
    requires Inv(c, s) && !Flushes(c, s, p) && EndsWith(s.lost, t)
    ensures EndsWith(Step(c, s, p).lost, if Accepted(s, p.h) then Aged(t) else t)
  {
    StepLosses(c, s, p);
    AgeSuffix(s.lost, t, Repeat(c.lossTimeout, TotalDead(s.missing[..|s.chIds|], p.now)));
  }

  /** Unless the lists are flushed, every loss is on the lost list for exactly as many
      further packets as its remaining count. */
  lemma {:induction false} LossLifetime(c: Config, s: State, ps: seq<Packet>)
    requires Inv(c, s) && NoFlush(c, s, ps)
    ensures EndsWith(Run(c, s, ps).lost, AgedTimes(s.lost, CountAccepted(c, s, ps)))
  {
    hide Step, Inv, Aged, Flushes, Accepted, EndsWith, TotalDead, Repeat;
    if ps == [] {
      EndsWithItself(s.lost);
    } else {
      var n := |ps| - 1;
      LossLifetime(c, s, ps[..n]);
      StepSuffix(c, Run(c, s, ps[..n]), ps[n], AgedTimes(s.lost, CountAccepted(c, s, ps[..n])));
    }
  }

  lemma EndsWithItself(s: seq<int>)
    ensures EndsWith(s, s)
  {}

  lemma AgeSuffix(lost: seq<int>, t: seq<int>, recent: seq<int>)
    requires EndsWith(lost, t)
    ensures EndsWith(recent + Aged(lost), Aged(t))
  {
    var a := lost[..|lost| - |t|];
    assert lost == a + t;
    AgedAppend(a, t);
    hide Aged;
    assert recent + (Aged(a) + Aged(t)) == (recent + Aged(a)) + Aged(t);
  }

  // ----- sequence numbers

  /** Sequence number k places on. */
  function Onward(w: nat, k: nat): SeqNum { (w + k) % SEQ_MOD }

  ghost predicate InRun(w: SeqNum, n: nat, x: SeqNum) {
    exists k :: 0 <= k < n && x == Onward(w, k)
  }

  /** The packets put on the late list are exactly the missing ones only if the gap is
      within the limit, and across the wrap of the number space only if it is the limit. */
  lemma GapExact(w: SeqNum, seqid: SeqNum)
    requires w != seqid && Ahead(w, seqid)
    ensures var d := (seqid - w) % SEQ_MOD;
            var n := if w < seqid then Min(seqid - w, RLC_MAX_LATES) else RLC_MAX_LATES;
            (forall x: SeqNum :: InRun(w, n, x) <==> InRun(w, d, x))
            <==> if w < seqid then d <= RLC_MAX_LATES else d == RLC_MAX_LATES
  {
    var d := (seqid - w) % SEQ_MOD;
    var n := if w < seqid then Min(seqid - w, RLC_MAX_LATES) else RLC_MAX_LATES;
    if n < d {
      RunMember(w, n, d, n);
    } else if d < n {
      RunMember(w, d, n, d);
    }
  }

  /** Member k of a run is in no shorter one. */
  lemma RunMember(w: SeqNum, short: nat, long: nat, k: nat)
    requires short <= k < long <= SEQ_MOD
    ensures var x := Onward(w, k); InRun(w, long, x) && !InRun(w, short, x)
  {
    var x := Onward(w, k);
    assert InRun(w, long, x);
    forall j | 0 <= j < short ensures x != Onward(w, j) {
      assert 0 < k - j < SEQ_MOD;
    }
  }
}
