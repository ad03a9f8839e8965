/** shuffle: move the received source packets to their own positions, in place. */
module Shuffle {
  import opened Field
  import FieldLaws

  /** perm says where each entry comes from. */
  ghost predicate IsPermutation(perm: seq<nat>, k: nat) {
    && |perm| == k
    && (forall i :: 0 <= i < k ==> perm[i] < k)
    && (forall i, j :: 0 <= i < j < k ==> perm[i] != perm[j])
  }

  ghost predicate Rearranged<T>(now: seq<T>, was: seq<T>, perm: seq<nat>) {
    && |now| == |was| && IsPermutation(perm, |was|)
    && forall i :: 0 <= i < |now| ==> now[i] == was[perm[i]]
  }

  ghost predicate HasSourceDuplicate(index: seq<nat>) {
    exists i, j :: 0 <= i < j < |index| && index[i] == index[j] < |index|
  }

  /** Entries that are not at their own position. */
  ghost function Misplaced(index: seq<nat>): (s: set<nat>)
  {
    set i: nat | i < |index| && index[i] != i
  }

  lemma SwapPlaces(index: seq<nat>, i: nat, c: nat)
    requires i < |index| && c < |index| && index[i] == c != i && index[c] != c
    ensures |Misplaced(index[i := index[c]][c := index[i]])| < |Misplaced(index)|
  {
    var index' := index[i := index[c]][c := index[i]];
    assert c in Misplaced(index) && c !in Misplaced(index');
    assert Misplaced(index') <= Misplaced(index) - {c};
    Subset(Misplaced(index'), Misplaced(index) - {c});
  }

  lemma {:induction false} Subset(a: set<nat>, b: set<nat>)
    requires a <= b
    ensures |a| <= |b|
  {
    if a != {} {
      var x :| x in a;
      Subset(a - {x}, b - {x});
    }
  }

  lemma RearrangedSwap<T>(now: seq<T>, was: seq<T>, perm: seq<nat>, i: nat, c: nat)
    requires Rearranged(now, was, perm) && i < |now| && c < |now| && i != c
    ensures Rearranged(now[i := now[c]][c := now[i]], was, perm[i := perm[c]][c := perm[i]])
  {}

  /** A duplicate survives rearranging, both ways. */
  lemma DuplicateMoves(now: seq<nat>, was: seq<nat>, perm: seq<nat>)
    requires Rearranged(now, was, perm) && HasSourceDuplicate(now)
    ensures HasSourceDuplicate(was)
  {
    var i, j :| 0 <= i < j < |now| && now[i] == now[j] < |now|;
    if perm[i] < perm[j] {
      assert was[perm[i]] == was[perm[j]];
    } else {
      assert was[perm[j]] == was[perm[i]];
    }
  }

  /** The inverse of a permutation of n distinct numbers below n. */
  lemma DuplicateMovesBack(now: seq<nat>, was: seq<nat>, perm: seq<nat>)
    requires Rearranged(now, was, perm) && HasSourceDuplicate(was)
    ensures HasSourceDuplicate(now)
  {
    var i, j :| 0 <= i < j < |was| && was[i] == was[j] < |was|;
    var i' := Preimage(perm, i);
    var j' := Preimage(perm, j);
    if i' < j' {
      assert now[i'] == now[j'];
    } else {
      assert now[j'] == now[i'];
    }
  }

  /** A permutation hits every position. */
  lemma Preimage(perm: seq<nat>, v: nat) returns (i: nat)
    requires IsPermutation(perm, |perm|) && v < |perm|
    ensures i < |perm| && perm[i] == v
  {
    var s := seq(|perm|, i requires 0 <= i < |perm| => perm[i] + 1);
    FieldLaws.Pigeonhole(s, v + 1);
    i :| 0 <= i < |s| && s[i] == v + 1;
  }

  ghost predicate SettledBelow(index: seq<nat>, n: nat) {
    forall i :: 0 <= i < n <= |index| ==> index[i] >= |index| || index[i] == i
  }

  /** The state of the loop of shuffle. */
  ghost predicate Shuffled<T>(index: seq<nat>, pkt: seq<T>, index0: seq<nat>, pkt0: seq<T>, perm: seq<nat>, i: nat) {
    && i <= |index| && SettledBelow(index, i)
    && Rearranged(index, index0, perm) && Rearranged(pkt, pkt0, perm)
  }

  lemma ShuffledSwap<T>(index: seq<nat>, pkt: seq<T>, index0: seq<nat>, pkt0: seq<T>, perm: seq<nat>, i: nat, c: nat)
    requires Shuffled(index, pkt, index0, pkt0, perm, i) && |index| == |pkt|
    requires i < |index| && c < |index| && index[i] == c != i && index[c] != c
    ensures Shuffled(index[i := index[c]][c := c], pkt[i := pkt[c]][c := pkt[i]], index0, pkt0,
                     perm[i := perm[c]][c := perm[i]], i)
    ensures |Misplaced(index[i := index[c]][c := c])| < |Misplaced(index)|
  {
    SwapPlaces(index, i, c);
    RearrangedSwap(index, index0, perm, i, c);
    RearrangedSwap(pkt, pkt0, perm, i, c);
  }

  method Shuffle(pkt: array<array<gf>>, index: array<nat>, k: nat) returns (r: int, ghost perm: seq<nat>)
    requires pkt.Length == index.Length == k
    modifies pkt, index
    ensures r == 0 || r == 1
    ensures r == 1 <==> HasSourceDuplicate(old(index[..]))
    ensures Rearranged(index[..], old(index[..]), perm) && Rearranged(pkt[..], old(pkt[..]), perm)
    ensures r == 0 ==> SettledBelow(index[..], k)
  {
    hide Rearranged, HasSourceDuplicate, Misplaced;
    ghost var index0, pkt0 := index[..], pkt[..];
    perm := seq(k, i => i);
    SelfRearranged(index0, perm);
    SelfRearranged(pkt0, perm);
    var i := 0;
    while i < k
      invariant Shuffled(index[..], pkt[..], index0, pkt0, perm, i) && |perm| == k
      decreases |Misplaced(index[..])|, k - i
    {
      if index[i] >= k || index[i] == i {
        i := i + 1;
      } else {
        var c := index[i];
        if index[c] == c {
          Conflict(index[..], i, c);
          DuplicateMoves(index[..], index0, perm);
          return 1, perm;
        }
        hide Shuffled;
        ShuffledSwap(index[..], pkt[..], index0, pkt0, perm, i, c);
        perm := perm[i := perm[c]][c := perm[i]];
        index[i], index[c] := index[c], index[i];
        pkt[i], pkt[c] := pkt[c], pkt[i];
      }
    }
    NoDuplicate(index[..], index0, perm);
    r := 0;
  }

  lemma SelfRearranged<T>(s: seq<T>, perm: seq<nat>)
    requires perm == seq(|s|, i => i)
    ensures Rearranged(s, s, perm)
  {}

  lemma NoDuplicate(now: seq<nat>, was: seq<nat>, perm: seq<nat>)
    requires Rearranged(now, was, perm) && SettledBelow(now, |now|)
    ensures !HasSourceDuplicate(was)
  {
    if HasSourceDuplicate(was) {
      DuplicateMovesBack(now, was, perm);
    }
  }

  lemma Conflict(index: seq<nat>, i: nat, c: nat)
    requires i < |index| && c < |index| && index[i] == c && index[c] == c && i != c
    ensures HasSourceDuplicate(index)
  {
    if i < c {
      assert index[i] == index[c];
    } else {
      assert index[c] == index[i];
    }
  }
}
