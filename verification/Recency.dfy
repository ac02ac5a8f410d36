/** Which way the replacement policy evicts, in terms of the run, and how that relates to recency of
    use: the first way for which the time of its fill and its own hits since are least together. So
    a hit buys a way one step, whenever it comes, where least-recently-used would start it anew. */
module Recency {
  import opened Storage
  import opened CacheLaws

  /** Touches of other entries since entry i was last hit or filled: the larger, the less
      recently used. */
  function SinceUse(ts: seq<Touch>, i: nat): nat {
    if ts == [] then 0 else
      var before := ts[..|ts| - 1];
      match ts[|ts| - 1]
      case Nothing => SinceUse(before, i)
      case Hit(k) => if k == i then 0 else SinceUse(before, i) + 1
      case Fill(k) => if k == i then 0 else SinceUse(before, i) + 1
  }

  /** Touches of other entries between the last fill of entry i and its last use. */
  function Between(ts: seq<Touch>, i: nat): nat {
    if ts == [] then 0 else
      var before := ts[..|ts| - 1];
      match ts[|ts| - 1]
      case Nothing => Between(before, i)
      case Hit(k) => if k == i then SinceFill(before, i) else Between(before, i)
      case Fill(k) => if k == i then 0 else Between(before, i)
  }

  /** What a time stamp counts is the time since the last use and that before it. */
  lemma {:induction false} AgeSplits(ts: seq<Touch>, i: nat)
    ensures SinceFill(ts, i) == Between(ts, i) + SinceUse(ts, i)
  {
    if ts != [] {
      AgeSplits(ts[..|ts| - 1], i);
    }
  }

  predicate Way(es: seq<Entry>, s: nat, i: nat) {
    i < |es| && es[i].set_ == s
  }

  /** No way of the set has gone unused for longer. */
  ghost predicate LeastRecent(es: seq<Entry>, ts: seq<Touch>, s: nat, v: nat) {
    forall j: nat :: Way(es, s, j) ==> SinceUse(ts, j) <= SinceUse(ts, v)
  }

  ghost predicate FullSet(es: seq<Entry>, s: nat) {
    (exists i: nat :: Way(es, s, i)) && forall i: nat :: Way(es, s, i) ==> es[i].valid
  }

  lemma VictimOldest(es: seq<Entry>, s: nat, j: nat)
    requires FullSet(es, s) && Way(es, s, j)
    ensures Way(es, s, Victim(es, s)) && es[j].stamp <= es[Victim(es, s)].stamp
    ensures j < Victim(es, s) ==> es[j].stamp < es[Victim(es, s)].stamp
  {
    VictimIsFirstOldest(es, s);
  }

  // ----- the victim in terms of the run -----

  /** Touches of any entry. */
  function Clock(ts: seq<Touch>): nat {
    if ts == [] then 0 else Clock(ts[..|ts| - 1]) + (if ts[|ts| - 1].Nothing? then 0 else 1)
  }

  /** When entry i was last filled. */
  function FilledAt(ts: seq<Touch>, i: nat): nat {
    if ts == [] then 0
    else if ts[|ts| - 1] == Fill(i) then Clock(ts)
    else FilledAt(ts[..|ts| - 1], i)
  }

  /** Its own hits since then. */
  function OwnHits(ts: seq<Touch>, i: nat): nat {
    if ts == [] then 0
    else if ts[|ts| - 1] == Fill(i) then 0
    else OwnHits(ts[..|ts| - 1], i) + (if ts[|ts| - 1] == Hit(i) then 1 else 0)
  }

  function Rank(ts: seq<Touch>, i: nat): nat {
    FilledAt(ts, i) + OwnHits(ts, i)
  }

  lemma {:induction false} AgeIsRank(ts: seq<Touch>, i: nat)
    ensures SinceFill(ts, i) + Rank(ts, i) == Clock(ts)
  {
    if ts != [] {
      AgeIsRank(ts[..|ts| - 1], i);
    }
  }

  /** The first way of the set whose fill time and own hits are least together. */
  ghost predicate FirstLeast(es: seq<Entry>, ts: seq<Touch>, s: nat, v: nat) {
    && Way(es, s, v)
    && (forall j: nat :: Way(es, s, j) ==> Rank(ts, v) <= Rank(ts, j))
    && (forall j: nat :: Way(es, s, j) && j < v ==> Rank(ts, v) < Rank(ts, j))
  }

  lemma StampIsRank(es: seq<Entry>, ts: seq<Touch>, s: nat, j: nat)
    requires FullSet(es, s) && AgeLaw(es, ts) && Way(es, s, j)
    ensures es[j].stamp < MAX_AGE ==> es[j].stamp == Clock(ts) - Rank(ts, j)
    ensures es[j].stamp <= MAX_AGE
  {
    AgeIsRank(ts, j);
  }

  /** The victim of a full set, below the cap on ages. */
  lemma VictimExact(es: seq<Entry>, ts: seq<Touch>, s: nat, v: nat)
    requires FullSet(es, s) && AgeLaw(es, ts) && es[Victim(es, s)].stamp < MAX_AGE
    ensures v == Victim(es, s) <==> FirstLeast(es, ts, s, v)
  {
    var w := Victim(es, s);
    var i: nat :| Way(es, s, i);
    VictimOldest(es, s, i);
    StampIsRank(es, ts, s, w);
    forall j: nat | Way(es, s, j)
      ensures Rank(ts, w) <= Rank(ts, j) && (j < w ==> Rank(ts, w) < Rank(ts, j))
    {
      VictimOldest(es, s, j);
      StampIsRank(es, ts, s, j);
    }
    assert FirstLeast(es, ts, s, w);
    OnlyOneFirst(es, ts, s, v, w);
  }

  lemma OnlyOneFirst(es: seq<Entry>, ts: seq<Touch>, s: nat, v: nat, w: nat)
    requires FirstLeast(es, ts, s, w)
    ensures FirstLeast(es, ts, s, v) ==> v == w
  {
  }

  // ----- recency -----

  lemma {:induction false} UnhitUse(ts: seq<Touch>, i: nat)
    requires OwnHits(ts, i) == 0
    ensures Between(ts, i) == 0
  {
    if ts != [] && ts[|ts| - 1] != Fill(i) {
      UnhitUse(ts[..|ts| - 1], i);
    }
  }

  /** While no way of the set has been hit since it was filled, first in, first out is
      least-recently-used. */
  lemma UnhitIsLRU(es: seq<Entry>, ts: seq<Touch>, s: nat)
    requires FullSet(es, s) && AgeLaw(es, ts) && es[Victim(es, s)].stamp < MAX_AGE
    requires forall j: nat :: Way(es, s, j) ==> OwnHits(ts, j) == 0
    ensures LeastRecent(es, ts, s, Victim(es, s))
  {
    var v := Victim(es, s);
    VictimExact(es, ts, s, v);
    forall j: nat | Way(es, s, j)
      ensures SinceUse(ts, j) <= SinceUse(ts, v)
    {
      UnhitUse(ts, j);
      UnhitUse(ts, v);
      AgeSplits(ts, j);
      AgeSplits(ts, v);
      AgeIsRank(ts, j);
      AgeIsRank(ts, v);
    }
  }

  /** The entries after a hit on way i, which is then the most recently used one. */
  lemma HitAges(es: seq<Entry>, ts: seq<Touch>, s: nat, i: nat)
    requires FullSet(es, s) && AgeLaw(es, ts) && Way(es, s, i)
    ensures FullSet(Aged(es, i), s) && AgeLaw(Aged(es, i), ts + [Hit(i)])
    ensures SinceUse(ts + [Hit(i)], i) == 0
    ensures forall j: nat :: Way(Aged(es, i), s, j) <==> Way(es, s, j)
  {
    AgedLaw(es, ts, i);
    assert (ts + [Hit(i)])[..|ts|] == ts;
    assert forall j: nat :: Way(Aged(es, i), s, j) <==> Way(es, s, j);
    var w: nat :| Way(es, s, w);
    assert Way(Aged(es, i), s, w);
  }

  lemma RankAfterHit(ts: seq<Touch>, i: nat, j: nat)
    ensures Rank(ts + [Hit(i)], j) == Rank(ts, j) + if j == i then 1 else 0
  {
    assert (ts + [Hit(i)])[..|ts|] == ts;
  }

  /** The way just hit is nevertheless the next victim exactly if it is first even with the step
      that the hit adds. */
  lemma HitDoesNotSave(es: seq<Entry>, ts: seq<Touch>, s: nat, i: nat)
    requires FullSet(es, s) && AgeLaw(es, ts) && Way(es, s, i)
    requires forall j: nat :: Way(es, s, j) ==> es[j].stamp + 1 < MAX_AGE
    ensures Victim(Aged(es, i), s) == i <==>
      forall j: nat :: Way(es, s, j) && j != i ==> Rank(ts, i) + 1 <= Rank(ts, j) - if j < i then 1 else 0
  {
    var fs, us := Aged(es, i), ts + [Hit(i)];
    HitAges(es, ts, s, i);
    VictimOldest(fs, s, i);
    VictimExact(fs, us, s, i);
    forall j: nat
      ensures Rank(us, j) == Rank(ts, j) + if j == i then 1 else 0
    {
      RankAfterHit(ts, i, j);
    }
  }

  /** At the cap the choice ignores use altogether: the first way that has reached it goes. */
  lemma SaturatedVictim(es: seq<Entry>, ts: seq<Touch>, s: nat, j: nat)
    requires FullSet(es, s) && AgeLaw(es, ts) && Way(es, s, j) && es[j].stamp == MAX_AGE
    ensures es[Victim(es, s)].stamp == MAX_AGE && Victim(es, s) <= j
  {
    VictimOldest(es, s, j);
    assert es[Victim(es, s)].stamp <= MAX_AGE;
  }

  /** With one way to a set there is nothing to choose. */
  lemma OneWay(es: seq<Entry>, ts: seq<Touch>, s: nat)
    requires FullSet(es, s) && forall i: nat, j: nat :: Way(es, s, i) && Way(es, s, j) ==> i == j
    ensures LeastRecent(es, ts, s, Victim(es, s))
  {
    var w: nat :| Way(es, s, w);
    VictimOldest(es, s, w);
  }
}
