/** A run on any fresh level with two or more ways to a set after which the next miss evicts the
    most recently used way: one read for each way, then the first block once more. So a level
    replaces least-recently-used exactly if there is nothing to choose. */
module RecencyExample {
  import opened Words
  import opened Storage
  import opened Coherence
  import opened Transparency
  import opened CacheLaws
  import opened Recency
  import opened Division

  /** The block of set 0 with tag j. */
  function Block(cfg: Config, j: nat): nat {
    BlockOf(cfg, j, 0)
  }

  lemma {:induction false} JoinHighLow(h: nat, s: nat)
    ensures High(Join(h, 0, s), s) == h && Low(Join(h, 0, s), s) == 0
  {
    if s > 0 {
      JoinHighLow(h, s - 1);
      assert Join(h, 0, s) == 2 * Join(h, 0, s - 1);
    }
  }

  lemma BlockSplits(cfg: Config, j: nat)
    ensures SetOf(cfg, Block(cfg, j)) == 0 && TagOf(cfg, Block(cfg, j)) == j
  {
    JoinHighLow(j, Log2(cfg.setNum));
  }

  function ReadBlock(cfg: Config, j: nat): Request {
    Read(Block(cfg, j) * BLOCK, BLOCK)
  }

  function FillRun(cfg: Config, j: nat): seq<Request> {
    if j == 0 then [] else FillRun(cfg, j - 1) + [ReadBlock(cfg, j - 1)]
  }

  function FillTouches(n: nat, j: nat): seq<Touch> {
    if j == 0 then [] else FillTouches(n, j - 1) + [Fill((j - 1) * n)]
  }

  // ----- the ways of set 0 -----

  /** Entry i of a level whose first j ways of set 0 hold the blocks with tags 0 to j - 1. */
  predicate Slot(es: seq<Entry>, n: nat, j: nat, i: nat)
    requires i < |es| && n > 0
  {
    es[i].set_ == i % n && (i % n == 0 ==> (es[i].valid <==> i / n < j) && (es[i].valid ==> es[i].tag == i / n))
  }

  predicate FilledTo(es: seq<Entry>, n: nat, j: nat)
    requires n > 0
  {
    forall i | 0 <= i < |es| :: Slot(es, n, j, i)
  }

  lemma NextIsFree(es: seq<Entry>, n: nat, j: nat)
    requires n > 0 && FilledTo(es, n, j) && j * n < |es|
    ensures FirstHit(es, 0, j, 0) == |es| && FirstFree(es, 0, 0) == j * n
  {
    var h := FirstHit(es, 0, j, 0);
    assert h < |es| ==> Slot(es, n, j, h);
    DivModUnique(j * n, n, j, 0);
    assert Slot(es, n, j, j * n);
    assert Free(es[j * n], 0);
    var f := FirstFree(es, 0, 0);
    assert Slot(es, n, j, f);
    MultipleOrder(f, j, n);
  }

  lemma OneMoreFilled(es: seq<Entry>, n: nat, j: nat, data: seq<Byte>)
    requires n > 0 && FilledTo(es, n, j) && j * n < |es|
    ensures FilledTo(Filled(es, j * n, j, data), n, j + 1)
  {
    var fs := Filled(es, j * n, j, data);
    DivModUnique(j * n, n, j, 0);
    var next := j + 1;
    forall i | 0 <= i < |fs|
      ensures Slot(fs, n, next, i)
    {
      assert Slot(es, n, j, i);
      if i % n == 0 {
        MultipleOrder(i, j, n);
      }
    }
  }

  // ----- the run -----

  /** The level after j reads. */
  ghost predicate Reached(st: Store, s: Store, j: nat)
    requires st.Cache? && st.cfg.setNum > 0
  {
    && s.Cache? && Coherent(s) && Size(s) == Size(st) && s.cfg == st.cfg && |s.entries| == |st.entries|
    && FilledTo(s.entries, st.cfg.setNum, j)
  }

  lemma FillStep(st: Store, s: Store, j: nat)
    requires st.Cache? && st.cfg.setNum > 0 && Reached(st, s, j) && j * st.cfg.setNum < |st.entries|
    requires InBounds(st, ReadBlock(st.cfg, j))
    ensures Reached(st, Serve(s, ReadBlock(st.cfg, j)).store, j + 1)
    ensures TouchOf(s, ReadBlock(st.cfg, j)) == Fill(j * st.cfg.setNum)
  {
    var n, b := st.cfg.setNum, Block(st.cfg, j);
    BlockSplits(st.cfg, j);
    assert b * BLOCK / BLOCK == b;
    NextIsFree(s.entries, n, j);
    var missed := Counted(s, true);
    assert Evicted(missed, 0) == missed && Evicted(s, 0) == s;
    var r := OnReadMiss(missed, b * BLOCK, BLOCK, []);
    var low := Handle(missed.lower, b * BLOCK, BLOCK, true, []);
    assert r.store.entries == Filled(s.entries, j * n, j, low.content);
    assert OnMiss(missed, b * BLOCK, BLOCK, true, []) == r;
    assert Serve(s, ReadBlock(st.cfg, j)).store == r.store;
    OneMoreFilled(s.entries, n, j, low.content);
    ServeView(s, ReadBlock(st.cfg, j));
  }

  lemma {:induction false} FillRunInBounds(st: Store, cfg: Config, j: nat)
    requires forall i: nat | i < j :: InBounds(st, ReadBlock(cfg, i))
    ensures |FillRun(cfg, j)| == j && forall i | 0 <= i < j :: InBounds(st, FillRun(cfg, j)[i])
  {
    if j > 0 {
      FillRunInBounds(st, cfg, j - 1);
    }
  }

  lemma RunEndsWith(st: Store, qs: seq<Request>, q: Request)
    requires st.Cache? && StateAfter(st, qs).Cache?
    ensures StateAfter(st, qs + [q]) == Serve(StateAfter(st, qs), q).store
    ensures Touches(st, qs + [q]) == Touches(st, qs) + [TouchOf(StateAfter(st, qs), q)]
  {
    assert (qs + [q])[..|qs + [q]| - 1] == qs;
  }

  lemma Inside(j: nat, n: nat, size: nat)
    requires j * n < size
    ensures j > 0 ==> (j - 1) * n < size
  {
    assert j > 0 ==> j * n == (j - 1) * n + n;
  }

  lemma {:induction false} FillRunReached(st: Store, j: nat)
    requires st.Cache? && Fresh(st) && Coherent(st) && (j > 0 ==> (j - 1) * st.cfg.setNum < |st.entries|)
    requires forall i: nat | i < j :: InBounds(st, ReadBlock(st.cfg, i))
    ensures Reached(st, StateAfter(st, FillRun(st.cfg, j)), j)
    ensures Touches(st, FillRun(st.cfg, j)) == FillTouches(st.cfg.setNum, j)
  {
    if j > 0 {
      var m := j - 1;
      Inside(m, st.cfg.setNum, |st.entries|);
      FillRunReached(st, m);
      FillStep(st, StateAfter(st, FillRun(st.cfg, m)), m);
      RunEndsWith(st, FillRun(st.cfg, m), ReadBlock(st.cfg, m));
    }
  }

  // ----- ages after the run -----

  lemma {:induction false} SinceFillOfRun(n: nat, m: nat, w: nat)
    requires n > 0 && w < m
    ensures SinceFill(FillTouches(n, m), w * n) == m - 1 - w
  {
    var ts := FillTouches(n, m);
    assert ts[..|ts| - 1] == FillTouches(n, m - 1);
    DivModUnique(w * n, n, w, 0);
    MultipleOrder(w * n, m - 1, n);
    if w < m - 1 {
      SinceFillOfRun(n, m - 1, w);
    }
  }

  /** The touches of the whole run: each way filled, then the first one hit. */
  function AllTouches(n: nat, ways: nat): seq<Touch> {
    FillTouches(n, ways) + [Hit(0)]
  }

  lemma AgesOfRun(n: nat, ways: nat, w: nat)
    requires n > 0 && w < ways
    ensures SinceFill(AllTouches(n, ways), w * n) == if w == 0 then ways - 1 else ways - w
    ensures SinceUse(AllTouches(n, ways), 0) == 0 && (w > 0 ==> SinceUse(AllTouches(n, ways), w * n) > 0)
  {
    var ts := AllTouches(n, ways);
    assert ts[..|ts| - 1] == FillTouches(n, ways);
    SinceFillOfRun(n, ways, w);
    MultipleOrder(w * n, 1, n);
    DivModUnique(w * n, n, w, 0);
    assert w > 0 ==> w * n != 0;
  }

  /** Entry 0 is as old as any way of its set, so it is the victim, being the first. */
  lemma FirstIsVictim(es: seq<Entry>, n: nat, ways: nat)
    requires n > 0 && ways > 0 && |es| == ways * n && FilledTo(es, n, ways) && AgeLaw(es, AllTouches(n, ways))
    ensures FullSet(es, 0) && Victim(es, 0) == 0
    ensures forall i: nat :: Way(es, 0, i) && i != 0 ==> SinceUse(AllTouches(n, ways), i) > 0
  {
    assert Slot(es, n, ways, 0);
    assert Way(es, 0, 0);
    forall i: nat | Way(es, 0, i)
      ensures es[i].valid && es[i].stamp <= es[0].stamp
      ensures i != 0 ==> SinceUse(AllTouches(n, ways), i) > 0
    {
      assert Slot(es, n, ways, i) && Slot(es, n, ways, 0);
      MultipleOrder(i, ways, n);
      MultipleOrder(i, i / n, n);
      AgesOfRun(n, ways, i / n);
      AgesOfRun(n, ways, 0);
    }
    VictimOldest(es, 0, 0);
    VictimOldest(es, 0, Victim(es, 0));
  }

  lemma HitTouchesFirst(st: Store, s: Store, ways: nat)
    requires st.Cache? && st.cfg.setNum > 0 && Reached(st, s, ways) && 0 < ways && |st.entries| > 0
    requires InBounds(st, ReadBlock(st.cfg, 0))
    ensures TouchOf(s, ReadBlock(st.cfg, 0)) == Hit(0) && Reached(st, Serve(s, ReadBlock(st.cfg, 0)).store, ways)
  {
    var b := Block(st.cfg, 0);
    BlockSplits(st.cfg, 0);
    assert b * BLOCK / BLOCK == b;
    assert Slot(s.entries, st.cfg.setNum, ways, 0);
    assert FirstHit(s.entries, 0, 0, 0) == 0;
    var r := OnHit(Counted(s, false), 0, b * BLOCK, BLOCK, true, []);
    assert r.store.entries == Aged(s.entries, 0);
    assert Serve(s, ReadBlock(st.cfg, 0)).store == r.store;
    forall i | 0 <= i < |s.entries|
      ensures Slot(r.store.entries, st.cfg.setNum, ways, i)
    {
      assert Slot(s.entries, st.cfg.setNum, ways, i);
    }
    ServeView(s, ReadBlock(st.cfg, 0));
  }

  /** The whole run. */
  function Refill(cfg: Config, ways: nat): seq<Request> {
    FillRun(cfg, ways) + [ReadBlock(cfg, 0)]
  }

  lemma LastWayInside(ways: nat, n: nat)
    requires ways > 0 && n > 0
    ensures (ways - 1) * n < ways * n && ways * n >= n
  {
    assert ways * n == (ways - 1) * n + n;
  }

  lemma RefillReached(st: Store, ways: nat)
    requires st.Cache? && Fresh(st) && Coherent(st) && ways > 0 && |st.entries| == ways * st.cfg.setNum
    requires forall i: nat | i < ways :: InBounds(st, ReadBlock(st.cfg, i))
    ensures var qs := Refill(st.cfg, ways);
      && Reached(st, StateAfter(st, qs), ways) && Touches(st, qs) == AllTouches(st.cfg.setNum, ways)
      && forall i | 0 <= i < |qs| :: InBounds(st, qs[i])
  {
    var qs := Refill(st.cfg, ways);
    LastWayInside(ways, st.cfg.setNum);
    FillRunInBounds(st, st.cfg, ways);
    FillRunReached(st, ways);
    RunEndsWith(st, FillRun(st.cfg, ways), ReadBlock(st.cfg, 0));
    HitTouchesFirst(st, StateAfter(st, FillRun(st.cfg, ways)), ways);
  }

  lemma SecondWay(es: seq<Entry>, n: nat, ways: nat)
    requires n > 0 && ways >= 2 && |es| == ways * n && FilledTo(es, n, ways)
    ensures Way(es, 0, n)
  {
    assert ways * n == (ways - 2) * n + 2 * n;
    assert (ways - 2) * n >= 0;
    DivModUnique(n, n, 1, 0);
    assert Slot(es, n, ways, n);
  }

  /** On every fresh level with at least two ways to a set: after the run set 0 is full, its next
      victim is entry 0, the one just read, and every other way has gone unused for longer. */
  lemma EvictsMostRecent(st: Store, ways: nat)
    requires st.Cache? && Fresh(st) && ways >= 2 && |st.entries| == ways * st.cfg.setNum
    requires forall i: nat | i < ways :: InBounds(st, ReadBlock(st.cfg, i))
    ensures var qs := Refill(st.cfg, ways); var s := StateAfter(st, qs); var ts := Touches(st, qs);
      && s.Cache? && AgeLaw(s.entries, ts) && FullSet(s.entries, 0) && Victim(s.entries, 0) == 0
      && SinceUse(ts, 0) == 0 && (forall i: nat :: Way(s.entries, 0, i) && i != 0 ==> SinceUse(ts, i) > 0)
      && !LeastRecent(s.entries, ts, 0, 0)
  {
    var qs := Refill(st.cfg, ways);
    FreshCoherent(st);
    RefillReached(st, ways);
    AgeLawAlways(st, qs);
    FirstIsVictim(StateAfter(st, qs).entries, st.cfg.setNum, ways);
    SecondWay(StateAfter(st, qs).entries, st.cfg.setNum, ways);
    AgesOfRun(st.cfg.setNum, ways, 0);
  }

  // ----- which levels replace the least recently used way -----

  /** The number of entries never changes. */
  lemma MissCount(st: Store, addr: nat, n: nat, read: bool, content: seq<Byte>)
    requires st.Cache?
    ensures var r := OnMiss(st, addr, n, read, content).store; r.Cache? && |r.entries| == |st.entries|
  {
    assert |Evicted(st, SetOf(st.cfg, addr / BLOCK)).entries| == |st.entries|;
  }

  lemma HandleCount(st: Store, addr: nat, n: nat, read: bool, content: seq<Byte>)
    requires st.Cache?
    ensures var r := Handle(st, addr, n, read, content).store; r.Cache? && |r.entries| == |st.entries|
  {
    MissCount(Counted(st, true), addr, n, read, content);
  }

  lemma ServeCount(st: Store, q: Request)
    requires st.Cache?
    ensures Serve(st, q).store.Cache? && |Serve(st, q).store.entries| == |st.entries|
  {
    match q
    case Read(addr, n) => HandleCount(st, addr, n, true, []);
    case Write(addr, content) => HandleCount(st, addr, |content|, false, content);
  }

  lemma {:induction false} RunCount(st: Store, qs: seq<Request>)
    requires st.Cache?
    ensures StateAfter(st, qs).Cache? && |StateAfter(st, qs).entries| == |st.entries|
  {
    if qs != [] {
      RunCount(st, qs[..|qs| - 1]);
      ServeCount(StateAfter(st, qs[..|qs| - 1]), qs[|qs| - 1]);
    }
  }

  ghost predicate VictimIsLRU(es: seq<Entry>, ts: seq<Touch>, s: nat) {
    FullSet(es, s) ==> LeastRecent(es, ts, s, Victim(es, s))
  }

  ghost predicate AllIn(st: Store, qs: seq<Request>) {
    forall i | 0 <= i < |qs| :: InBounds(st, qs[i])
  }

  /** After the run, the next victim of a set that is full is its least recently used way. */
  ghost predicate LRUAfter(st: Store, qs: seq<Request>, s: nat) {
    st.Cache? && StateAfter(st, qs).Cache? && VictimIsLRU(StateAfter(st, qs).entries, Touches(st, qs), s)
  }

  ghost predicate AlwaysLRU(st: Store) {
    forall qs: seq<Request>, s: nat :: AllIn(st, qs) ==> LRUAfter(st, qs, s)
  }

  lemma OneWaySet(cfg: Config, es: seq<Entry>, ts: seq<Touch>, s: nat)
    requires Numbered(cfg, es) && |es| == cfg.setNum
    ensures VictimIsLRU(es, ts, s)
  {
    forall i: nat, j: nat | Way(es, s, i) && Way(es, s, j)
      ensures i == j
    {
      DivModUnique(i, cfg.setNum, 0, i);
      DivModUnique(j, cfg.setNum, 0, j);
    }
    if FullSet(es, s) {
      OneWay(es, ts, s);
    }
  }

  lemma OneWayIsLRU(st: Store, qs: seq<Request>, s: nat)
    requires st.Cache? && Fresh(st) && |st.entries| == st.cfg.setNum && AllIn(st, qs)
    ensures LRUAfter(st, qs, s)
  {
    FreshCoherent(st);
    RunKept(st, qs);
    RunCount(st, qs);
    OneWaySet(st.cfg, StateAfter(st, qs).entries, Touches(st, qs), s);
  }

  lemma MoreWaysNotLRU(st: Store, ways: nat)
    requires st.Cache? && Fresh(st) && ways >= 2 && |st.entries| == ways * st.cfg.setNum
    requires forall i: nat | i < ways :: InBounds(st, ReadBlock(st.cfg, i))
    ensures AllIn(st, Refill(st.cfg, ways)) && !LRUAfter(st, Refill(st.cfg, ways), 0)
  {
    FreshCoherent(st);
    RefillReached(st, ways);
    EvictsMostRecent(st, ways);
  }

  /** A fresh level whose lower memory holds a block for each way always replaces the least
      recently used way exactly if its sets have one way. */
  lemma LRUExact(st: Store, ways: nat)
    requires st.Cache? && Fresh(st) && ways > 0 && |st.entries| == ways * st.cfg.setNum
    requires forall i: nat | i < ways :: InBounds(st, ReadBlock(st.cfg, i))
    ensures AlwaysLRU(st) <==> ways == 1
  {
    if ways == 1 {
      forall qs: seq<Request>, s: nat | AllIn(st, qs)
        ensures LRUAfter(st, qs, s)
      {
        OneWayIsLRU(st, qs, s);
      }
    } else {
      MoreWaysNotLRU(st, ways);
    }
  }
}
