/** Counters, latency, ageing and victim choice of a cache level. */
module CacheLaws {
  import opened Words
  import opened Storage
  import opened Coherence
  import opened Transparency

  // ----- one request's events at the level that gets it -----

  predicate Misses(st: Store, addr: nat)
    requires st.Cache?
  {
    var b := addr / BLOCK;
    FirstHit(st.entries, SetOf(st.cfg, b), TagOf(st.cfg, b), 0) == |st.entries|
  }

  predicate AllocatingWriteMiss(st: Store, addr: nat, read: bool)
    requires st.Cache?
  {
    Misses(st, addr) && !read && st.cfg.allocate
  }

  /** The request evicts a dirty victim, which goes to the lower level. */
  predicate DirtyFlush(st: Store, addr: nat, read: bool)
    requires st.Cache?
  {
    Misses(st, addr) && (read || st.cfg.allocate) && Flushes(st, addr)
  }

  predicate Flushes(st: Store, addr: nat)
    requires st.Cache?
  {
    var s := SetOf(st.cfg, addr / BLOCK);
    && FirstFree(st.entries, s, 0) == |st.entries| && st.entries != []
    && st.entries[Victim(st.entries, s)].dirty
  }

  /** A miss is counted before it is served. */
  lemma MissKeepsCount(st: Store, addr: nat, n: nat, read: bool, content: seq<Byte>)
    requires st.Cache?
    ensures OnMiss(st, addr, n, read, content).store.stats.accessCounter == st.stats.accessCounter
  {
    var ready := if read || st.cfg.allocate then Evicted(st, SetOf(st.cfg, addr / BLOCK)) else st;
    assert ready.stats.accessCounter == st.stats.accessCounter;
    assert OnReadMiss(ready, addr, n, content).store.stats.accessCounter == ready.stats.accessCounter;
    assert OnWriteMiss(ready, addr, n, content).store.stats.accessCounter == ready.stats.accessCounter;
  }

  lemma CountedOnce(st: Store, addr: nat, n: nat, read: bool, content: seq<Byte>)
    ensures Handle(st, addr, n, read, content).store.stats.accessCounter == st.stats.accessCounter + 1
  {
    if st.Cache? {
      var b := addr / BLOCK;
      var k := FirstHit(st.entries, SetOf(st.cfg, b), TagOf(st.cfg, b), 0);
      if k < |st.entries| {
        assert OnHit(Counted(st, false), k, addr, n, read, content).store.stats.accessCounter
          == st.stats.accessCounter + 1;
      } else {
        MissKeepsCount(Counted(st, true), addr, n, read, content);
      }
    }
  }

  /** Lower accesses are fetches, plus one for an allocating write miss, plus one for a dirty
      flush; misses and fetches differ only by write-through hits. */
  lemma RequestAccounting(st: Store, addr: nat, n: nat, read: bool, content: seq<Byte>)
    requires st.Cache? && Coherent(st) && Fits(st, addr, n) && (!read ==> |content| == n)
    ensures var after := Handle(st, addr, n, read, content).store;
      && after.Cache?
      && after.lower.stats.accessCounter - st.lower.stats.accessCounter
         == after.stats.fetchNum - st.stats.fetchNum + Bit(AllocatingWriteMiss(st, addr, read))
             + Bit(DirtyFlush(st, addr, read))
      && after.stats.missNum - st.stats.missNum == Bit(Misses(st, addr))
      && after.stats.fetchNum - st.stats.fetchNum == Bit(Misses(st, addr) || (st.cfg.through && !read))
  {
    var b := addr / BLOCK;
    if Misses(st, addr) {
      var missed := Counted(st, true);
      CountedSame(st, true);
      if read || st.cfg.allocate {
        MissAccounting(missed, addr, n, read, content);
      } else {
        CountedOnce(st.lower, addr, n, false, content);
      }
    } else {
      CountedOnce(st.lower, addr, n, false, content);
    }
  }

  lemma MissAccounting(st: Store, addr: nat, n: nat, read: bool, content: seq<Byte>)
    requires st.Cache? && Coherent(st) && Absent(st.cfg, st.entries, addr / BLOCK) && (read || st.cfg.allocate)
    ensures var after := OnMiss(st, addr, n, read, content).store;
      && after.Cache?
      && after.lower.stats.accessCounter - st.lower.stats.accessCounter == 1 + Bit(!read) + Bit(Flushes(st, addr))
      && after.stats.fetchNum == st.stats.fetchNum + 1 && after.stats.missNum == st.stats.missNum
  {
    var b := addr / BLOCK;
    var s := SetOf(st.cfg, b);
    EvictedReady(st, b);
    var ready := Evicted(st, s);
    if Flushes(st, addr) {
      var e := st.entries[Victim(st.entries, s)];
      CountedOnce(st.lower, BlockOf(st.cfg, e.tag, s) * BLOCK, BLOCK, false, e.data);
    }
    if read {
      CountedOnce(ready.lower, b * BLOCK, BLOCK, true, []);
    } else {
      CountedOnce(ready.lower, addr, n, false, content);
      CountedOnce(Handle(ready.lower, addr, n, false, content).store, b * BLOCK, BLOCK, true, []);
    }
  }

  // ----- latency -----

  predicate NonNegative(st: Store) {
    st.lat.hit >= 0 && st.lat.bus >= 0 && (st.Cache? ==> NonNegative(st.lower))
  }

  /** The longest a request can take. */
  function TimeBound(st: Store): int {
    match st
    case Memory(_, lat, _) => lat.hit + lat.bus
    case Cache(_, _, lat, _, lower) => lat.bus + lat.hit + 2 * TimeBound(lower)
  }

  /** Latencies, and so the bound, never change. */
  predicate SameLatency(s: Store, t: Store) {
    t.lat == s.lat && t.Cache? == s.Cache? && (s.Cache? ==> SameLatency(s.lower, t.lower))
  }

  lemma {:induction false} LatencyTransitive(s: Store, t: Store, u: Store)
    requires SameLatency(s, t) && SameLatency(t, u)
    ensures SameLatency(s, u)
  {
    if s.Cache? {
      LatencyTransitive(s.lower, t.lower, u.lower);
    }
  }

  lemma {:induction false} SameLatencySelf(s: Store)
    ensures SameLatency(s, s)
  {
    if s.Cache? {
      SameLatencySelf(s.lower);
    }
  }

  lemma {:induction false} SameBound(s: Store, t: Store)
    requires SameLatency(s, t) && NonNegative(s)
    ensures TimeBound(t) == TimeBound(s) >= 0 && NonNegative(t)
  {
    if s.Cache? {
      SameBound(s.lower, t.lower);
    }
  }

  lemma {:induction false} EvictedLatency(st: Store, s: nat)
    requires st.Cache? && NonNegative(st)
    ensures SameLatency(st, Evicted(st, s))
    decreases Depth(st), 0
  {
    SameLatencySelf(st.lower);
    var v := if st.entries == [] then 0 else Victim(st.entries, s);
    if st.entries != [] && st.entries[v].dirty {
      var e := st.entries[v];
      Latency(st.lower, BlockOf(st.cfg, e.tag, s) * BLOCK, BLOCK, false, e.data);
    }
  }

  /** Within twice the lower bound a miss fetches at most two times. */
  lemma {:induction false} MissLatency(st: Store, addr: nat, n: nat, read: bool, content: seq<Byte>)
    requires st.Cache? && NonNegative(st)
    ensures var r := OnMiss(st, addr, n, read, content);
      SameLatency(st, r.store) && 0 <= r.time <= st.lat.bus + 2 * TimeBound(st.lower)
    decreases Depth(st), 1
  {
    var b := addr / BLOCK;
    SameLatencySelf(st.lower);
    SameBound(st.lower, st.lower);
    if read || st.cfg.allocate {
      EvictedLatency(st, SetOf(st.cfg, b));
      var ready := Evicted(st, SetOf(st.cfg, b));
      var low := ready.lower;
      SameBound(st.lower, low);
      if read {
        Latency(low, b * BLOCK, BLOCK, true, []);
        LatencyTransitive(st.lower, low, Handle(low, b * BLOCK, BLOCK, true, []).store);
        assert SameLatency(st, OnReadMiss(ready, addr, n, content).store);
      } else {
        Latency(low, addr, n, false, content);
        var put := Handle(low, addr, n, false, content).store;
        SameBound(low, put);
        Latency(put, b * BLOCK, BLOCK, true, []);
        LatencyTransitive(st.lower, low, put);
        LatencyTransitive(st.lower, put, Handle(put, b * BLOCK, BLOCK, true, []).store);
        assert SameLatency(st, OnWriteMiss(ready, addr, n, content).store);
      }
    } else {
      Latency(st.lower, addr, n, false, content);
    }
  }

  /** No request takes longer than bus + hit + twice the lower bound. */
  lemma {:induction false} Latency(st: Store, addr: nat, n: nat, read: bool, content: seq<Byte>)
    requires NonNegative(st)
    ensures var r := Handle(st, addr, n, read, content);
      SameLatency(st, r.store) && 0 <= r.time <= TimeBound(st)
    decreases Depth(st), 2
  {
    if st.Cache? {
      var b := addr / BLOCK;
      var k := FirstHit(st.entries, SetOf(st.cfg, b), TagOf(st.cfg, b), 0);
      if k < |st.entries| {
        SameLatencySelf(st.lower);
        SameBound(st.lower, st.lower);
        Latency(st.lower, addr, n, false, content);
        assert SameLatency(st, OnHit(Counted(st, false), k, addr, n, read, content).store);
      } else {
        MissLatency(Counted(st, true), addr, n, read, content);
      }
    }
  }

  /** The closed bound for the program's three levels. */
  lemma ThreeLevelBound(l1: Store, addr: nat, n: nat, read: bool, content: seq<Byte>)
    requires NonNegative(l1) && l1.Cache? && l1.lower.Cache? && l1.lower.lower.Cache? && l1.lower.lower.lower.Memory?
    ensures var l2 := l1.lower; var llc := l2.lower; var mem := llc.lower;
      Handle(l1, addr, n, read, content).time
        <= (l1.lat.bus + l1.lat.hit) + 2 * (l2.lat.bus + l2.lat.hit) + 4 * (llc.lat.bus + llc.lat.hit)
           + 8 * (mem.lat.bus + mem.lat.hit)
  {
    Latency(l1, addr, n, read, content);
    var l2 := l1.lower;
    var llc := l2.lower;
    assert TimeBound(llc) == llc.lat.bus + llc.lat.hit + 2 * TimeBound(llc.lower);
    assert TimeBound(l2) == l2.lat.bus + l2.lat.hit + 2 * TimeBound(llc);
  }

  // ----- accounting over runs of one level -----

  predicate IsRead(q: Request) { q.Read? }

  function Address(q: Request): nat { q.addr }

  function StateAfter(st: Store, qs: seq<Request>): Store {
    if qs == [] then st else Serve(StateAfter(st, qs[..|qs| - 1]), qs[|qs| - 1]).store
  }

  /** Allocating write misses and dirty flushes of a run: what fetch_num does not count. */
  function Uncounted(st: Store, qs: seq<Request>): nat {
    if qs == [] then 0 else
      var s := StateAfter(st, qs[..|qs| - 1]);
      var q := qs[|qs| - 1];
      Uncounted(st, qs[..|qs| - 1])
      + (if s.Cache?
        then Bit(AllocatingWriteMiss(s, Address(q), IsRead(q))) + Bit(DirtyFlush(s, Address(q), IsRead(q))) else 0)
  }

  lemma {:induction false} RunKept(st: Store, qs: seq<Request>)
    requires st.Cache? && Coherent(st) && forall i | 0 <= i < |qs| :: InBounds(st, qs[i])
    ensures var s := StateAfter(st, qs);
      s.Cache? && Coherent(s) && Size(s) == Size(st) && s.cfg == st.cfg
  {
    if qs != [] {
      var init, q := qs[..|qs| - 1], qs[|qs| - 1];
      RunKept(st, init);
      assert InBounds(st, q);
      var s := StateAfter(st, init);
      ServeView(s, q);
    }
  }

  /** Over any run: lower accesses are fetches plus allocating write misses plus dirty
      flushes, and a write-back level fetches exactly as often as it misses. */
  lemma {:induction false} RunAccounting(st: Store, qs: seq<Request>)
    requires st.Cache? && Coherent(st) && forall i | 0 <= i < |qs| :: InBounds(st, qs[i])
    ensures var s := StateAfter(st, qs);
      && s.Cache?
      && s.lower.stats.accessCounter - st.lower.stats.accessCounter
         == s.stats.fetchNum - st.stats.fetchNum + Uncounted(st, qs)
      && (!st.cfg.through ==> s.stats.fetchNum - st.stats.fetchNum == s.stats.missNum - st.stats.missNum)
  {
    if qs != [] {
      var init, q := qs[..|qs| - 1], qs[|qs| - 1];
      RunAccounting(st, init);
      RunKept(st, init);
      assert InBounds(st, q);
      var s := StateAfter(st, init);
      match q
      case Read(addr, n) => RequestAccounting(s, addr, n, true, []);
      case Write(addr, content) => RequestAccounting(s, addr, |content|, false, content);
    }
  }

  // ----- ageing -----

  /** What a request did to the entries: it hit or filled one, or touched none. */
  datatype Touch = Hit(k: nat) | Fill(k: nat) | Nothing

  /** The way an allocating miss fills. */
  function FilledWay(st: Store, addr: nat): nat
    requires st.Cache?
  {
    var s := SetOf(st.cfg, addr / BLOCK);
    FirstFree(Evicted(st, s).entries, s, 0)
  }

  function TouchOf(st: Store, q: Request): Touch
    requires st.Cache?
  {
    var b := Address(q) / BLOCK;
    var s := SetOf(st.cfg, b);
    var k := FirstHit(st.entries, s, TagOf(st.cfg, b), 0);
    if k < |st.entries| then Hit(k)
    else if IsRead(q) || st.cfg.allocate then
      Fill(FilledWay(st, Address(q)))
    else Nothing
  }

  function Touches(st: Store, qs: seq<Request>): seq<Touch> {
    if qs == [] then [] else
      var s := StateAfter(st, qs[..|qs| - 1]);
      Touches(st, qs[..|qs| - 1]) + [if s.Cache? then TouchOf(s, qs[|qs| - 1]) else Nothing]
  }

  /** Hits and fills of other entries since entry i was last filled. */
  function SinceFill(ts: seq<Touch>, i: nat): nat {
    if ts == [] then 0 else
      var before := ts[..|ts| - 1];
      match ts[|ts| - 1]
      case Nothing => SinceFill(before, i)
      case Hit(k) => SinceFill(before, i) + Bit(k != i)
      case Fill(k) => if k == i then 0 else SinceFill(before, i) + 1
  }

  function Min(x: nat, y: nat): nat { if x < y then x else y }

  predicate AgeLaw(es: seq<Entry>, ts: seq<Touch>) {
    forall i | 0 <= i < |es| :: es[i].valid ==> es[i].stamp == Min(99999, SinceFill(ts, i))
  }

  lemma SinceFillNext(ts: seq<Touch>, t: Touch, i: nat)
    ensures SinceFill(ts + [t], i) == match t
      case Nothing => SinceFill(ts, i)
      case Hit(k) => SinceFill(ts, i) + Bit(k != i)
      case Fill(k) => if k == i then 0 else SinceFill(ts, i) + 1
  {
    assert (ts + [t])[..|ts|] == ts;
  }

  lemma AgedLaw(es: seq<Entry>, ts: seq<Touch>, k: nat)
    requires AgeLaw(es, ts) && k < |es|
    ensures AgeLaw(Aged(es, k), ts + [Hit(k)])
  {
    forall i | 0 <= i < |es|
      ensures Aged(es, k)[i].valid ==> Aged(es, k)[i].stamp == Min(MAX_AGE, SinceFill(ts + [Hit(k)], i))
    {
      SinceFillNext(ts, Hit(k), i);
    }
  }

  lemma FilledLaw(es: seq<Entry>, ts: seq<Touch>, f: nat, tag: nat, data: seq<Byte>)
    requires AgeLaw(es, ts) && f < |es|
    ensures AgeLaw(Filled(es, f, tag, data), ts + [Fill(f)])
  {
    var fs := Filled(es, f, tag, data);
    forall i | 0 <= i < |es|
      ensures fs[i].valid ==> fs[i].stamp == Min(MAX_AGE, SinceFill(ts + [Fill(f)], i))
    {
      SinceFillNext(ts, Fill(f), i);
    }
  }

  lemma UntouchedLaw(es: seq<Entry>, ts: seq<Touch>)
    requires AgeLaw(es, ts)
    ensures AgeLaw(es, ts + [Nothing])
  {
    forall i | 0 <= i < |es|
      ensures es[i].valid ==> es[i].stamp == Min(MAX_AGE, SinceFill(ts + [Nothing], i))
    {
      SinceFillNext(ts, Nothing, i);
    }
  }

  /** A hit ages the others and leaves every valid bit and stamp otherwise alone. */
  lemma HitTouch(st: Store, addr: nat, n: nat, read: bool, content: seq<Byte>, ts: seq<Touch>)
    requires st.Cache? && AgeLaw(st.entries, ts) && !Misses(st, addr)
    ensures var b := addr / BLOCK;
      AgeLaw(Handle(st, addr, n, read, content).store.entries,
             ts + [Hit(FirstHit(st.entries, SetOf(st.cfg, b), TagOf(st.cfg, b), 0))])
  {
    var b := addr / BLOCK;
    var k := FirstHit(st.entries, SetOf(st.cfg, b), TagOf(st.cfg, b), 0);
    AgedLaw(st.entries, ts, k);
    var r := OnHit(Counted(st, false), k, addr, n, read, content);
    assert AgeLaw(r.store.entries, ts + [Hit(k)]);
  }

  lemma EvictedLaw(st: Store, s: nat, ts: seq<Touch>)
    requires st.Cache? && AgeLaw(st.entries, ts)
    ensures AgeLaw(Evicted(st, s).entries, ts)
  {
  }

  /** A fetched block goes to the first free way, as a new entry. */
  lemma FetchTouch(ready: Store, addr: nat, n: nat, read: bool, content: seq<Byte>, ts: seq<Touch>)
    requires ready.Cache? && AgeLaw(ready.entries, ts)
    requires FirstFree(ready.entries, SetOf(ready.cfg, addr / BLOCK), 0) < |ready.entries|
    ensures var r := if read then OnReadMiss(ready, addr, n, content) else OnWriteMiss(ready, addr, n, content);
      AgeLaw(r.store.entries, ts + [Fill(FirstFree(ready.entries, SetOf(ready.cfg, addr / BLOCK), 0))])
  {
    var b := addr / BLOCK;
    var f := FirstFree(ready.entries, SetOf(ready.cfg, b), 0);
    if read {
      FilledLaw(ready.entries, ts, f, TagOf(ready.cfg, b), Handle(ready.lower, b * BLOCK, BLOCK, true, []).content);
    } else {
      var put := Handle(ready.lower, addr, n, false, content).store;
      FilledLaw(ready.entries, ts, f, TagOf(ready.cfg, b), Handle(put, b * BLOCK, BLOCK, true, []).content);
    }
  }

  lemma AllocatingMissTouch(st: Store, addr: nat, n: nat, read: bool, content: seq<Byte>, ts: seq<Touch>)
    requires st.Cache? && Coherent(st) && Absent(st.cfg, st.entries, addr / BLOCK) && (read || st.cfg.allocate)
    requires AgeLaw(st.entries, ts)
    ensures AgeLaw(OnMiss(st, addr, n, read, content).store.entries, ts + [Fill(FilledWay(st, addr))])
  {
    EvictedReady(st, addr / BLOCK);
    EvictedLaw(st, SetOf(st.cfg, addr / BLOCK), ts);
    FetchTouch(Evicted(st, SetOf(st.cfg, addr / BLOCK)), addr, n, read, content, ts);
  }

  lemma MissTouch(st: Store, addr: nat, n: nat, read: bool, content: seq<Byte>, ts: seq<Touch>)
    requires st.Cache? && Coherent(st) && AgeLaw(st.entries, ts) && Misses(st, addr)
    ensures AgeLaw(Handle(st, addr, n, read, content).store.entries,
                   ts + [if read || st.cfg.allocate then Fill(FilledWay(st, addr)) else Nothing])
  {
    var missed := Counted(st, true);
    if read || st.cfg.allocate {
      CountedSame(st, true);
      AllocatingMissTouch(missed, addr, n, read, content, ts);
      assert FilledWay(missed, addr) == FilledWay(st, addr);
    } else {
      UntouchedLaw(st.entries, ts);
      assert OnMiss(missed, addr, n, read, content).store.entries == st.entries;
    }
  }

  lemma AgeLawStep(st: Store, q: Request, ts: seq<Touch>)
    requires st.Cache? && Coherent(st) && InBounds(st, q) && AgeLaw(st.entries, ts)
    ensures var r := Serve(st, q).store; r.Cache? && AgeLaw(r.entries, ts + [TouchOf(st, q)])
  {
    if Misses(st, Address(q)) {
      match q
      case Read(addr, n) => MissTouch(st, addr, n, true, [], ts);
      case Write(addr, content) => MissTouch(st, addr, |content|, false, content, ts);
    } else {
      match q
      case Read(addr, n) => HitTouch(st, addr, n, true, [], ts);
      case Write(addr, content) => HitTouch(st, addr, |content|, false, content, ts);
    }
  }

  /** The age law: after any run from a fresh level, a valid entry's time stamp is the number
      of hits and fills of other entries since its own fill, capped at 99999. An entry's own
      hits do not make it younger, so this is not least-recently-used. */
  lemma {:induction false} AgeLawAlways(st: Store, qs: seq<Request>)
    requires st.Cache? && Coherent(st) && forall i | 0 <= i < |qs| :: InBounds(st, qs[i])
    requires forall i | 0 <= i < |st.entries| :: !st.entries[i].valid
    ensures var s := StateAfter(st, qs);
      s.Cache? && AgeLaw(s.entries, Touches(st, qs))
  {
    if qs != [] {
      var init, q := qs[..|qs| - 1], qs[|qs| - 1];
      AgeLawAlways(st, init);
      RunKept(st, init);
      assert InBounds(st, q);
      AgeLawStep(StateAfter(st, init), q, Touches(st, init));
    }
  }

  // ----- the victim -----

  predicate OldestUpTo(es: seq<Entry>, s: nat, i: nat, best: nat)
    requires i <= |es| && best < |es|
  {
    && es[best].set_ == s
    && (forall j | 0 <= j < i :: es[j].set_ == s ==> es[j].stamp <= es[best].stamp)
    && (forall j | 0 <= j < best :: es[j].set_ == s ==> es[j].stamp < es[best].stamp)
  }

  lemma {:induction false} OldestIsOldest(es: seq<Entry>, s: nat, i: nat, best: nat)
    requires i <= |es| && best < |es| && OldestUpTo(es, s, i, best)
    ensures OldestUpTo(es, s, |es|, Oldest(es, s, i, best))
    decreases |es| - i
  {
    if i < |es| {
      OldestIsOldest(es, s, i + 1, if es[i].set_ == s && es[i].stamp > es[best].stamp then i else best);
    }
  }

  /** The victim is the first entry of maximal age in its set. */
  lemma VictimIsFirstOldest(es: seq<Entry>, s: nat)
    requires exists i :: 0 <= i < |es| && es[i].set_ == s
    ensures OldestUpTo(es, s, |es|, Victim(es, s))
  {
    var f := FirstOfSet(es, s, 0);
    assert f < |es|;
    OldestIsOldest(es, s, 0, f);
  }

  /** Something is evicted exactly when every way of the set is valid. */
  lemma EvictsOnlyWhenFull(st: Store, s: nat)
    requires st.Cache? && st.entries != []
    ensures Evicted(st, s).entries != st.entries || Evicted(st, s).stats != st.stats
            <==> forall i | 0 <= i < |st.entries| && st.entries[i].set_ == s :: st.entries[i].valid
  {
    var f := FirstFree(st.entries, s, 0);
    assert f < |st.entries| ==> !st.entries[f].valid;
    assert f == |st.entries| ==> forall i | 0 <= i < |st.entries| :: !Free(st.entries[i], s);
  }
}
