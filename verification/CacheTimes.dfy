/** What a request costs, to the cycle, and what the counters of a level add up to over any run: a
    hit pays for the bus and the access, a miss for the bus and what it asks of the level below, a
    write that passes by only for that. Flushing a victim costs no time. */
module CacheTimes {
  import opened Words
  import opened Storage
  import opened Coherence
  import opened Transparency
  import opened CacheLaws
  import opened CacheLevels

  /** A write that neither hits nor allocates. */
  predicate PassesBy(st: Store, q: Request)
    requires st.Cache?
  {
    Misses(st, Address(q)) && q.Write? && !st.cfg.allocate
  }

  /** The request evicts some way. */
  predicate Evicts(st: Store, q: Request)
    requires st.Cache?
  {
    && Misses(st, Address(q)) && (q.Read? || st.cfg.allocate)
    && var s := SetOf(st.cfg, Address(q) / BLOCK);
       forall i | 0 <= i < |st.entries| && st.entries[i].set_ == s :: st.entries[i].valid
  }

  /** The level below once a victim has been flushed, if there is a dirty one. */
  function BelowFlushed(st: Store, addr: nat): Store
    requires st.Cache?
  {
    StateAfter(st.lower, Flushed(st, addr))
  }

  // ----- the time of one request -----

  lemma HitTime(st: Store, q: Request)
    requires st.Cache? && !Misses(st, Address(q))
    ensures var r := Serve(st, q);
      && r.hit && r.store.Cache? && r.store.lat == st.lat
      && r.store.stats.accessTime == st.stats.accessTime + st.lat.bus + st.lat.hit
      && r.store.stats.accessCounter == st.stats.accessCounter + 1 && r.store.stats.missNum == st.stats.missNum
      && r.store.stats.replaceNum == st.stats.replaceNum
      && r.time == st.lat.bus + st.lat.hit + if q.Write? && st.cfg.through then Serve(st.lower, q).time else 0
  {
    var b := Address(q) / BLOCK;
    var k := FirstHit(st.entries, SetOf(st.cfg, b), TagOf(st.cfg, b), 0);
    match q {
      case Read(addr, n) => assert Serve(st, q) == OnHit(Counted(st, false), k, addr, n, true, []);
      case Write(addr, content) => assert Serve(st, q) == OnHit(Counted(st, false), k, addr, |content|, false, content);
    }
  }

  lemma PassTime(st: Store, q: Request)
    requires st.Cache? && PassesBy(st, q)
    ensures var r := Serve(st, q);
      && !r.hit && r.store.Cache? && r.store.lat == st.lat
      && r.store.stats.accessTime == st.stats.accessTime
      && r.store.stats.accessCounter == st.stats.accessCounter + 1 && r.store.stats.missNum == st.stats.missNum + 1
      && r.store.stats.replaceNum == st.stats.replaceNum
      && r.time == Serve(st.lower, q).time
  {
    ServeMiss(st, q.addr, |q.content|, false, q.content);
  }

  /** Making room counts a replacement exactly if nothing is free. */
  lemma EvictedStats(st: Store, s: nat)
    requires st.Cache? && st.entries != []
    ensures var full := forall i | 0 <= i < |st.entries| && st.entries[i].set_ == s :: st.entries[i].valid;
      && Evicted(st, s).stats == st.stats.(replaceNum := st.stats.replaceNum + Bit(full))
      && Evicted(st, s).lat == st.lat
  {
    var f := FirstFree(st.entries, s, 0);
    assert f < |st.entries| ==> !st.entries[f].valid;
    assert f == |st.entries| ==> forall i | 0 <= i < |st.entries| :: !Free(st.entries[i], s);
  }

  lemma ReadyStats(st: Store, q: Request) returns (ready: Store)
    requires st.Cache? && Coherent(st) && Misses(st, Address(q)) && (q.Read? || st.cfg.allocate)
    ensures ready == Evicted(Counted(st, true), SetOf(st.cfg, Address(q) / BLOCK))
    ensures ready.Cache? && ready.cfg == st.cfg
    ensures FirstFree(ready.entries, SetOf(ready.cfg, Address(q) / BLOCK), 0) < |ready.entries|
    ensures ready.lower == BelowFlushed(st, Address(q)) && ready.lat == st.lat
    ensures ready.stats == st.stats.(accessCounter := st.stats.accessCounter + 1, missNum := st.stats.missNum + 1,
                                     replaceNum := st.stats.replaceNum + Bit(Evicts(st, q)))
  {
    ready := MadeReady(st, Address(q));
    EvictedStats(Counted(st, true), SetOf(st.cfg, Address(q) / BLOCK));
  }

  /** A miss that brings a block: the bus, and the requests below in turn. */
  lemma FetchTime(st: Store, q: Request)
    requires st.Cache? && Coherent(st) && Misses(st, Address(q)) && (q.Read? || st.cfg.allocate)
    ensures var r := Serve(st, q); var low := BelowFlushed(st, Address(q)); var block := WholeBlock(Address(q));
      && !r.hit && r.store.Cache? && r.store.lat == st.lat
      && r.store.stats.accessTime == st.stats.accessTime + st.lat.bus
      && r.store.stats.accessCounter == st.stats.accessCounter + 1 && r.store.stats.missNum == st.stats.missNum + 1
      && r.store.stats.replaceNum == st.stats.replaceNum + Bit(Evicts(st, q))
      && (q.Read? ==> r.time == st.lat.bus + Serve(low, block).time)
      && (q.Write? ==> r.time == st.lat.bus + Serve(low, q).time + Serve(Serve(low, q).store, block).time)
  {
    var ready := ReadyStats(st, q);
    match q {
      case Read(addr, n) =>
        ServeMiss(st, addr, n, true, []);
        assert Serve(st, q) == OnReadMiss(ready, addr, n, []);
      case Write(addr, content) =>
        ServeMiss(st, addr, |content|, false, content);
        assert Serve(st, q) == OnWriteMiss(ready, addr, |content|, content);
    }
  }

  /** What one request costs, case by case, and whether it is reported as a hit. */
  lemma TimeExact(st: Store, q: Request)
    requires st.Cache? && Coherent(st)
    ensures var r := Serve(st, q); var low, block := BelowFlushed(st, Address(q)), WholeBlock(Address(q));
      && (r.hit <==> !Misses(st, Address(q)))
      && r.time == (if r.hit && q.Write? && st.cfg.through then st.lat.bus + st.lat.hit + Serve(st.lower, q).time
                    else if r.hit then st.lat.bus + st.lat.hit
                    else if q.Read? then st.lat.bus + Serve(low, block).time
                    else if st.cfg.allocate
                    then st.lat.bus + Serve(low, q).time + Serve(Serve(low, q).store, block).time
                    else Serve(st.lower, q).time)
  {
    if !Misses(st, Address(q)) {
      HitTime(st, q);
    } else if PassesBy(st, q) {
      PassTime(st, q);
    } else {
      FetchTime(st, q);
    }
  }

  /** At the bottom. */
  lemma MemoryTime(st: Store, q: Request)
    requires st.Memory?
    ensures var r := Serve(st, q);
      && r.hit && r.time == st.lat.bus + st.lat.hit && r.store.Memory? && r.store.lat == st.lat
      && r.store.stats.accessTime == st.stats.accessTime + st.lat.bus + st.lat.hit
      && r.store.stats.accessCounter == st.stats.accessCounter + 1 && r.store.stats.missNum == st.stats.missNum
  {
  }

  /** A read hit at the top of the program's default hierarchy (bus 0, access 1) takes one cycle; one
      that misses in two such levels and hits in a third with access 20 takes twenty. */
  lemma DefaultTimes(l1: Store, q: Request)
    requires l1.Cache? && Coherent(l1) && l1.lower.Cache? && l1.lower.lower.Cache? && q.Read?
    requires l1.lat == Latency(1, 0) && l1.lower.lat == Latency(1, 0) && l1.lower.lower.lat == Latency(20, 0)
    ensures !Misses(l1, q.addr) ==> Serve(l1, q).time == 1
    ensures var block := WholeBlock(q.addr);
      (&& Misses(l1, q.addr) && Flushed(l1, q.addr) == []
       && Misses(l1.lower, block.addr) && Flushed(l1.lower, block.addr) == []
       && !Misses(l1.lower.lower, block.addr)) ==> Serve(l1, q).time == 20
  {
    TimeExact(l1, q);
    var block := WholeBlock(q.addr);
    if Misses(l1, q.addr) && Flushed(l1, q.addr) == [] && Misses(l1.lower, block.addr)
       && Flushed(l1.lower, block.addr) == [] && !Misses(l1.lower.lower, block.addr) {
      NoneAfter(l1.lower);
      NoneAfter(l1.lower.lower);
      TimeExact(l1.lower, block);
      HitTime(l1.lower.lower, WholeBlock(block.addr));
    }
  }

  // ----- runs -----

  function Passes(st: Store, qs: seq<Request>): nat {
    if qs == [] then 0 else
      var s := StateAfter(st, qs[..|qs| - 1]);
      Passes(st, qs[..|qs| - 1]) + Bit(s.Cache? && PassesBy(s, qs[|qs| - 1]))
  }

  function Evictions(st: Store, qs: seq<Request>): nat {
    if qs == [] then 0 else
      var s := StateAfter(st, qs[..|qs| - 1]);
      Evictions(st, qs[..|qs| - 1]) + Bit(s.Cache? && Evicts(s, qs[|qs| - 1]))
  }

  function MissCount(st: Store, qs: seq<Request>): nat {
    if qs == [] then 0 else
      var s := StateAfter(st, qs[..|qs| - 1]);
      MissCount(st, qs[..|qs| - 1]) + Bit(s.Cache? && Misses(s, Address(qs[|qs| - 1])))
  }

  /** One request's share. */
  predicate Charged(st: Store, t: Store, q: Request)
    requires st.Cache?
  {
    && t.Cache? && t.lat == st.lat
    && t.stats.accessCounter == st.stats.accessCounter + 1
    && t.stats.missNum == st.stats.missNum + Bit(Misses(st, Address(q)))
    && t.stats.replaceNum == st.stats.replaceNum + Bit(Evicts(st, q))
    && t.stats.accessTime == st.stats.accessTime
       + if !Misses(st, Address(q)) then st.lat.bus + st.lat.hit else if PassesBy(st, q) then 0 else st.lat.bus
  }

  lemma RequestCharged(st: Store, q: Request)
    requires st.Cache? && Coherent(st)
    ensures Charged(st, Serve(st, q).store, q)
  {
    if !Misses(st, Address(q)) {
      HitTime(st, q);
    } else if PassesBy(st, q) {
      PassTime(st, q);
    } else {
      FetchTime(st, q);
    }
  }

  /** The counters of a level after a run: every request, every miss and every eviction once; for
      every hit the bus and the access, for every other request that does not pass by the bus. */
  predicate Accounts(st: Store, t: Store, qs: seq<Request>) {
    && t.Cache? && t.lat == st.lat
    && t.stats.accessCounter == st.stats.accessCounter + |qs|
    && t.stats.missNum == st.stats.missNum + MissCount(st, qs)
    && t.stats.replaceNum == st.stats.replaceNum + Evictions(st, qs)
    && t.stats.accessTime == st.stats.accessTime
       + (|qs| - MissCount(st, qs)) * (st.lat.bus + st.lat.hit) + (MissCount(st, qs) - Passes(st, qs)) * st.lat.bus
  }

  lemma OneMoreCharge(hits: int, fetches: int, hit: int, bus: int)
    ensures (hits + 1) * (bus + hit) + fetches * bus == hits * (bus + hit) + fetches * bus + bus + hit
    ensures hits * (bus + hit) + (fetches + 1) * bus == hits * (bus + hit) + fetches * bus + bus
  {
  }

  lemma {:induction false} TimeAccounting(st: Store, qs: seq<Request>)
    requires st.Cache? && Coherent(st) && AllInBounds(st, qs)
    ensures Accounts(st, StateAfter(st, qs), qs)
  {
    if qs != [] {
      var init, q := qs[..|qs| - 1], qs[|qs| - 1];
      BoundsFewer(st, qs);
      TimeAccounting(st, init);
      RunKept(st, init);
      RequestCharged(StateAfter(st, init), q);
      AccountsNext(st, qs);
    }
  }

  lemma AccountsNext(st: Store, qs: seq<Request>)
    requires st.Cache? && qs != [] && StateAfter(st, qs[..|qs| - 1]).Cache?
    requires var s := StateAfter(st, qs[..|qs| - 1]);
      Accounts(st, s, qs[..|qs| - 1]) && Charged(s, StateAfter(st, qs), qs[|qs| - 1])
    ensures Accounts(st, StateAfter(st, qs), qs)
  {
    var init := qs[..|qs| - 1];
    OneMoreCharge(|init| - MissCount(st, init), MissCount(st, init) - Passes(st, init), st.lat.hit, st.lat.bus);
  }

  lemma BoundsFewer(st: Store, qs: seq<Request>)
    requires AllInBounds(st, qs) && qs != []
    ensures AllInBounds(st, qs[..|qs| - 1]) && InBounds(st, qs[|qs| - 1])
  {
  }

  lemma {:induction false} MemoryAccounting(st: Store, qs: seq<Request>)
    requires st.Memory?
    ensures var t := StateAfter(st, qs);
      && t.Memory? && t.lat == st.lat && t.stats.accessCounter == st.stats.accessCounter + |qs|
      && t.stats.accessTime == st.stats.accessTime + |qs| * (st.lat.bus + st.lat.hit)
  {
    if qs != [] {
      MemoryAccounting(st, qs[..|qs| - 1]);
      MemoryTime(StateAfter(st, qs[..|qs| - 1]), qs[|qs| - 1]);
      OneMoreCharge(|qs| - 1, 0, st.lat.hit, st.lat.bus);
    }
  }

  /** So it is at every level of a chain after any run at the top, each level's requests being those
      that reach it. */
  lemma TimesEverywhere(st: Store, qs: seq<Request>, i: nat)
    requires Coherent(st) && AllInBounds(st, qs) && i <= Depth(st)
    ensures var before, after := Level(st, i), Level(StateAfter(st, qs), i);
      if i < Depth(st) then before.Cache? && Accounts(before, after, RunAt(st, qs, i))
      else before.Memory? && after.Memory?
           && after.stats.accessCounter == before.stats.accessCounter + |RunAt(st, qs, i)|
           && after.stats.accessTime
              == before.stats.accessTime + |RunAt(st, qs, i)| * (before.lat.bus + before.lat.hit)
  {
    EveryLevel(st, qs, i);
    if i < Depth(st) {
      LevelIsCache(st, i);
      TimeAccounting(Level(st, i), RunAt(st, qs, i));
    } else {
      BottomIsMemory(st, i);
      MemoryAccounting(Level(st, i), RunAt(st, qs, i));
    }
  }

  lemma {:induction false} BottomIsMemory(st: Store, i: nat)
    requires i == Depth(st)
    ensures Level(st, i).Memory?
    decreases i
  {
    if i > 0 {
      BottomIsMemory(st.lower, i - 1);
    }
  }
}
