/** What reaches the lower levels. A run at the top of a chain is, at each level below, a run of
    in-line requests of that level, so what holds of any run holds of every level. */
module CacheLevels {
  import opened Words
  import opened Storage
  import opened Coherence
  import opened Transparency
  import opened CacheLaws

  /** The dirty victim a miss sends down, if there is one. */
  function Flushed(st: Store, addr: nat): seq<Request>
    requires st.Cache?
  {
    var s := SetOf(st.cfg, addr / BLOCK);
    if !Flushes(st, addr) then [] else
      var e := st.entries[Victim(st.entries, s)];
      [Write(BlockOf(st.cfg, e.tag, s) * BLOCK, e.data)]
  }

  function WholeBlock(addr: nat): Request {
    Read(addr / BLOCK * BLOCK, BLOCK)
  }

  /** What a level asks of the one below for one request of its own. */
  function Forwards(st: Store, q: Request): seq<Request>
    requires st.Cache?
  {
    if !Misses(st, Address(q)) then (if q.Write? && st.cfg.through then [q] else [])
    else if q.Read? then Flushed(st, q.addr) + [WholeBlock(q.addr)]
    else if st.cfg.allocate then Flushed(st, q.addr) + [q, WholeBlock(q.addr)]
    else [q]
  }

  function ForwardsAll(st: Store, qs: seq<Request>): seq<Request> {
    if qs == [] then [] else
      var s := StateAfter(st, qs[..|qs| - 1]);
      ForwardsAll(st, qs[..|qs| - 1]) + (if s.Cache? then Forwards(s, qs[|qs| - 1]) else [])
  }

  ghost predicate AllInBounds(st: Store, qs: seq<Request>) {
    forall i | 0 <= i < |qs| :: InBounds(st, qs[i])
  }

  lemma {:induction false} StateAfterAppend(st: Store, ps: seq<Request>, qs: seq<Request>)
    ensures StateAfter(st, ps + qs) == StateAfter(StateAfter(st, ps), qs)
    decreases |qs|
  {
    if qs == [] {
      assert ps + qs == ps;
    } else {
      assert (ps + qs)[..|ps + qs| - 1] == ps + qs[..|qs| - 1];
      StateAfterAppend(st, ps, qs[..|qs| - 1]);
    }
  }

  lemma OneAfter(st: Store, q: Request)
    ensures StateAfter(st, [q]) == Serve(st, q).store
  {
    assert [q][..0] == [];
    assert StateAfter(st, []) == st;
  }

  lemma TwoAfter(st: Store, p: Request, q: Request)
    ensures StateAfter(st, [p, q]) == Serve(Serve(st, p).store, q).store
  {
    assert [p, q] == [p] + [q];
    StateAfterAppend(st, [p], [q]);
    OneAfter(st, p);
    OneAfter(Serve(st, p).store, q);
  }

  // ----- one request -----

  lemma NoneAfter(st: Store)
    ensures StateAfter(st, []) == st
  {
  }

  /** Making room sends down what is flushed: a whole block, in bounds. */
  lemma EvictedLower(st: Store, addr: nat)
    requires st.Cache? && Coherent(st) && Absent(st.cfg, st.entries, addr / BLOCK)
    ensures Evicted(st, SetOf(st.cfg, addr / BLOCK)).lower == StateAfter(st.lower, Flushed(st, addr))
    ensures AllInBounds(st.lower, Flushed(st, addr))
  {
    NoneAfter(st.lower);
    if Flushes(st, addr) {
      FlushedLower(st, addr, SetOf(st.cfg, addr / BLOCK));
    }
  }

  lemma FlushedLower(st: Store, addr: nat, s: nat)
    requires st.Cache? && Coherent(st) && Absent(st.cfg, st.entries, addr / BLOCK) && Flushes(st, addr)
    requires s == SetOf(st.cfg, addr / BLOCK)
    ensures Evicted(st, s).lower == StateAfter(st.lower, Flushed(st, addr)) && AllInBounds(st.lower, Flushed(st, addr))
  {
    var v := Victim(st.entries, s);
    var e := st.entries[v];
    LowBelow(addr / BLOCK, st.cfg.setNum);
    VictimInSet(st.cfg, st.entries, s);
    assert !Free(e, s);
    assert EntryOk(st.cfg, e, Size(st.lower));
    OneAfter(st.lower, Write(BlockOf(st.cfg, e.tag, s) * BLOCK, e.data));
  }

  lemma ReadMissLower(st: Store, ready: Store, addr: nat, n: nat)
    requires st.Cache? && ready.Cache? && ready.cfg == st.cfg
    requires FirstFree(ready.entries, SetOf(ready.cfg, addr / BLOCK), 0) < |ready.entries|
    requires ready.lower == StateAfter(st.lower, Flushed(st, addr))
    ensures OnReadMiss(ready, addr, n, []).store.lower == StateAfter(st.lower, Flushed(st, addr) + [WholeBlock(addr)])
  {
    StateAfterAppend(st.lower, Flushed(st, addr), [WholeBlock(addr)]);
    OneAfter(ready.lower, WholeBlock(addr));
  }

  lemma WriteMissLower(st: Store, ready: Store, addr: nat, content: seq<Byte>)
    requires st.Cache? && ready.Cache? && ready.cfg == st.cfg
    requires FirstFree(ready.entries, SetOf(ready.cfg, addr / BLOCK), 0) < |ready.entries|
    requires ready.lower == StateAfter(st.lower, Flushed(st, addr))
    ensures OnWriteMiss(ready, addr, |content|, content).store.lower
      == StateAfter(st.lower, Flushed(st, addr) + [Write(addr, content), WholeBlock(addr)])
  {
    StateAfterAppend(st.lower, Flushed(st, addr), [Write(addr, content), WholeBlock(addr)]);
    TwoAfter(ready.lower, Write(addr, content), WholeBlock(addr));
  }

  lemma MissAbsent(st: Store, addr: nat)
    requires st.Cache? && Misses(st, addr)
    ensures Absent(st.cfg, st.entries, addr / BLOCK)
  {
  }

  /** The level once room has been made for a miss. */
  lemma MadeReady(st: Store, addr: nat) returns (ready: Store)
    requires st.Cache? && Coherent(st) && Misses(st, addr)
    ensures ready == Evicted(Counted(st, true), SetOf(st.cfg, addr / BLOCK)) && ready.Cache? && ready.cfg == st.cfg
    ensures FirstFree(ready.entries, SetOf(ready.cfg, addr / BLOCK), 0) < |ready.entries|
    ensures ready.lower == StateAfter(st.lower, Flushed(st, addr)) && AllInBounds(st.lower, Flushed(st, addr))
  {
    ready := Evicted(Counted(st, true), SetOf(st.cfg, addr / BLOCK));
    MissAbsent(st, addr);
    CountedSame(st, true);
    EvictedReady(Counted(st, true), addr / BLOCK);
    EvictedLower(st, addr);
  }

  lemma ServeMiss(st: Store, addr: nat, n: nat, read: bool, content: seq<Byte>)
    requires st.Cache? && Misses(st, addr)
    ensures Handle(st, addr, n, read, content) == OnMiss(Counted(st, true), addr, n, read, content)
  {
  }

  lemma ReadMissForwards(st: Store, addr: nat, n: nat)
    requires st.Cache? && Coherent(st) && Misses(st, addr)
    ensures Handle(st, addr, n, true, []).store.lower == StateAfter(st.lower, Forwards(st, Read(addr, n)))
    ensures AllInBounds(st.lower, Flushed(st, addr))
  {
    var ready := MadeReady(st, addr);
    ServeMiss(st, addr, n, true, []);
    ReadMissLower(st, ready, addr, n);
    assert OnMiss(Counted(st, true), addr, n, true, []) == OnReadMiss(ready, addr, n, []);
  }

  lemma WriteMissForwards(st: Store, addr: nat, content: seq<Byte>)
    requires st.Cache? && Coherent(st) && Misses(st, addr) && st.cfg.allocate
    ensures Handle(st, addr, |content|, false, content).store.lower
      == StateAfter(st.lower, Forwards(st, Write(addr, content)))
    ensures AllInBounds(st.lower, Flushed(st, addr))
  {
    var ready := MadeReady(st, addr);
    ServeMiss(st, addr, |content|, false, content);
    WriteMissLower(st, ready, addr, content);
    assert OnMiss(Counted(st, true), addr, |content|, false, content) == OnWriteMiss(ready, addr, |content|, content);
  }

  lemma WriteAroundForwards(st: Store, addr: nat, content: seq<Byte>)
    requires st.Cache? && Misses(st, addr) && !st.cfg.allocate
    ensures Handle(st, addr, |content|, false, content).store.lower
      == StateAfter(st.lower, Forwards(st, Write(addr, content)))
  {
    ServeMiss(st, addr, |content|, false, content);
    OneAfter(st.lower, Write(addr, content));
  }

  lemma HitForwards(st: Store, q: Request)
    requires st.Cache? && !Misses(st, Address(q))
    ensures Serve(st, q).store.lower == StateAfter(st.lower, Forwards(st, q))
  {
    var b := Address(q) / BLOCK;
    var k := FirstHit(st.entries, SetOf(st.cfg, b), TagOf(st.cfg, b), 0);
    NoneAfter(st.lower);
    OneAfter(st.lower, q);
    match q {
      case Read(addr, n) => assert Serve(st, q) == OnHit(Counted(st, false), k, addr, n, true, []);
      case Write(addr, content) => assert Serve(st, q) == OnHit(Counted(st, false), k, addr, |content|, false, content);
    }
  }

  lemma MissBounds(st: Store, q: Request)
    requires st.Cache? && Coherent(st) && InBounds(st, q) && Misses(st, Address(q))
    requires q.Read? || st.cfg.allocate ==> AllInBounds(st.lower, Flushed(st, Address(q)))
    ensures AllInBounds(st.lower, Forwards(st, q))
  {
    WholeBlockFits(st, Address(q), if q.Read? then q.n else |q.content|);
    assert InBounds(st.lower, WholeBlock(Address(q)));
  }

  lemma HitBounds(st: Store, q: Request)
    requires st.Cache? && InBounds(st, q) && !Misses(st, Address(q))
    ensures AllInBounds(st.lower, Forwards(st, q))
  {
  }

  lemma MissForwards(st: Store, q: Request)
    requires st.Cache? && Coherent(st) && Misses(st, Address(q))
    ensures Serve(st, q).store.lower == StateAfter(st.lower, Forwards(st, q))
    ensures q.Read? || st.cfg.allocate ==> AllInBounds(st.lower, Flushed(st, Address(q)))
  {
    match q {
      case Read(addr, n) => ReadMissForwards(st, addr, n);
      case Write(addr, content) =>
        if st.cfg.allocate {
          WriteMissForwards(st, addr, content);
        } else {
          WriteAroundForwards(st, addr, content);
        }
    }
  }

  /** One request: the level below serves what is forwarded, all of it in line. */
  lemma ForwardsServed(st: Store, q: Request)
    requires st.Cache? && Coherent(st) && InBounds(st, q)
    ensures var s := Serve(st, q).store;
      s.Cache? && s.lower == StateAfter(st.lower, Forwards(st, q)) && AllInBounds(st.lower, Forwards(st, q))
  {
    if Misses(st, Address(q)) {
      MissForwards(st, q);
      MissBounds(st, q);
    } else {
      HitForwards(st, q);
      HitBounds(st, q);
    }
  }

  // ----- runs -----

  lemma SameBounds(s: Store, t: Store, qs: seq<Request>)
    requires AllInBounds(s, qs) && Size(t) == Size(s)
    ensures AllInBounds(t, qs)
  {
    forall i | 0 <= i < |qs|
      ensures InBounds(t, qs[i])
    {
      assert InBounds(s, qs[i]);
    }
  }

  lemma BoundsAppend(st: Store, ps: seq<Request>, qs: seq<Request>)
    requires AllInBounds(st, ps) && AllInBounds(st, qs)
    ensures AllInBounds(st, ps + qs)
  {
  }

  /** A run of one level is a run of in-line requests of the level below. */
  lemma {:induction false} LowerRun(st: Store, qs: seq<Request>)
    requires st.Cache? && Coherent(st) && AllInBounds(st, qs)
    ensures var s := StateAfter(st, qs);
      s.Cache? && s.lower == StateAfter(st.lower, ForwardsAll(st, qs)) && AllInBounds(st.lower, ForwardsAll(st, qs))
  {
    if qs == [] {
      NoneAfter(st.lower);
    } else {
      var init, q := qs[..|qs| - 1], qs[|qs| - 1];
      LowerRun(st, init);
      RunKept(st, init);
      var s := StateAfter(st, init);
      assert InBounds(st, q);
      ForwardsServed(s, q);
      SameBounds(s.lower, st.lower, Forwards(s, q));
      BoundsAppend(st.lower, ForwardsAll(st, init), Forwards(s, q));
      StateAfterAppend(st.lower, ForwardsAll(st, init), Forwards(s, q));
    }
  }

  // ----- every level -----

  /** Level i from the top. */
  function Level(st: Store, i: nat): Store {
    if i == 0 || st.Memory? then st else Level(st.lower, i - 1)
  }

  /** What a run at the top makes level i serve. */
  function RunAt(st: Store, qs: seq<Request>, i: nat): seq<Request> {
    if i == 0 || st.Memory? then qs else RunAt(st.lower, ForwardsAll(st, qs), i - 1)
  }

  /** After any run at the top every level is as its own run of in-line requests leaves it. */
  lemma {:induction false} EveryLevel(st: Store, qs: seq<Request>, i: nat)
    requires Coherent(st) && AllInBounds(st, qs) && i <= Depth(st)
    ensures Coherent(Level(st, i)) && AllInBounds(Level(st, i), RunAt(st, qs, i))
    ensures Level(StateAfter(st, qs), i) == StateAfter(Level(st, i), RunAt(st, qs, i))
    decreases i
  {
    if i > 0 {
      LowerRun(st, qs);
      LowerCoherent(st);
      EveryLevel(st.lower, ForwardsAll(st, qs), i - 1);
      assert Level(StateAfter(st, qs), i) == Level(StateAfter(st, qs).lower, i - 1);
      assert RunAt(st, qs, i) == RunAt(st.lower, ForwardsAll(st, qs), i - 1);
    }
  }

  lemma LowerCoherent(st: Store)
    requires st.Cache? && Coherent(st)
    ensures Coherent(st.lower)
  {
  }

  lemma {:induction false} LevelIsCache(st: Store, i: nat)
    requires i < Depth(st)
    ensures Level(st, i).Cache?
    decreases i
  {
    if i > 0 {
      LevelIsCache(st.lower, i - 1);
    }
  }

  /** Accounting at every level of the chain after any run at the top: lower accesses are fetches
      plus allocating write misses plus dirty flushes, and at a write-back level fetches grow
      with misses. */
  lemma AccountingEverywhere(st: Store, qs: seq<Request>, i: nat)
    requires Coherent(st) && AllInBounds(st, qs) && i < Depth(st)
    ensures var before, after := Level(st, i), Level(StateAfter(st, qs), i);
      && before.Cache? && after.Cache?
      && after.lower.stats.accessCounter - before.lower.stats.accessCounter
         == after.stats.fetchNum - before.stats.fetchNum + Uncounted(before, RunAt(st, qs, i))
      && (!before.cfg.through ==>
        after.stats.fetchNum - before.stats.fetchNum == after.stats.missNum - before.stats.missNum)
  {
    EveryLevel(st, qs, i);
    LevelIsCache(st, i);
    RunAccounting(Level(st, i), RunAt(st, qs, i));
  }

  /** The age law at every level, whose touches are those of its own requests. */
  lemma AgesEverywhere(st: Store, qs: seq<Request>, i: nat)
    requires Fresh(st) && AllInBounds(st, qs) && i < Depth(st)
    ensures var after := Level(StateAfter(st, qs), i);
      after.Cache? && AgeLaw(after.entries, Touches(Level(st, i), RunAt(st, qs, i)))
  {
    FreshCoherent(st);
    EveryLevel(st, qs, i);
    LevelIsCache(st, i);
    LevelFresh(st, i);
    AgeLawAlways(Level(st, i), RunAt(st, qs, i));
  }

  lemma {:induction false} LevelFresh(st: Store, i: nat)
    requires Fresh(st)
    ensures Fresh(Level(st, i))
    decreases i
  {
    if i > 0 && st.Cache? {
      LevelFresh(st.lower, i - 1);
    }
  }
}
