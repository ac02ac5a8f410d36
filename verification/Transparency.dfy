/** Every request to a coherent hierarchy keeps it coherent and does to its view exactly what
    a flat memory would do, for any number of levels and any write policies. */
module Transparency {
  import opened Words
  import opened Storage
  import opened Coherence

  // ----- written blocks -----

  lemma WrittenBlock(s: Store, t: Store, addr: nat, content: seq<Byte>, b: nat)
    requires Written(s, t, addr, content) && b == addr / BLOCK && addr % BLOCK + |content| <= BLOCK
    ensures SameOutside(s, t, b)
  {
  }

  lemma WrittenWhole(s: Store, t: Store, b: nat, content: seq<Byte>)
    requires Written(s, t, b * BLOCK, content) && |content| == BLOCK
    ensures SameOutside(s, t, b) && ShowsBlock(t, b, content)
  {
    WrittenBlock(s, t, b * BLOCK, content, b);
  }

  /** Block b of s with content patched in is what a write leaves. */
  lemma PatchedIsWritten(s: Store, t: Store, addr: nat, content: seq<Byte>, data: seq<Byte>)
    requires addr % BLOCK + |content| <= BLOCK
    requires ShowsBlock(s, addr / BLOCK, data) && ShowsBlock(t, addr / BLOCK, Patch(data, addr % BLOCK, content))
    requires SameOutside(s, t, addr / BLOCK)
    ensures Written(s, t, addr, content)
  {
    var b := addr / BLOCK;
    forall a: nat
      ensures Look(t, a) == if addr <= a < addr + |content| then content[a - addr] else Look(s, a)
    {
      if a / BLOCK == b {
        var j := a % BLOCK;
        assert a == b * BLOCK + j;
        assert Patch(data, addr % BLOCK, content)[j] == Look(t, b * BLOCK + j);
        assert data[j] == Look(s, b * BLOCK + j);
      }
    }
  }

  lemma WrittenIsPatched(s: Store, t: Store, addr: nat, content: seq<Byte>, data: seq<Byte>)
    requires addr % BLOCK + |content| <= BLOCK
    requires ShowsBlock(s, addr / BLOCK, data) && Written(s, t, addr, content)
    ensures ShowsBlock(t, addr / BLOCK, Patch(data, addr % BLOCK, content))
  {
    var b := addr / BLOCK;
    forall j: nat | j < BLOCK
      ensures Patch(data, addr % BLOCK, content)[j] == Look(t, b * BLOCK + j)
    {
      assert data[j] == Look(s, b * BLOCK + j);
    }
  }

  lemma SliceIsShown(s: Store, addr: nat, n: nat, data: seq<Byte>)
    requires addr % BLOCK + n <= BLOCK && ShowsBlock(s, addr / BLOCK, data)
    ensures Slice(data, addr % BLOCK, n) == Shown(s, addr, n)
  {
    var b, off := addr / BLOCK, addr % BLOCK;
    assert addr == b * BLOCK + off;
    forall i | 0 <= i < n
      ensures data[off + i] == Shown(s, addr, n)[i]
    {
      var j: nat := off + i;
      assert data[j] == Look(s, b * BLOCK + j);
    }
    assert Slice(data, off, n) == data[off..off + n];
  }

  /** The entry found by a look-up holds what the storage shows of its block. */
  lemma HitShows(st: Store, k: nat, b: nat)
    requires st.Cache? && Coherent(st) && k < |st.entries| && Names(st.cfg, st.entries[k], b)
    ensures ShowsBlock(st, b, st.entries[k].data)
  {
    assert EntryOk(st.cfg, st.entries[k], Size(st.lower));
    forall j: nat | j < BLOCK
      ensures st.entries[k].data[j] == Look(st, b * BLOCK + j)
    {
      LookHit(st, k, b * BLOCK + j);
    }
  }

  // ----- the memory at the bottom -----

  lemma MemoryCorrect(st: Store, addr: nat, n: nat, read: bool, content: seq<Byte>)
    requires st.Memory? && Coherent(st) && Fits(st, addr, n) && (!read ==> |content| == n)
    ensures Correct(st, addr, n, read, content, Handle(st, addr, n, read, content))
  {
    var r := Handle(st, addr, n, read, content);
    if read {
      forall i | 0 <= i < n
        ensures r.content[i] == Shown(st, addr, n)[i]
      {
        assert Look(st, addr + i) == st.bytes[addr + i];
      }
    }
  }

  // ----- eviction -----

  lemma {:induction false} OldestStays(es: seq<Entry>, s: nat, i: nat, best: nat)
    requires i <= |es| && best < |es| && es[best].set_ == s
    ensures es[Oldest(es, s, i, best)].set_ == s
    decreases |es| - i
  {
    if i < |es| {
      OldestStays(es, s, i + 1, if es[i].set_ == s && es[i].stamp > es[best].stamp then i else best);
    }
  }

  lemma SmallMod(x: nat, d: nat)
    requires x < d
    ensures x % d == x
  {
  }

  /** The victim is a way of the requested set. */
  lemma VictimInSet(cfg: Config, es: seq<Entry>, s: nat)
    requires Numbered(cfg, es) && s < cfg.setNum
    ensures es[Victim(es, s)].set_ == s
  {
    assert es[s].set_ == s by {
      SmallMod(s, cfg.setNum);
    }
    var f := FirstOfSet(es, s, 0);
    OldestStays(es, s, 0, f);
  }

  ghost predicate Ready(st: Store, r: Store, b: nat) {
    && st.Cache? && r.Cache? && r.cfg == st.cfg && Coherent(r) && SameView(st, r) && Absent(r.cfg, r.entries, b)
    && FirstFree(r.entries, SetOf(r.cfg, b), 0) < |r.entries|
  }

  /** After the replacement algorithm the set has a free way and nothing else has changed. */
  lemma {:induction false} EvictedReady(st: Store, b: nat)
    requires st.Cache? && Coherent(st) && Absent(st.cfg, st.entries, b)
    ensures Ready(st, Evicted(st, SetOf(st.cfg, b)), b)
    decreases Depth(st), 1
  {
    var s := SetOf(st.cfg, b);
    var r := Evicted(st, s);
    if FirstFree(st.entries, s, 0) == |st.entries| {
      LowBelow(b, st.cfg.setNum);
      VictimInSet(st.cfg, st.entries, s);
      var v := Victim(st.entries, s);
      var e := st.entries[v];
      assert !Free(e, s);
      assert EntryOk(st.cfg, e, Size(st.lower)) && EntryClean(st.cfg, e, st.lower);
      if e.dirty {
        var c := BlockNumber(st.cfg, e);
        HandleCorrect(st.lower, c * BLOCK, BLOCK, false, e.data);
        WrittenWhole(st.lower, r.lower, c, e.data);
      }
      DropLook(st, v, r.lower, r);
      assert Free(r.entries[v], s);
    }
  }

  // ----- hits -----

  lemma AgedSame(es: seq<Entry>, k: nat)
    ensures SameButStamps(es, Aged(es, k))
  {
  }

  lemma {:induction false} HitCorrect(st: Store, k: nat, addr: nat, n: nat, read: bool, content: seq<Byte>)
    requires st.Cache? && Coherent(st) && Fits(st, addr, n) && (!read ==> |content| == n)
    requires k < |st.entries| && Names(st.cfg, st.entries[k], addr / BLOCK)
    ensures Correct(st, addr, n, read, content, OnHit(st, k, addr, n, read, content))
    decreases Depth(st), 3
  {
    var b := addr / BLOCK;
    var r := OnHit(st, k, addr, n, read, content);
    var mid := st.(entries := Aged(st.entries, k));
    AgedSame(st.entries, k);
    StampsDoNotMatter(st, mid);
    HitShows(st, k, b);
    if read {
      StampsDoNotMatter(st, r.store);
      SliceIsShown(st, addr, n, st.entries[k].data);
    } else {
      HitWrite(mid, k, addr, content, r.store);
    }
  }

  /** The write half of a hit, on the aged cache. */
  lemma {:induction false} HitWrite(st: Store, k: nat, addr: nat, content: seq<Byte>, st': Store)
    requires st.Cache? && Coherent(st) && Fits(st, addr, |content|)
    requires k < |st.entries| && Names(st.cfg, st.entries[k], addr / BLOCK)
    requires st'.Cache? && st'.cfg == st.cfg
    requires var e := st.entries[k];
      st'.entries == st.entries[k := e.(data := Patch(e.data, addr % BLOCK, content), dirty := !st.cfg.through)]
    requires st'.lower == if st.cfg.through then Handle(st.lower, addr, |content|, false, content).store else st.lower
    ensures Coherent(st') && Written(st, st', addr, content)
    decreases Depth(st), 1
  {
    var b := addr / BLOCK;
    var e := st'.entries[k];
    HitShows(st, k, b);
    assert EntryOk(st.cfg, st.entries[k], Size(st.lower)) && EntryClean(st.cfg, st.entries[k], st.lower);
    NamesIsBlockNumber(st.cfg, st.entries[k], b);
    if st.cfg.through {
      HandleCorrect(st.lower, addr, |content|, false, content);
      WrittenBlock(st.lower, st'.lower, addr, content, b);
      WrittenIsPatched(st.lower, st'.lower, addr, content, st.entries[k].data);
    }
    forall i | 0 <= i < |st.entries| && i != k
      ensures !Names(st.cfg, st.entries[i], b)
    {
      assert if i < k then Apart(st.entries[i], st.entries[k]) else Apart(st.entries[k], st.entries[i]);
    }
    ReplaceLook(st, k, e, st'.lower, b, st');
    PatchedIsWritten(st, st', addr, content, st.entries[k].data);
  }

  // ----- misses -----

  /** Installing in a free way the block the lower level now shows. */
  lemma Install(st: Store, b: nat, t: Store, data: seq<Byte>, st': Store)
    requires st.Cache? && Coherent(st) && Absent(st.cfg, st.entries, b) && b * BLOCK + BLOCK <= Size(st)
    requires FirstFree(st.entries, SetOf(st.cfg, b), 0) < |st.entries|
    requires Coherent(t) && SameOutside(st.lower, t, b) && ShowsBlock(t, b, data)
    requires st'.Cache? && st'.cfg == st.cfg && st'.lower == t
    requires st'.entries == Filled(st.entries, FirstFree(st.entries, SetOf(st.cfg, b), 0), TagOf(st.cfg, b), data)
    ensures Coherent(st') && SameOutside(st, st', b) && ShowsBlock(st', b, data)
  {
    var f := FirstFree(st.entries, SetOf(st.cfg, b), 0);
    var e := st.entries[f].(tag := TagOf(st.cfg, b), stamp := 0, data := data, valid := true, dirty := false);
    var mid := st.(entries := st.entries[f := e], lower := t);
    ReplaceLook(st, f, e, t, b, mid);
    AgedSame(mid.entries, f);
    StampsDoNotMatter(mid, st');
  }

  lemma WholeBlockFits(st: Store, addr: nat, n: nat)
    requires Coherent(st) && Fits(st, addr, n)
    ensures Fits(st, addr / BLOCK * BLOCK, BLOCK)
  {
    SizeAligned(st);
  }

  lemma ShownIsBlock(s: Store, t: Store, b: nat)
    requires SameView(s, t)
    ensures ShowsBlock(t, b, Shown(s, b * BLOCK, BLOCK))
  {
  }

  lemma ShownBlockUnique(s: Store, b: nat, x: seq<Byte>, y: seq<Byte>)
    requires ShowsBlock(s, b, x) && ShowsBlock(s, b, y)
    ensures x == y
  {
    forall j: nat | j < BLOCK
      ensures x[j] == y[j]
    {
      assert x[j] == Look(s, b * BLOCK + j);
    }
  }

  lemma SameByBlock(s: Store, t: Store, b: nat, data: seq<Byte>)
    requires SameOutside(s, t, b) && ShowsBlock(s, b, data) && ShowsBlock(t, b, data)
    ensures SameView(s, t)
  {
    forall a: nat
      ensures Look(t, a) == Look(s, a)
    {
      if a / BLOCK == b {
        assert a == b * BLOCK + a % BLOCK;
        assert data[a % BLOCK] == Look(s, b * BLOCK + a % BLOCK);
        assert data[a % BLOCK] == Look(t, b * BLOCK + a % BLOCK);
      }
    }
  }

  /** A block no entry names is shown as the lower level shows it. */
  lemma MissShows(st: Store, b: nat, data: seq<Byte>)
    requires st.Cache? && Absent(st.cfg, st.entries, b) && ShowsBlock(st.lower, b, data)
    ensures ShowsBlock(st, b, data)
  {
    forall j: nat | j < BLOCK
      ensures data[j] == Look(st, b * BLOCK + j)
    {
      InBlock(b, j);
      LookMiss(st, b * BLOCK + j);
      assert data[j] == Look(st.lower, b * BLOCK + j);
    }
  }

  lemma {:induction false} ReadMissCorrect(st: Store, addr: nat, n: nat, content: seq<Byte>)
    requires st.Cache? && Coherent(st) && Fits(st, addr, n) && Absent(st.cfg, st.entries, addr / BLOCK)
    requires FirstFree(st.entries, SetOf(st.cfg, addr / BLOCK), 0) < |st.entries|
    ensures Correct(st, addr, n, true, content, OnReadMiss(st, addr, n, content))
    decreases Depth(st), 1
  {
    var b := addr / BLOCK;
    WholeBlockFits(st, addr, n);
    HandleCorrect(st.lower, b * BLOCK, BLOCK, true, []);
    var low := Handle(st.lower, b * BLOCK, BLOCK, true, []);
    var r := OnReadMiss(st, addr, n, content);
    ShownIsBlock(st.lower, low.store, b);
    Install(st, b, low.store, low.content, r.store);
    ShownIsBlock(st.lower, st.lower, b);
    MissShows(st, b, low.content);
    SameByBlock(st, r.store, b, low.content);
    SliceIsShown(st, addr, n, low.content);
  }

  lemma {:induction false} WriteMissCorrect(st: Store, addr: nat, content: seq<Byte>)
    requires st.Cache? && Coherent(st) && Fits(st, addr, |content|) && Absent(st.cfg, st.entries, addr / BLOCK)
    requires FirstFree(st.entries, SetOf(st.cfg, addr / BLOCK), 0) < |st.entries|
    ensures Correct(st, addr, |content|, false, content, OnWriteMiss(st, addr, |content|, content))
    decreases Depth(st), 1
  {
    var b := addr / BLOCK;
    WholeBlockFits(st, addr, |content|);
    HandleCorrect(st.lower, addr, |content|, false, content);
    var put := Handle(st.lower, addr, |content|, false, content);
    WrittenBlock(st.lower, put.store, addr, content, b);
    HandleCorrect(put.store, b * BLOCK, BLOCK, true, []);
    var got := Handle(put.store, b * BLOCK, BLOCK, true, []);
    ShownIsBlock(put.store, got.store, b);
    var r := OnWriteMiss(st, addr, |content|, content);
    Install(st, b, got.store, got.content, r.store);
    WriteMissShows(st, addr, content, put.store, got.content);
    PatchedIsWritten(st, r.store, addr, content, Shown(st, b * BLOCK, BLOCK));
  }

  /** The block that comes back is the old one with the bytes written. */
  lemma WriteMissShows(st: Store, addr: nat, content: seq<Byte>, put: Store, got: seq<Byte>)
    requires st.Cache? && addr % BLOCK + |content| <= BLOCK && Absent(st.cfg, st.entries, addr / BLOCK)
    requires Written(st.lower, put, addr, content) && got == Shown(put, addr / BLOCK * BLOCK, BLOCK)
    ensures got == Patch(Shown(st, addr / BLOCK * BLOCK, BLOCK), addr % BLOCK, content)
    ensures ShowsBlock(st, addr / BLOCK, Shown(st, addr / BLOCK * BLOCK, BLOCK))
  {
    var b := addr / BLOCK;
    var was := Shown(st.lower, b * BLOCK, BLOCK);
    ShownIsBlock(st.lower, st.lower, b);
    ShownIsBlock(put, put, b);
    ShownIsBlock(st, st, b);
    MissShows(st, b, was);
    ShownBlockUnique(st, b, was, Shown(st, b * BLOCK, BLOCK));
    WrittenIsPatched(st.lower, put, addr, content, was);
    ShownBlockUnique(put, b, got, Patch(was, addr % BLOCK, content));
  }

  lemma {:induction false} WriteAroundCorrect(st: Store, addr: nat, content: seq<Byte>, t: Store, st': Store)
    requires st.Cache? && Coherent(st) && Fits(st, addr, |content|) && Absent(st.cfg, st.entries, addr / BLOCK)
    requires Coherent(t) && Written(st.lower, t, addr, content)
    requires st'.Cache? && st'.cfg == st.cfg && st'.entries == st.entries && st'.lower == t
    ensures Coherent(st') && Written(st, st', addr, content)
  {
    var b := addr / BLOCK;
    WrittenBlock(st.lower, t, addr, content, b);
    LowerOnly(st, t, b, st');
    forall a: nat
      ensures Look(st', a) == if addr <= a < addr + |content| then content[a - addr] else Look(st, a)
    {
      if a / BLOCK == b {
        LookMiss(st, a);
      }
    }
  }

  // ----- the theorem -----

  /** Any request: the hierarchy stays coherent, a read returns the bytes shown and changes
      none of them, a write changes exactly the bytes written. */
  lemma {:induction false} HandleCorrect(st: Store, addr: nat, n: nat, read: bool, content: seq<Byte>)
    requires Coherent(st) && Fits(st, addr, n) && (!read ==> |content| == n)
    ensures Correct(st, addr, n, read, content, Handle(st, addr, n, read, content))
    decreases Depth(st), 5
  {
    if st.Memory? {
      MemoryCorrect(st, addr, n, read, content);
    } else {
      CacheCorrect(st, addr, n, read, content);
    }
  }

  /** Correctness speaks of the view only. */
  lemma CorrectFrom(st: Store, seen: Store, addr: nat, n: nat, read: bool, content: seq<Byte>, r: Reply)
    requires SameView(st, seen) && Correct(seen, addr, n, read, content, r)
    ensures Correct(st, addr, n, read, content, r)
  {
    assert Shown(st, addr, n) == Shown(seen, addr, n);
  }

  lemma CountedSame(st: Store, miss: bool)
    requires st.Cache? && Coherent(st)
    ensures Coherent(Counted(st, miss)) && SameView(st, Counted(st, miss))
  {
    StampsDoNotMatter(st, Counted(st, miss));
  }

  lemma {:induction false} CacheCorrect(st: Store, addr: nat, n: nat, read: bool, content: seq<Byte>)
    requires st.Cache? && Coherent(st) && Fits(st, addr, n) && (!read ==> |content| == n)
    ensures Correct(st, addr, n, read, content, Handle(st, addr, n, read, content))
    decreases Depth(st), 4
  {
    var b := addr / BLOCK;
    var k := FirstHit(st.entries, SetOf(st.cfg, b), TagOf(st.cfg, b), 0);
    var seen := Counted(st, k == |st.entries|);
    CountedSame(st, k == |st.entries|);
    if k < |st.entries| {
      HitCorrect(seen, k, addr, n, read, content);
    } else {
      MissCorrect(seen, addr, n, read, content);
    }
    CorrectFrom(st, seen, addr, n, read, content, Handle(st, addr, n, read, content));
  }

  lemma {:induction false} MissCorrect(st: Store, addr: nat, n: nat, read: bool, content: seq<Byte>)
    requires st.Cache? && Coherent(st) && Fits(st, addr, n) && (!read ==> |content| == n)
    requires Absent(st.cfg, st.entries, addr / BLOCK)
    ensures Correct(st, addr, n, read, content, OnMiss(st, addr, n, read, content))
    decreases Depth(st), 3
  {
    var b := addr / BLOCK;
    if read || st.cfg.allocate {
      EvictedReady(st, b);
      var ready := Evicted(st, SetOf(st.cfg, b));
      if read {
        ReadMissCorrect(ready, addr, n, content);
        assert Shown(ready, addr, n) == Shown(st, addr, n);
      } else {
        WriteMissCorrect(ready, addr, content);
      }
    } else {
      HandleCorrect(st.lower, addr, n, false, content);
      var r := OnMiss(st, addr, n, read, content);
      WriteAroundCorrect(st, addr, content, r.store.lower, r.store);
    }
  }

  // ----- whole runs -----

  datatype Request = Read(addr: nat, n: nat) | Write(addr: nat, content: seq<Byte>)

  ghost predicate InBounds(st: Store, q: Request) {
    match q
    case Read(addr, n) => Fits(st, addr, n)
    case Write(addr, content) => Fits(st, addr, |content|)
  }

  function Serve(st: Store, q: Request): Reply {
    match q
    case Read(addr, n) => Handle(st, addr, n, true, [])
    case Write(addr, content) => Handle(st, addr, |content|, false, content)
  }

  /** The storage after a sequence of requests, and what the reads returned. */
  function ServeAll(st: Store, qs: seq<Request>): (Store, seq<seq<Byte>>) {
    if qs == [] then (st, []) else
      var (s, out) := ServeAll(st, qs[..|qs| - 1]);
      var r := Serve(s, qs[|qs| - 1]);
      (r.store, if qs[|qs| - 1].Read? then out + [r.content] else out)
  }

  /** The same on a flat byte array. */
  function FlatServeAll(mem: seq<Byte>, qs: seq<Request>): (seq<Byte>, seq<seq<Byte>>) {
    if qs == [] then (mem, []) else
      var (m, out) := FlatServeAll(mem, qs[..|qs| - 1]);
      match qs[|qs| - 1]
      case Read(addr, n) => (m, out + [Slice(m, addr, n)])
      case Write(addr, content) => (Patch(m, addr, content), out)
  }

  function View(st: Store): seq<Byte> {
    Shown(st, 0, Size(st))
  }

  lemma ServeView(st: Store, q: Request)
    requires Coherent(st) && InBounds(st, q)
    ensures var r := Serve(st, q);
      && Coherent(r.store) && Size(r.store) == Size(st)
      && (q.Read? ==> View(r.store) == View(st) && r.content == Slice(View(st), q.addr, q.n))
      && (q.Write? ==> View(r.store) == Patch(View(st), q.addr, q.content))
  {
    match q
    case Read(addr, n) =>
      HandleCorrect(st, addr, n, true, []);
      assert Shown(st, addr, n) == Slice(View(st), addr, n);
    case Write(addr, content) =>
      HandleCorrect(st, addr, |content|, false, content);
  }

  /** Transparency: over any sequence of in-line requests a coherent hierarchy returns the
      bytes a flat memory holding its view returns, and ends showing what that memory holds. */
  lemma {:induction false} RunTransparent(st: Store, qs: seq<Request>)
    requires Coherent(st) && forall i | 0 <= i < |qs| :: InBounds(st, qs[i])
    ensures var (s, out) := ServeAll(st, qs); var (m, want) := FlatServeAll(View(st), qs);
      Coherent(s) && Size(s) == Size(st) && View(s) == m && out == want
  {
    if qs != [] {
      var init := qs[..|qs| - 1];
      RunTransparent(st, init);
      var s := ServeAll(st, init).0;
      assert InBounds(st, qs[|qs| - 1]);
      ServeView(s, qs[|qs| - 1]);
    }
  }

  // ----- freshly configured hierarchies -----

  /** What SetConfig demands and buildContent makes: a positive set count dividing a positive
      number of entries, numbered round robin and all invalid; other fields hold anything. */
  predicate FreshLevel(cfg: Config, es: seq<Entry>) {
    && cfg.setNum > 0 && |es| > 0 && |es| % cfg.setNum == 0
    && forall i | 0 <= i < |es| :: es[i].set_ == i % cfg.setNum && !es[i].valid && |es[i].data| == BLOCK
  }

  predicate Fresh(st: Store) {
    match st
    case Memory(bytes, _, _) => |bytes| % BLOCK == 0
    case Cache(cfg, es, _, _, lower) => FreshLevel(cfg, es) && Fresh(lower)
  }

  function Bottom(st: Store): seq<Byte> {
    match st
    case Memory(bytes, _, _) => bytes
    case Cache(_, _, _, _, lower) => Bottom(lower)
  }

  lemma DivisorAtMost(n: nat, d: nat)
    requires d > 0 && n > 0 && n % d == 0
    ensures d <= n
  {
    if n < d {
      SmallMod(n, d);
    }
  }

  /** A fresh chain of any depth is coherent and shows the memory at its bottom. */
  lemma {:induction false} FreshCoherent(st: Store)
    requires Fresh(st)
    ensures Coherent(st) && View(st) == Bottom(st)
  {
    if st.Cache? {
      FreshCoherent(st.lower);
      DivisorAtMost(|st.entries|, st.cfg.setNum);
      forall a: nat
        ensures Look(st, a) == Look(st.lower, a)
      {
        LookMiss(st, a);
      }
      assert View(st) == View(st.lower);
    }
  }

  /** The program's own use: any fresh hierarchy over a memory serves requests like it. */
  lemma FreshRun(st: Store, qs: seq<Request>)
    requires Fresh(st) && forall i | 0 <= i < |qs| :: InBounds(st, qs[i])
    ensures ServeAll(st, qs).1 == FlatServeAll(Bottom(st), qs).1
    ensures View(ServeAll(st, qs).0) == FlatServeAll(Bottom(st), qs).0
  {
    FreshCoherent(st);
    RunTransparent(st, qs);
  }
}
