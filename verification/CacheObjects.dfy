/** The cache levels and the memory as the objects the program mutates in place, each request
    proved to act as Storage.Handle does on the value of the whole chain. */
module CacheObjects {
  import opened Words
  import opened Storage
  import opened Coherence
  import opened Transparency

  /** The byte memory at the bottom of the chain. */
  class MainMemory {
    const mainMem: array<Byte>
    var lat: Latency
    var stats: Stats

    ghost function Abs(): Store
      reads this, mainMem
    {
      Memory(mainMem[..], lat, stats)
    }

    constructor (size: nat, lat: Latency, stats: Stats)
      ensures Abs() == Memory(seq(size, _ => 0), lat, stats) && fresh(mainMem) && mainMem.Length == size
    {
      mainMem := new Byte[size](_ => 0);
      this.lat, this.stats := lat, stats;
      new;
      assert mainMem[..] == seq(size, _ => 0);
    }

    method HandleRequest(addr: nat, n: nat, read: bool, content: seq<Byte>)
      returns (out: seq<Byte>, hit: bool, time: int)
      requires addr + n <= mainMem.Length && (!read ==> |content| == n)
      modifies this, mainMem
      ensures Reply(Abs(), out, hit, time) == Handle(old(Abs()), addr, n, read, content)
    {
      hit := true;
      time := lat.hit + lat.bus;
      stats := stats.(accessTime := stats.accessTime + time, accessCounter := stats.accessCounter + 1);
      if read {
        out := [];
        for i := 0 to n
          invariant out == mainMem[addr..addr + i] && mainMem[..] == old(mainMem[..])
        {
          out := out + [mainMem[addr + i]];
        }
      } else {
        ghost var counted := stats;
        for i := 0 to n
          invariant mainMem[..] == Patch(old(mainMem[..]), addr, content[..i]) && stats == counted && lat == old(lat)
        {
          mainMem[addr + i] := content[i];
        }
        assert content[..n] == content;
        out := content;
      }
      assert read ==> out == Slice(mainMem[..], addr, n);
    }
  }

  predicate SizesOk(cfg: Config, size: nat) {
    cfg.setNum > 0 && size > 0 && size % BLOCK == 0 && size / BLOCK % cfg.setNum == 0
  }

  /** Entry i of a new level: invalid, numbered round robin, otherwise uninitialised. */
  function Blank(junk: Entry, cfg: Config, i: nat): Entry {
    junk.(valid := false, set_ := if cfg.setNum == 0 then 0 else i % cfg.setNum)
  }

  /** One cache level over another one or over the memory. */
  class CacheLevel {
    const cfg: Config
    const content: array<Entry>
    const lowerCache: CacheLevel?
    const lowerMem: MainMemory?
    ghost const depth: nat
    ghost const Repr: set<object>
    var lat: Latency
    var stats: Stats

    ghost function LowerRepr(): set<object> {
      if lowerCache != null then lowerCache.Repr
      else if lowerMem != null then {lowerMem, lowerMem.mainMem} else {}
    }

    /** The chain below is well built and shares nothing with this level. */
    ghost predicate Valid()
      decreases depth
    {
      && this in Repr && content in Repr && LowerRepr() <= Repr
      && this !in LowerRepr() && content !in LowerRepr()
      && (if lowerCache != null then lowerCache.depth < depth && lowerCache.Valid() else lowerMem != null)
    }

    ghost function LowerAbs(): Store
      reads LowerRepr()
      requires Valid()
      decreases depth, 0
    {
      if lowerCache != null then lowerCache.Abs() else lowerMem.Abs()
    }

    ghost function Abs(): Store
      reads Repr
      requires Valid()
      decreases depth, 1
    {
      Cache(cfg, content[..], lat, stats, LowerAbs())
    }

    /** What SetConfig checks and buildContent allocates, over a lower cache level. */
    constructor OverCache(cfg: Config, size: nat, lat: Latency, stats: Stats, lower: CacheLevel, junk: Entry)
      requires SizesOk(cfg, size) && |junk.data| == BLOCK && lower.Valid()
      ensures Valid() && this.cfg == cfg && this.lat == lat && this.stats == stats && lowerCache == lower
      ensures fresh(content) && Repr == {this, content} + lower.Repr && FreshLevel(cfg, content[..])
    {
      this.cfg, this.lat, this.stats := cfg, lat, stats;
      content := new Entry[size / BLOCK](i => Blank(junk, cfg, i));
      lowerCache, lowerMem := lower, null;
      depth := lower.depth + 1;
      Repr := {this, content} + lower.Repr;
    }

    /** The same over the memory. */
    constructor OverMemory(cfg: Config, size: nat, lat: Latency, stats: Stats, mem: MainMemory, junk: Entry)
      requires SizesOk(cfg, size) && |junk.data| == BLOCK
      ensures Valid() && this.cfg == cfg && this.lat == lat && this.stats == stats && lowerCache == null
        && lowerMem == mem
      ensures fresh(content) && Repr == {this, content, mem, mem.mainMem} && FreshLevel(cfg, content[..])
    {
      this.cfg, this.lat, this.stats := cfg, lat, stats;
      content := new Entry[size / BLOCK](i => Blank(junk, cfg, i));
      lowerCache, lowerMem := null, mem;
      depth := 0;
      Repr := {this, content, mem, mem.mainMem};
    }

    method FindHit(s: nat, tag: nat) returns (k: nat)
      ensures k == FirstHit(content[..], s, tag, 0)
    {
      for i := 0 to content.Length
        invariant FirstHit(content[..], s, tag, 0) == FirstHit(content[..], s, tag, i)
      {
        if Matches(content[i], s, tag) {
          return i;
        }
      }
      return content.Length;
    }

    method FindFree(s: nat) returns (k: nat)
      ensures k == FirstFree(content[..], s, 0)
    {
      for i := 0 to content.Length
        invariant FirstFree(content[..], s, 0) == FirstFree(content[..], s, i)
      {
        if Free(content[i], s) {
          return i;
        }
      }
      return content.Length;
    }

    /** The first way of the set, then any older one on the way up. */
    method FindVictim(s: nat) returns (which: nat)
      requires content.Length > 0
      ensures which == Victim(content[..], s)
    {
      which := 0;
      var i := 0;
      while i < content.Length && content[i].set_ != s
        invariant i <= content.Length && FirstOfSet(content[..], s, 0) == FirstOfSet(content[..], s, i)
      {
        i := i + 1;
      }
      if i < content.Length {
        which := i;
      }
      ghost var start := which;
      for j := 0 to content.Length
        invariant which < content.Length
        invariant Oldest(content[..], s, 0, start) == Oldest(content[..], s, j, which)
      {
        if content[j].set_ == s && content[j].stamp > content[which].stamp {
          which := j;
        }
      }
    }

    method Aging(newId: nat)
      modifies content
      ensures content[..] == Aged(old(content[..]), newId)
    {
      for k := 0 to content.Length
        invariant forall j | 0 <= j < k :: content[j] == Aged(old(content[..]), newId)[j]
        invariant forall j | k <= j < content.Length :: content[j] == old(content[..])[j]
      {
        if newId != k {
          if content[k].stamp < MAX_AGE {
            content[k] := content[k].(stamp := content[k].stamp + 1);
          }
        }
      }
    }

    /** Passes a request to whatever the level sits on. */
    method LowerRequest(addr: nat, n: nat, read: bool, data: seq<Byte>) returns (out: seq<Byte>, hit: bool, time: int)
      requires Valid() && Coherent(LowerAbs()) && Fits(LowerAbs(), addr, n) && (!read ==> |data| == n)
      modifies LowerRepr()
      ensures Reply(LowerAbs(), out, hit, time) == Handle(old(LowerAbs()), addr, n, read, data)
      decreases depth, 0, 0
    {
      if lowerCache != null {
        out, hit, time := lowerCache.HandleRequest(addr, n, read, data);
      } else {
        out, hit, time := lowerMem.HandleRequest(addr, n, read, data);
      }
    }

    /** Makes room in set s, flushing a dirty victim. */
    method ReplaceAlgorithm(s: nat)
      requires Valid() && Coherent(Abs()) && s < cfg.setNum
      modifies Repr
      ensures Abs() == Evicted(old(Abs()), s)
      decreases depth, 2
    {
      var f := FindFree(s);
      if f < content.Length {
        return;
      }
      VictimInSet(cfg, content[..], s);
      var v := FindVictim(s);
      Evict(v, s);
    }

    method Evict(v: nat, s: nat)
      requires Valid() && Coherent(Abs()) && v < content.Length && content[v].valid && content[v].set_ == s
      modifies Repr
      ensures var was := old(Abs()); var e := was.entries[v];
        Abs() == was.(entries := was.entries[v := e.(valid := false)],
                      lower := if !e.dirty then was.lower
                               else Handle(was.lower, BlockOf(cfg, e.tag, s) * BLOCK, BLOCK, false, e.data).store,
                      stats := was.stats.(replaceNum := was.stats.replaceNum + 1))
      decreases depth, 1
    {
      var e := content[v];
      assert EntryOk(cfg, Abs().entries[v], Size(LowerAbs()));
      content[v] := e.(valid := false);
      if e.dirty {
        var _, _, _ := LowerRequest(BlockOf(cfg, e.tag, s) * BLOCK, BLOCK, false, e.data);
      }
      stats := stats.(replaceNum := stats.replaceNum + 1);
    }

    /** Copies bytes into a block. */
    method PatchEntry(k: nat, at: nat, data: seq<Byte>, dirty: bool)
      requires k < content.Length && at + |data| <= |content[k].data|
      modifies content
      ensures var was := old(content[..]);
        content[..] == was[k :=
          was[k].(data := Patch(was[k].data, at, data), dirty := if |data| > 0 then dirty else was[k].dirty)]
    {
      ghost var was := content[..];
      assert Patch(was[k].data, at, []) == was[k].data;
      for i := 0 to |data|
        invariant content[..] == was[k :=
          was[k].(data := Patch(was[k].data, at, data[..i]), dirty := if i > 0 then dirty else was[k].dirty)]
      {
        var e := content[k];
        content[k] := e.(data := e.data[at + i := data[i]], dirty := dirty);
        assert content[k].data == Patch(was[k].data, at, data[..i + 1]);
      }
      assert data[..|data|] == data;
    }

    method CopyOut(k: nat, at: nat, n: nat) returns (out: seq<Byte>)
      requires k < content.Length && at + n <= |content[k].data|
      ensures out == Slice(content[k].data, at, n)
    {
      out := [];
      for i := 0 to n
        invariant out == content[k].data[at..at + i]
      {
        out := out + [content[k].data[at + i]];
      }
    }

    method OnHit(k: nat, addr: nat, n: nat, read: bool, data: seq<Byte>) returns (out: seq<Byte>, time: int)
      requires Valid() && Coherent(Abs()) && Fits(Abs(), addr, n) && (!read ==> |data| == n)
      requires k < content.Length
      modifies Repr
      ensures Reply(Abs(), out, true, time) == Storage.OnHit(old(Abs()), k, addr, n, read, data)
      decreases depth, 1
    {
      time := lat.bus + lat.hit;
      stats := stats.(accessTime := stats.accessTime + time);
      assert EntryOk(cfg, Abs().entries[k], Size(LowerAbs()));
      Aging(k);
      ghost var aged := Abs();
      assert aged == old(Abs()).(entries := Aged(old(Abs()).entries, k), stats := stats);
      assert content[..][k] == old(content[..])[k];
      if read {
        out := CopyOut(k, addr % BLOCK, n);
      } else {
        out := data;
        var t := HitWrite(k, addr, n, data);
        time := time + t;
      }
    }

    /** The bytes of a write hit, and the lower request of a write-through level. */
    method HitWrite(k: nat, addr: nat, n: nat, data: seq<Byte>) returns (time: int)
      requires Valid() && Coherent(LowerAbs()) && Fits(LowerAbs(), addr, n) && |data| == n
      requires k < content.Length && addr % BLOCK + n <= |content[k].data|
      modifies Repr
      ensures var was := old(Abs());
        var patched := was.entries[k].(data := Patch(was.entries[k].data, addr % BLOCK, data), dirty := !cfg.through);
        var low := Handle(was.lower, addr, n, false, data);
        if cfg.through
        then Abs() == was.(entries := was.entries[k := patched], lower := low.store,
                           stats := was.stats.(fetchNum := was.stats.fetchNum + 1)) && time == low.time
        else Abs() == was.(entries := was.entries[k := patched]) && time == 0
      decreases depth, 0, 2
    {
      PatchEntry(k, addr % BLOCK, data, !cfg.through);
      time := 0;
      if cfg.through {
        time := WriteThrough(addr, n, data);
      }
    }

    method WriteThrough(addr: nat, n: nat, data: seq<Byte>) returns (time: int)
      requires Valid() && Coherent(LowerAbs()) && Fits(LowerAbs(), addr, n) && |data| == n
      modifies this`stats, LowerRepr()
      ensures var r := Handle(old(LowerAbs()), addr, n, false, data);
        LowerAbs() == r.store && time == r.time && stats == old(stats).(fetchNum := old(stats).fetchNum + 1)
      decreases depth, 0, 1
    {
      var _, _, t := LowerRequest(addr, n, false, data);
      time := t;
      stats := stats.(fetchNum := stats.fetchNum + 1);
    }

    /** Stores a fetched block in way f as a new clean entry and ages the others. */
    method Fill(f: nat, tag: nat, data: seq<Byte>)
      requires f < content.Length
      modifies content
      ensures content[..] == Filled(old(content[..]), f, tag, data)
    {
      content[f] := content[f].(valid := true, data := data, stamp := 0, tag := tag, dirty := false);
      assert content[..] == old(content[..])[f := content[f]];
      Aging(f);
    }

    /** Reads block b from below. */
    method FetchBlock(b: nat) returns (block: seq<Byte>, time: int)
      requires Valid() && Coherent(LowerAbs()) && Fits(LowerAbs(), b * BLOCK, BLOCK)
      modifies LowerRepr()
      ensures var r := Handle(old(LowerAbs()), b * BLOCK, BLOCK, true, []);
        LowerAbs() == r.store && block == r.content && time == r.time
      decreases depth, 1
    {
      var data, _, t := LowerRequest(b * BLOCK, BLOCK, true, []);
      block, time := data, t;
    }

    method OnReadMiss(addr: nat, n: nat, data: seq<Byte>) returns (out: seq<Byte>, time: int)
      requires Valid() && Coherent(Abs()) && Fits(Abs(), addr, n)
      modifies Repr
      ensures Reply(Abs(), out, false, time) == Storage.OnReadMiss(old(Abs()), addr, n, data)
      decreases depth, 2
    {
      var b := addr / BLOCK;
      out, time := data, 0;
      var f := FindFree(SetOf(cfg, b));
      if f < content.Length {
        WholeBlockFits(LowerAbs(), addr, n);
        var block, t := FetchBlock(b);
        Fill(f, TagOf(cfg, b), block);
        out := Slice(block, addr % BLOCK, n);
        time := lat.bus + t;
        stats := stats.(accessTime := stats.accessTime + lat.bus, fetchNum := stats.fetchNum + 1);
      }
    }

    /** The two lower requests of a write-allocate miss: the bytes down, then the block up. */
    method PutAndFetch(addr: nat, n: nat, data: seq<Byte>) returns (block: seq<Byte>, time: int)
      requires Valid() && Coherent(LowerAbs()) && Fits(LowerAbs(), addr, n) && |data| == n
      modifies LowerRepr()
      ensures var put := Handle(old(LowerAbs()), addr, n, false, data);
        var got := Handle(put.store, addr / BLOCK * BLOCK, BLOCK, true, []);
        LowerAbs() == got.store && block == got.content && time == put.time + got.time
      decreases depth, 2
    {
      HandleCorrect(LowerAbs(), addr, n, false, data);
      var _, _, t := LowerRequest(addr, n, false, data);
      WholeBlockFits(LowerAbs(), addr, n);
      var u;
      block, u := FetchBlock(addr / BLOCK);
      time := t + u;
    }

    method OnWriteMiss(addr: nat, n: nat, data: seq<Byte>) returns (time: int)
      requires Valid() && Coherent(Abs()) && Fits(Abs(), addr, n) && |data| == n
      modifies Repr
      ensures Reply(Abs(), data, false, time) == Storage.OnWriteMiss(old(Abs()), addr, n, data)
      decreases depth, 3
    {
      var b := addr / BLOCK;
      time := 0;
      var f := FindFree(SetOf(cfg, b));
      if f < content.Length {
        var block, t := PutAndFetch(addr, n, data);
        Fill(f, TagOf(cfg, b), block);
        time := t + lat.bus;
        stats := stats.(accessTime := stats.accessTime + lat.bus, fetchNum := stats.fetchNum + 1);
      }
    }

    /** One request, as Storage.Handle serves it; the chain stays coherent. */
    method HandleRequest(addr: nat, n: nat, read: bool, data: seq<Byte>) returns (out: seq<Byte>, hit: bool, time: int)
      requires Valid() && Coherent(Abs()) && Fits(Abs(), addr, n) && (!read ==> |data| == n)
      modifies Repr
      ensures Reply(Abs(), out, hit, time) == Handle(old(Abs()), addr, n, read, data)
      ensures Coherent(Abs())
      decreases depth, 5
    {
      ghost var was := Abs();
      HandleCorrect(was, addr, n, read, data);
      var b := addr / BLOCK;
      stats := stats.(accessCounter := stats.accessCounter + 1);
      var k := FindHit(SetOf(cfg, b), TagOf(cfg, b));
      if k < content.Length {
        CountedSame(was, false);
        assert Abs() == Counted(was, false);
        hit := true;
        out, time := OnHit(k, addr, n, read, data);
      } else {
        hit := false;
        stats := stats.(missNum := stats.missNum + 1);
        CountedSame(was, true);
        assert Abs() == Counted(was, true);
        out, time := OnMiss(addr, n, read, data);
      }
    }

    method OnMiss(addr: nat, n: nat, read: bool, data: seq<Byte>) returns (out: seq<Byte>, time: int)
      requires Valid() && Coherent(Abs()) && Fits(Abs(), addr, n) && (!read ==> |data| == n)
      requires Absent(cfg, Abs().entries, addr / BLOCK)
      modifies Repr
      ensures Reply(Abs(), out, false, time) == Storage.OnMiss(old(Abs()), addr, n, read, data)
      decreases depth, 4
    {
      var b := addr / BLOCK;
      if read || cfg.allocate {
        LowBelow(b, cfg.setNum);
        EvictedReady(Abs(), b);
        ReplaceAlgorithm(SetOf(cfg, b));
        if read {
          out, time := OnReadMiss(addr, n, data);
        } else {
          time := OnWriteMiss(addr, n, data);
          out := data;
        }
      } else {
        var _, _, t := LowerRequest(addr, n, false, data);
        out, time := data, t;
        stats := stats.(fetchNum := stats.fetchNum + 1);
      }
    }
  }
}
