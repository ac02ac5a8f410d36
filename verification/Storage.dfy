/** The memory hierarchy as a value: a chain of cache levels over a byte memory, and one
    request to it. Total: where the program would assert or leave a buffer untouched the
    result is arbitrary, and Coherence.dfy shows a coherent hierarchy never gets there. */
module Storage {
  import opened Words

  const BLOCK := 64
  const MAX_AGE := 99999

  /** Write policy: through = 1 for write-through, allocate = 1 for write-allocate. */
  datatype Config = Config(setNum: nat, through: bool, allocate: bool)

  datatype Entry = Entry(tag: nat, set_: nat, stamp: nat, data: seq<Byte>, valid: bool, dirty: bool)

  datatype Latency = Latency(hit: int, bus: int)

  datatype Stats = Stats(accessCounter: int, missNum: int, accessTime: int, replaceNum: int, fetchNum: int)

  datatype Store =
    | Memory(bytes: seq<Byte>, lat: Latency, stats: Stats)
    | Cache(cfg: Config, entries: seq<Entry>, lat: Latency, stats: Stats, lower: Store)

  datatype Reply = Reply(store: Store, content: seq<Byte>, hit: bool, time: int)

  function Depth(st: Store): nat {
    match st
    case Memory(_, _, _) => 0
    case Cache(_, _, _, _, lower) => 1 + Depth(lower)
  }

  function Size(st: Store): nat {
    match st
    case Memory(bytes, _, _) => |bytes|
    case Cache(_, _, _, _, lower) => Size(lower)
  }

  // ----- addresses -----

  /** What the program's log2 returns: the index of the lowest set bit. */
  function Log2(x: nat): nat {
    if x == 0 || x % 2 == 1 then 0 else 1 + Log2(x / 2)
  }

  /** The low s bits of x. */
  function Low(x: nat, s: nat): nat {
    if s == 0 then 0 else 2 * Low(x / 2, s - 1) + x % 2
  }

  /** x shifted right by s. */
  function High(x: nat, s: nat): nat {
    if s == 0 then x else High(x / 2, s - 1)
  }

  /** high shifted left by s, or-ed with the low s bits of low. */
  function Join(high: nat, low: nat, s: nat): nat {
    if s == 0 then high else 2 * Join(high, low / 2, s - 1) + low % 2
  }

  /** Set and tag of block number b. */
  function SetOf(cfg: Config, b: nat): nat {
    Low(b, Log2(cfg.setNum))
  }

  function TagOf(cfg: Config, b: nat): nat {
    High(b, Log2(cfg.setNum))
  }

  /** The block number a flush rebuilds from a tag and a set. */
  function BlockOf(cfg: Config, tag: nat, set_: nat): nat {
    Join(tag, set_, Log2(cfg.setNum))
  }

  // ----- searching and ageing the entries -----

  predicate Matches(e: Entry, s: nat, tag: nat) {
    e.valid && e.set_ == s && e.tag == tag
  }

  function FirstHit(es: seq<Entry>, s: nat, tag: nat, i: nat): (k: nat)
    requires i <= |es|
    ensures i <= k <= |es| && (k < |es| ==> Matches(es[k], s, tag))
    ensures forall j | i <= j < k :: !Matches(es[j], s, tag)
    decreases |es| - i
  {
    if i == |es| || Matches(es[i], s, tag) then i else FirstHit(es, s, tag, i + 1)
  }

  predicate Free(e: Entry, s: nat) {
    !e.valid && e.set_ == s
  }

  function FirstFree(es: seq<Entry>, s: nat, i: nat): (k: nat)
    requires i <= |es|
    ensures i <= k <= |es| && (k < |es| ==> Free(es[k], s))
    ensures forall j | i <= j < k :: !Free(es[j], s)
    decreases |es| - i
  {
    if i == |es| || Free(es[i], s) then i else FirstFree(es, s, i + 1)
  }

  function FirstOfSet(es: seq<Entry>, s: nat, i: nat): (k: nat)
    requires i <= |es|
    ensures i <= k <= |es| && (k < |es| ==> es[k].set_ == s)
    ensures forall j | i <= j < k :: es[j].set_ != s
    decreases |es| - i
  {
    if i == |es| || es[i].set_ == s then i else FirstOfSet(es, s, i + 1)
  }

  /** The scan for an older entry of the set, keeping the first of the oldest. */
  function Oldest(es: seq<Entry>, s: nat, i: nat, best: nat): (k: nat)
    requires i <= |es| && best < |es|
    ensures k < |es|
    decreases |es| - i
  {
    if i == |es| then best
    else Oldest(es, s, i + 1, if es[i].set_ == s && es[i].stamp > es[best].stamp then i else best)
  }

  /** The way to evict: entry 0 if the set has no entry at all. */
  function Victim(es: seq<Entry>, s: nat): (k: nat)
    requires |es| > 0
    ensures k < |es|
  {
    var f := FirstOfSet(es, s, 0);
    Oldest(es, s, 0, if f < |es| then f else 0)
  }

  function Older(e: Entry): Entry {
    if e.stamp < MAX_AGE then e.(stamp := e.stamp + 1) else e
  }

  /** Every entry but k grows older. */
  function Aged(es: seq<Entry>, k: nat): (r: seq<Entry>)
    ensures |r| == |es|
  {
    seq(|es|, i requires 0 <= i < |es| => if i == k then es[i] else Older(es[i]))
  }

  function Slice(s: seq<Byte>, from: nat, n: nat): seq<Byte> {
    if from + n <= |s| then s[from..from + n] else []
  }

  /** s with content written at position at. */
  function Patch(s: seq<Byte>, at: nat, content: seq<Byte>): (r: seq<Byte>)
    ensures |r| == |s|
  {
    seq(|s|, i requires 0 <= i < |s| => if at <= i < at + |content| then content[i - at] else s[i])
  }

  // ----- one request -----

  function Handle(st: Store, addr: nat, n: nat, read: bool, content: seq<Byte>): (r: Reply)
    ensures Depth(r.store) == Depth(st)
    ensures st.Cache? ==> r.store.Cache? && r.store.cfg == st.cfg
    decreases Depth(st), 2
  {
    match st
    case Memory(bytes, lat, stats) =>
      var time := lat.hit + lat.bus;
      var counted := stats.(accessTime := stats.accessTime + time, accessCounter := stats.accessCounter + 1);
      if read then Reply(Memory(bytes, lat, counted), Slice(bytes, addr, n), true, time)
      else Reply(Memory(Patch(bytes, addr, content), lat, counted), content, true, time)
    case Cache(cfg, es, _, _, _) =>
      var b := addr / BLOCK;
      var k := FirstHit(es, SetOf(cfg, b), TagOf(cfg, b), 0);
      if k < |es| then OnHit(Counted(st, false), k, addr, n, read, content)
      else OnMiss(Counted(st, true), addr, n, read, content)
  }

  /** The level once the request, and the miss if it is one, has been counted. */
  function Counted(st: Store, miss: bool): (r: Store)
    requires st.Cache?
    ensures r.Cache? && r.cfg == st.cfg && Depth(r) == Depth(st)
  {
    var seen := st.stats.(accessCounter := st.stats.accessCounter + 1);
    Cache(st.cfg, st.entries, st.lat, if miss then seen.(missNum := st.stats.missNum + 1) else seen, st.lower)
  }

  /** A write that does not allocate passes the level by; anything else makes room first. */
  function OnMiss(st: Store, addr: nat, n: nat, read: bool, content: seq<Byte>): (r: Reply)
    requires st.Cache?
    ensures Depth(r.store) == Depth(st) && r.store.Cache? && r.store.cfg == st.cfg
    decreases Depth(st), 1
  {
    var ready := if read || st.cfg.allocate then Evicted(st, SetOf(st.cfg, addr / BLOCK)) else st;
    if read then OnReadMiss(ready, addr, n, content)
    else if st.cfg.allocate then OnWriteMiss(ready, addr, n, content)
    else
      var low := Handle(ready.lower, addr, n, false, content);
      Reply(ready.(lower := low.store, stats := ready.stats.(fetchNum := ready.stats.fetchNum + 1)),
            content, false, low.time)
  }

  function OnHit(st: Store, k: nat, addr: nat, n: nat, read: bool, content: seq<Byte>): (r: Reply)
    requires st.Cache? && k < |st.entries|
    ensures Depth(r.store) == Depth(st) && r.store.Cache? && r.store.cfg == st.cfg
    decreases Depth(st), 0
  {
    var time := st.lat.bus + st.lat.hit;
    var es := Aged(st.entries, k);
    var timed := st.(entries := es, stats := st.stats.(accessTime := st.stats.accessTime + time));
    var patched := es[k].(data := Patch(es[k].data, addr % BLOCK, content),
                          dirty := if n > 0 then !st.cfg.through else es[k].dirty);
    if read then Reply(timed, Slice(es[k].data, addr % BLOCK, n), true, time)
    else if st.cfg.through then
      var low := Handle(st.lower, addr, n, false, content);
      Reply(timed.(entries := es[k := patched], lower := low.store,
                   stats := timed.stats.(fetchNum := timed.stats.fetchNum + 1)), content, true, time + low.time)
    else Reply(timed.(entries := es[k := patched]), content, true, time)
  }

  /** Makes room in set s unless an entry is free or the cache has none at all. */
  function Evicted(st: Store, s: nat): (r: Store)
    requires st.Cache?
    ensures r.Cache? && r.cfg == st.cfg && Depth(r) == Depth(st)
    decreases Depth(st), 0
  {
    if FirstFree(st.entries, s, 0) < |st.entries| || st.entries == [] then st
    else
      var v := Victim(st.entries, s);
      var e := st.entries[v];
      st.(entries := st.entries[v := e.(valid := false)],
          lower := if e.dirty then Handle(st.lower, BlockOf(st.cfg, e.tag, s) * BLOCK, BLOCK, false, e.data).store
                   else st.lower,
          stats := st.stats.(replaceNum := st.stats.replaceNum + 1))
  }

  function Filled(es: seq<Entry>, f: nat, tag: nat, data: seq<Byte>): seq<Entry>
    requires f < |es|
  {
    Aged(es[f := es[f].(tag := tag, stamp := 0, data := data, valid := true, dirty := false)], f)
  }

  function OnReadMiss(st: Store, addr: nat, n: nat, content: seq<Byte>): (r: Reply)
    requires st.Cache?
    ensures Depth(r.store) == Depth(st) && r.store.Cache? && r.store.cfg == st.cfg
    decreases Depth(st), 0
  {
    var b := addr / BLOCK;
    var f := FirstFree(st.entries, SetOf(st.cfg, b), 0);
    if f == |st.entries| then Reply(st, content, false, 0)
    else
      var low := Handle(st.lower, b * BLOCK, BLOCK, true, []);
      Reply(st.(entries := Filled(st.entries, f, TagOf(st.cfg, b), low.content), lower := low.store,
                stats := st.stats.(accessTime := st.stats.accessTime + st.lat.bus, fetchNum := st.stats.fetchNum + 1)),
            Slice(low.content, addr % BLOCK, n), false, st.lat.bus + low.time)
  }

  /** Write-allocate: the bytes go to the lower level first, then the whole block comes back. */
  function OnWriteMiss(st: Store, addr: nat, n: nat, content: seq<Byte>): (r: Reply)
    requires st.Cache?
    ensures Depth(r.store) == Depth(st) && r.store.Cache? && r.store.cfg == st.cfg
    decreases Depth(st), 0
  {
    var b := addr / BLOCK;
    var f := FirstFree(st.entries, SetOf(st.cfg, b), 0);
    if f == |st.entries| then Reply(st, content, false, 0)
    else
      var put := Handle(st.lower, addr, n, false, content);
      var got := Handle(put.store, b * BLOCK, BLOCK, true, []);
      Reply(st.(entries := Filled(st.entries, f, TagOf(st.cfg, b), got.content), lower := got.store,
                stats := st.stats.(accessTime := st.stats.accessTime + st.lat.bus, fetchNum := st.stats.fetchNum + 1)),
            content, false, put.time + got.time + st.lat.bus)
  }
}
