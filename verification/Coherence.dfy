/** A chain of cache levels behaves like the flat byte memory it sits on.

    Look(st, a) is the byte a request at the top would see. Coherent(st) is the invariant:
    one valid entry per set and tag, entries that name blocks in range, write-through levels
    never dirty, and every clean entry equal to the lower level's view of its block. */
module Coherence {
  import opened Words
  import opened Division
  import opened Storage

  // ----- splitting and joining block numbers -----

  lemma {:induction false} JoinSplit(x: nat, s: nat)
    ensures Join(High(x, s), Low(x, s), s) == x
  {
    if s > 0 {
      JoinSplit(x / 2, s - 1);
      assert Low(x, s) / 2 == Low(x / 2, s - 1) && Low(x, s) % 2 == x % 2;
    }
  }

  lemma {:induction false} SplitByPower(x: nat, s: nat)
    ensures Low(x, s) == x % Power2(s) && High(x, s) == x / Power2(s)
  {
    if s > 0 {
      SplitByPower(x / 2, s - 1);
      HalfSplits(x, Power2(s - 1));
    }
  }

  lemma HalfSplits(x: nat, p: nat)
    requires p > 0
    ensures x % (2 * p) == 2 * (x / 2 % p) + x % 2 && x / (2 * p) == x / 2 / p
  {
    var q, r := x / 2 / p, x / 2 % p;
    assert x / 2 == q * p + r;
    DivModUnique(x, 2 * p, q, 2 * r + x % 2);
  }

  lemma {:induction false} LogOfPower(s: nat)
    ensures Log2(Power2(s)) == s
  {
    if s > 0 {
      LogOfPower(s - 1);
    }
  }

  /** With a power of two for its set count, a level puts block b into set b modulo that count. */
  lemma SetByModulo(cfg: Config, b: nat, s: nat)
    requires cfg.setNum == Power2(s)
    ensures SetOf(cfg, b) == b % cfg.setNum && TagOf(cfg, b) == b / cfg.setNum
  {
    LogOfPower(s);
    SplitByPower(b, s);
  }

  /** Two blocks with the same set and tag are the same block: flush addresses are exact. */
  lemma FlushExact(cfg: Config, b: nat)
    ensures BlockOf(cfg, TagOf(cfg, b), SetOf(cfg, b)) == b
  {
    JoinSplit(b, Log2(cfg.setNum));
  }

  /** Every set number that can be asked for is one the entries were numbered with, power of
      two or not. */
  lemma {:induction false} LowBelow(x: nat, n: nat)
    requires n > 0
    ensures Low(x, Log2(n)) < n
  {
    if n % 2 == 0 {
      LowBelow(x / 2, n / 2);
    }
  }

  // ----- the invariant -----

  predicate Names(cfg: Config, e: Entry, b: nat) {
    Matches(e, SetOf(cfg, b), TagOf(cfg, b))
  }

  function Look(st: Store, a: nat): Byte {
    match st
    case Memory(bytes, _, _) => if a < |bytes| then bytes[a] else 0
    case Cache(cfg, es, _, _, lower) =>
      var k := FirstHit(es, SetOf(cfg, a / BLOCK), TagOf(cfg, a / BLOCK), 0);
      if k < |es| && |es[k].data| == BLOCK then es[k].data[a % BLOCK] else Look(lower, a)
  }

  function BlockNumber(cfg: Config, e: Entry): nat {
    BlockOf(cfg, e.tag, e.set_)
  }

  predicate EntryOk(cfg: Config, e: Entry, size: nat) {
    && |e.data| == BLOCK
    && (e.valid ==> Names(cfg, e, BlockNumber(cfg, e)) && BlockNumber(cfg, e) * BLOCK + BLOCK <= size)
    && (e.valid && cfg.through ==> !e.dirty)
  }

  /** The 64 bytes the storage shows in block b. */
  predicate ShowsBlock(st: Store, b: nat, data: seq<Byte>) {
    |data| == BLOCK && forall j: nat | j < BLOCK :: data[j] == Look(st, b * BLOCK + j)
  }

  predicate EntryClean(cfg: Config, e: Entry, lower: Store) {
    e.valid && !e.dirty ==> ShowsBlock(lower, BlockNumber(cfg, e), e.data)
  }

  predicate Apart(e: Entry, f: Entry) {
    e.valid && f.valid ==> e.set_ != f.set_ || e.tag != f.tag
  }

  predicate Numbered(cfg: Config, es: seq<Entry>) {
    && cfg.setNum > 0 && cfg.setNum <= |es|
    && forall i | 0 <= i < |es| :: es[i].set_ == i % cfg.setNum
  }

  predicate Coherent(st: Store) {
    match st
    case Memory(bytes, _, _) => |bytes| % BLOCK == 0
    case Cache(cfg, es, _, _, lower) =>
      && Coherent(lower) && Numbered(cfg, es)
      && (forall i | 0 <= i < |es| :: EntryOk(cfg, es[i], Size(lower)))
      && (forall i | 0 <= i < |es| :: EntryClean(cfg, es[i], lower))
      && (forall i, j | 0 <= i < j < |es| :: Apart(es[i], es[j]))
  }

  lemma {:induction false} SizeAligned(st: Store)
    requires Coherent(st)
    ensures Size(st) % BLOCK == 0
  {
    if st.Cache? {
      SizeAligned(st.lower);
    }
  }

  lemma InBlock(b: nat, j: nat)
    requires j < BLOCK
    ensures (b * BLOCK + j) / BLOCK == b && (b * BLOCK + j) % BLOCK == j
  {
  }

  // ----- which entry a look-up finds -----

  lemma NamesIsBlockNumber(cfg: Config, e: Entry, b: nat)
    requires Names(cfg, e, b)
    ensures BlockNumber(cfg, e) == b
  {
    FlushExact(cfg, b);
  }

  lemma LookHit(st: Store, k: nat, a: nat)
    requires st.Cache? && Coherent(st) && k < |st.entries| && Names(st.cfg, st.entries[k], a / BLOCK)
    ensures Look(st, a) == st.entries[k].data[a % BLOCK]
  {
    var f := FirstHit(st.entries, SetOf(st.cfg, a / BLOCK), TagOf(st.cfg, a / BLOCK), 0);
    assert f <= k;
    assert Apart(st.entries[f], st.entries[k]) || f == k;
    assert EntryOk(st.cfg, st.entries[k], Size(st.lower));
  }

  predicate Absent(cfg: Config, es: seq<Entry>, b: nat) {
    forall i | 0 <= i < |es| :: !Names(cfg, es[i], b)
  }

  lemma LookMiss(st: Store, a: nat)
    requires st.Cache? && Absent(st.cfg, st.entries, a / BLOCK)
    ensures Look(st, a) == Look(st.lower, a)
  {
  }

  // ----- changing one block -----

  /** The two storages agree outside block b. */
  ghost predicate SameOutside(s: Store, t: Store, b: nat) {
    Size(t) == Size(s) && forall a: nat {:trigger Look(t, a)} :: a / BLOCK != b ==> Look(t, a) == Look(s, a)
  }

  ghost predicate SameView(s: Store, t: Store) {
    Size(t) == Size(s) && forall a: nat {:trigger Look(t, a)} :: Look(t, a) == Look(s, a)
  }

  /** Clean entries of other blocks stay clean when the lower level changes in block b only. */
  lemma StillClean(cfg: Config, e: Entry, s: Store, t: Store, b: nat)
    requires EntryClean(cfg, e, s) && SameOutside(s, t, b) && (e.valid ==> BlockNumber(cfg, e) != b)
    ensures EntryClean(cfg, e, t)
  {
  }

  /** Swapping an entry that does not name block c for another that does not leaves the first
      entry that does where it was. */
  lemma SameFirst(cfg: Config, es: seq<Entry>, k: nat, e: Entry, c: nat)
    requires k < |es| && !Names(cfg, es[k], c) && !Names(cfg, e, c)
    ensures FirstHit(es[k := e], SetOf(cfg, c), TagOf(cfg, c), 0) == FirstHit(es, SetOf(cfg, c), TagOf(cfg, c), 0)
  {
    var f := FirstHit(es, SetOf(cfg, c), TagOf(cfg, c), 0);
    var g := FirstHit(es[k := e], SetOf(cfg, c), TagOf(cfg, c), 0);
    assert f < |es| ==> Names(cfg, es[k := e][f], c);
    assert g < |es| ==> Names(cfg, es[g], c);
  }

  /** st' is st with entry k replaced by one for block b, over a lower level t that differs
      from st's in block b only. */
  ghost predicate Replaces(st: Store, k: nat, e: Entry, t: Store, b: nat, st': Store) {
    && st.Cache? && k < |st.entries| && e.set_ == st.entries[k].set_
    && Names(st.cfg, e, b) && b * BLOCK + BLOCK <= Size(st)
    && |e.data| == BLOCK && (st.cfg.through ==> !e.dirty) && (!e.dirty ==> ShowsBlock(t, b, e.data))
    && (forall i | 0 <= i < |st.entries| && i != k :: !Names(st.cfg, st.entries[i], b))
    && (st.entries[k].valid ==> Names(st.cfg, st.entries[k], b))
    && Coherent(t) && SameOutside(st.lower, t, b)
    && st'.Cache? && st'.cfg == st.cfg && st'.entries == st.entries[k := e] && st'.lower == t
  }

  /** A valid entry that does not name block b has another block number. */
  lemma OtherBlock(cfg: Config, e: Entry, size: nat, b: nat)
    requires EntryOk(cfg, e, size) && !Names(cfg, e, b) && e.valid
    ensures BlockNumber(cfg, e) != b
  {
  }

  lemma ReplaceKeepsEntries(st: Store, k: nat, e: Entry, t: Store, b: nat, st': Store)
    requires Coherent(st) && Replaces(st, k, e, t, b, st')
    ensures forall i | 0 <= i < |st'.entries| :: EntryOk(st.cfg, st'.entries[i], Size(t))
    ensures forall i | 0 <= i < |st'.entries| :: EntryClean(st.cfg, st'.entries[i], t)
  {
    NamesIsBlockNumber(st.cfg, e, b);
    forall i | 0 <= i < |st'.entries|
      ensures EntryOk(st.cfg, st'.entries[i], Size(t)) && EntryClean(st.cfg, st'.entries[i], t)
    {
      if i != k {
        var f := st.entries[i];
        assert EntryOk(st.cfg, f, Size(st.lower)) && EntryClean(st.cfg, f, st.lower);
        if f.valid {
          OtherBlock(st.cfg, f, Size(st.lower), b);
        }
        StillClean(st.cfg, f, st.lower, t, b);
      }
    }
  }

  lemma ReplaceCoherent(st: Store, k: nat, e: Entry, t: Store, b: nat, st': Store)
    requires Coherent(st) && Replaces(st, k, e, t, b, st')
    ensures Coherent(st')
  {
    ReplaceKeepsEntries(st, k, e, t, b, st');
    forall i, j | 0 <= i < j < |st'.entries|
      ensures Apart(st'.entries[i], st'.entries[j])
    {
      assert Apart(st.entries[i], st.entries[j]);
    }
  }

  lemma ReplaceOutside(st: Store, k: nat, e: Entry, t: Store, b: nat, st': Store, a: nat)
    requires Replaces(st, k, e, t, b, st') && a / BLOCK != b
    ensures Look(st', a) == Look(st, a)
  {
    DifferentBlock(st.cfg, e, b, a / BLOCK);
    if st.entries[k].valid {
      DifferentBlock(st.cfg, st.entries[k], b, a / BLOCK);
    }
    SameFirst(st.cfg, st.entries, k, e, a / BLOCK);
    assert Look(t, a) == Look(st.lower, a);
  }

  /** Only block b changes, and it now shows the entry's bytes. */
  lemma ReplaceLook(st: Store, k: nat, e: Entry, t: Store, b: nat, st': Store)
    requires Coherent(st) && Replaces(st, k, e, t, b, st')
    ensures Coherent(st') && SameOutside(st, st', b) && ShowsBlock(st', b, e.data)
  {
    ReplaceCoherent(st, k, e, t, b, st');
    forall a: nat | a / BLOCK != b
      ensures Look(st', a) == Look(st, a)
    {
      ReplaceOutside(st, k, e, t, b, st', a);
    }
    forall j: nat | j < BLOCK
      ensures e.data[j] == Look(st', b * BLOCK + j)
    {
      LookHit(st', k, b * BLOCK + j);
    }
  }

  lemma DifferentBlock(cfg: Config, e: Entry, b: nat, c: nat)
    requires Names(cfg, e, b) && b != c
    ensures !Names(cfg, e, c)
  {
    if Names(cfg, e, c) {
      NamesIsBlockNumber(cfg, e, b);
      NamesIsBlockNumber(cfg, e, c);
    }
  }

  // ----- dropping an entry, changing only the lower level, ageing -----

  /** st' is st with entry v invalidated, over a lower level t that shows what v held. */
  ghost predicate Drops(st: Store, v: nat, t: Store, st': Store) {
    && st.Cache? && v < |st.entries| && st.entries[v].valid
    && Coherent(t) && SameOutside(st.lower, t, BlockNumber(st.cfg, st.entries[v]))
    && ShowsBlock(t, BlockNumber(st.cfg, st.entries[v]), st.entries[v].data)
    && st'.Cache? && st'.cfg == st.cfg && st'.lower == t
    && st'.entries == st.entries[v := st.entries[v].(valid := false)]
  }

  lemma DropNamesOnly(st: Store, v: nat, i: nat)
    requires st.Cache? && Coherent(st) && v < |st.entries| && st.entries[v].valid && i < |st.entries| && i != v
    ensures !Names(st.cfg, st.entries[i], BlockNumber(st.cfg, st.entries[v]))
  {
    assert EntryOk(st.cfg, st.entries[v], Size(st.lower));
    assert if i < v then Apart(st.entries[i], st.entries[v]) else Apart(st.entries[v], st.entries[i]);
  }

  lemma DropCoherent(st: Store, v: nat, t: Store, st': Store)
    requires Coherent(st) && Drops(st, v, t, st')
    ensures Coherent(st')
  {
    var b := BlockNumber(st.cfg, st.entries[v]);
    forall i | 0 <= i < |st'.entries|
      ensures EntryOk(st.cfg, st'.entries[i], Size(t)) && EntryClean(st.cfg, st'.entries[i], t)
    {
      var f := st.entries[i];
      assert EntryOk(st.cfg, f, Size(st.lower)) && EntryClean(st.cfg, f, st.lower);
      if i != v {
        DropNamesOnly(st, v, i);
        if f.valid {
          OtherBlock(st.cfg, f, Size(st.lower), b);
        }
        StillClean(st.cfg, f, st.lower, t, b);
      }
    }
    forall i, j | 0 <= i < j < |st'.entries|
      ensures Apart(st'.entries[i], st'.entries[j])
    {
      assert Apart(st.entries[i], st.entries[j]);
    }
  }

  lemma DropLook(st: Store, v: nat, t: Store, st': Store)
    requires Coherent(st) && Drops(st, v, t, st')
    ensures Coherent(st') && SameView(st, st')
  {
    DropCoherent(st, v, t, st');
    var b := BlockNumber(st.cfg, st.entries[v]);
    assert EntryOk(st.cfg, st.entries[v], Size(st.lower));
    forall a: nat
      ensures Look(st', a) == Look(st, a)
    {
      if a / BLOCK == b {
        LookHit(st, v, a);
        forall i | 0 <= i < |st'.entries|
          ensures !Names(st.cfg, st'.entries[i], b)
        {
          if i != v {
            DropNamesOnly(st, v, i);
          }
        }
        LookMiss(st', a);
        assert a == b * BLOCK + a % BLOCK;
      } else {
        DifferentBlock(st.cfg, st.entries[v], b, a / BLOCK);
        SameFirst(st.cfg, st.entries, v, st'.entries[v], a / BLOCK);
        assert Look(t, a) == Look(st.lower, a);
      }
    }
  }

  /** No entry names block b, and the lower level changes in block b only. */
  lemma LowerOnly(st: Store, t: Store, b: nat, st': Store)
    requires st.Cache? && Coherent(st) && Absent(st.cfg, st.entries, b) && Coherent(t) && SameOutside(st.lower, t, b)
    requires st'.Cache? && st'.cfg == st.cfg && st'.entries == st.entries && st'.lower == t
    ensures Coherent(st') && SameOutside(st, st', b)
    ensures forall a: nat {:trigger Look(st', a)} :: a / BLOCK == b ==> Look(st', a) == Look(t, a)
  {
    forall i | 0 <= i < |st.entries|
      ensures EntryOk(st.cfg, st.entries[i], Size(t)) && EntryClean(st.cfg, st.entries[i], t)
    {
      var f := st.entries[i];
      assert EntryOk(st.cfg, f, Size(st.lower)) && EntryClean(st.cfg, f, st.lower) && !Names(st.cfg, f, b);
      if f.valid {
        OtherBlock(st.cfg, f, Size(st.lower), b);
      }
      StillClean(st.cfg, f, st.lower, t, b);
    }
    forall a: nat
      ensures if a / BLOCK == b then Look(st', a) == Look(t, a) else Look(st', a) == Look(st, a)
    {
      if a / BLOCK == b {
        LookMiss(st', a);
      } else {
        assert Look(t, a) == Look(st.lower, a);
      }
    }
  }

  /** Two entry arrays that differ in time stamps only. */
  predicate SameButStamps(es: seq<Entry>, fs: seq<Entry>) {
    |fs| == |es| && forall i | 0 <= i < |es| :: fs[i] == es[i].(stamp := fs[i].stamp)
  }

  lemma StampsDoNotMatter(st: Store, st': Store)
    requires st.Cache? && st'.Cache? && st'.cfg == st.cfg && st'.lower == st.lower
    requires SameButStamps(st.entries, st'.entries)
    ensures Coherent(st) ==> Coherent(st')
    ensures SameView(st, st')
  {
    if Coherent(st) {
      forall i | 0 <= i < |st.entries|
        ensures EntryOk(st.cfg, st'.entries[i], Size(st.lower)) && EntryClean(st.cfg, st'.entries[i], st.lower)
      {
        assert EntryOk(st.cfg, st.entries[i], Size(st.lower)) && EntryClean(st.cfg, st.entries[i], st.lower);
      }
      forall i, j | 0 <= i < j < |st.entries|
        ensures Apart(st'.entries[i], st'.entries[j])
      {
        assert Apart(st.entries[i], st.entries[j]);
      }
    }
    forall a: nat
      ensures Look(st', a) == Look(st, a)
    {
      SameFirstStamps(st.cfg, st.entries, st'.entries, a / BLOCK);
    }
  }

  lemma SameFirstStamps(cfg: Config, es: seq<Entry>, fs: seq<Entry>, c: nat)
    requires SameButStamps(es, fs)
    ensures FirstHit(fs, SetOf(cfg, c), TagOf(cfg, c), 0) == FirstHit(es, SetOf(cfg, c), TagOf(cfg, c), 0)
  {
    var f := FirstHit(es, SetOf(cfg, c), TagOf(cfg, c), 0);
    var g := FirstHit(fs, SetOf(cfg, c), TagOf(cfg, c), 0);
    assert f < |es| ==> Names(cfg, fs[f], c);
    assert g < |es| ==> Names(cfg, es[g], c);
  }

  // ----- what a request must do -----

  ghost predicate Fits(st: Store, addr: nat, n: nat) {
    n > 0 && addr % BLOCK + n <= BLOCK && addr + n <= Size(st)
  }

  /** The view changes by content written at addr, and in no other way. */
  ghost predicate Written(s: Store, t: Store, addr: nat, content: seq<Byte>) {
    Size(t) == Size(s) &&
    forall a: nat {:trigger Look(t, a)} ::
      Look(t, a) == if addr <= a < addr + |content| then content[a - addr] else Look(s, a)
  }

  /** The bytes the storage shows at addr. */
  function Shown(st: Store, addr: nat, n: nat): (r: seq<Byte>)
    ensures |r| == n
  {
    seq<Byte>(n, i requires 0 <= i < n => Look(st, addr + i))
  }

  ghost predicate Correct(st: Store, addr: nat, n: nat, read: bool, content: seq<Byte>, r: Reply) {
    && Coherent(r.store)
    && (read ==> SameView(st, r.store) && r.content == Shown(st, addr, n))
    && (!read ==> Written(st, r.store, addr, content))
  }
}
