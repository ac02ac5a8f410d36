/** Virtual memory over the cache hierarchy is a flat map of bytes.

    Represents(sp, st, mem) says that the mapped virtual addresses are the keys of mem and
    that the hierarchy shows mem's byte at each translated address. Loads and stores through
    translation and the top cache level do to mem what the pipeline's memory model does. */
module VirtualMemory {
  import opened Words
  import opened AddressSpace
  import S = Storage
  import C = Coherence
  import T = Transparency
  import I = Isa

  predicate Translated(sp: Space, va: int) {
    va >= 0 && Translate(sp, va).Some?
  }

  /** The map has the address if it translates, and then the byte shown there. */
  predicate SameByte(sp: Space, st: S.Store, mem: I.Mem, va: int) {
    && (va in mem <==> Translated(sp, va))
    && (Translated(sp, va) ==> mem[va] == C.Look(st, Translate(sp, va).value))
  }

  ghost predicate Represents(sp: Space, st: S.Store, mem: I.Mem) {
    SpaceOk(sp) && C.Coherent(st) && S.Size(st) == MEM_SIZE && forall va: int :: SameByte(sp, st, mem, va)
  }

  /** A line lies in one page. */
  lemma SameLine(va: nat, i: nat)
    requires va % I.LINE + i < I.LINE
    ensures (va + i) / PAGE == va / PAGE && (va + i) % PAGE == va % PAGE + i
  {
  }

  /** A page of memory holds whole lines, and is in memory to its end. */
  lemma InMemory(ppn: nat, va: nat, i: nat)
    requires ppn * PAGE + va % PAGE < MEM_SIZE && va % PAGE + i < PAGE
    ensures ppn * PAGE + (va % PAGE + i) < MEM_SIZE
    ensures (ppn * PAGE + va % PAGE) % S.BLOCK == va % I.LINE
  {
    assert ppn < PHYS_PAGES;
    assert va == va / PAGE * PAGE + va % PAGE;
  }

  /** The whole access is in the page of its first byte, at consecutive physical addresses. */
  lemma SamePage(sp: Space, va: nat, i: nat, n: nat)
    requires va % I.LINE + n <= I.LINE && i < n && Translate(sp, va).Some?
    ensures Translate(sp, va + i) == Some(Translate(sp, va).value + i)
    ensures Translate(sp, va).value % S.BLOCK == va % I.LINE
  {
    SameLine(va, i);
    InMemory(sp.table[va / PAGE].ppn, va, i);
  }

  /** The bytes of an access inside a line are mapped if the first one is. */
  lemma LineMapped(sp: Space, va: Word, n: nat)
    requires va % I.LINE + n <= I.LINE && n > 0 && Translate(sp, va).Some?
    ensures forall x | va <= x < va + n :: Translated(sp, x)
    ensures Translate(sp, va).value % S.BLOCK + n <= S.BLOCK && Translate(sp, va).value + n <= MEM_SIZE
  {
    forall x | va <= x < va + n
      ensures Translated(sp, x)
    {
      SamePage(sp, va, x - va, n);
    }
    SamePage(sp, va, n - 1, n);
  }

  /** What the translation and the cache assert is what the flat model demands. */
  lemma AccessFits(sp: Space, st: S.Store, mem: I.Mem, va: Word, n: nat)
    requires Represents(sp, st, mem) && n > 0
    ensures I.CanAccess(mem, va, n) <==>
      va % I.LINE + n <= I.LINE && Translate(sp, va).Some?
    ensures I.CanAccess(mem, va, n) ==> C.Fits(st, Translate(sp, va).value, n)
  {
    if va % I.LINE + n <= I.LINE && Translate(sp, va).Some? {
      LineMapped(sp, va, n);
      forall x | va <= x < va + n
        ensures x in mem
      {
        assert SameByte(sp, st, mem, x);
      }
    }
    if I.CanAccess(mem, va, n) {
      assert (va as int) in mem;
      assert SameByte(sp, st, mem, va);
    }
  }

  // ----- values as bytes, least significant first -----

  /** The value of a sequence of bytes. */
  function Value(bs: seq<Byte>): nat {
    if bs == [] then 0 else bs[0] + 256 * Value(bs[1..])
  }

  predicate Holds(mem: I.Mem, a: int, bs: seq<Byte>, i: nat)
    requires i < |bs|
  {
    a + i in mem && mem[a + i] == bs[i]
  }

  lemma {:induction false} LoadIsValue(mem: I.Mem, a: int, bs: seq<Byte>)
    requires forall i | 0 <= i < |bs| :: Holds(mem, a, bs, i)
    ensures I.LoadBytes(mem, a, |bs|) == Value(bs)
    decreases |bs|
  {
    if bs != [] {
      assert Holds(mem, a, bs, 0);
      var next, rest := a + 1, bs[1..];
      forall i | 0 <= i < |rest|
        ensures Holds(mem, next, rest, i)
      {
        assert Holds(mem, a, bs, i + 1);
      }
      LoadIsValue(mem, next, rest);
    }
  }

  /** Only the n bytes at a change, and they become the low bytes of v. */
  lemma {:induction false} StoreIsBytes(mem: I.Mem, a: int, n: nat, v: nat)
    requires forall x | a <= x < a + n :: x in mem
    ensures var t := I.StoreBytes(mem, a, n, v);
      && t.Keys == mem.Keys
      && (forall x | x in mem :: t[x] == if a <= x < a + n then I.Bytes(v, n)[x - a] else mem[x])
    decreases n
  {
    I.StoreKeepsKeys(mem, a, n, v);
    if n > 0 {
      StoreIsBytes(mem[a := v % 256], a + 1, n - 1, v / 256);
    }
  }

  // ----- one access -----

  datatype Access = Load(va: Word, n: nat) | Store(va: Word, n: nat, v: nat)

  /** An access as the stages make it: translate the first address, then ask the top level.
      None where the translation or the cache asserts. */
  function Serve(sp: Space, st: S.Store, q: Access): Option<(S.Store, nat)> {
    match Translate(sp, q.va)
    case None => None
    case Some(pa) =>
      if pa % S.BLOCK + q.n > S.BLOCK then None else
        match q
        case Load(_, n) => var r := S.Handle(st, pa, n, true, []); Some((r.store, Value(r.content)))
        case Store(_, n, v) => Some((S.Handle(st, pa, n, false, I.Bytes(v, n)).store, 0))
  }

  /** The same access to a flat map. */
  function FlatServe(mem: I.Mem, q: Access): Option<(I.Mem, nat)> {
    if !I.CanAccess(mem, q.va, q.n) then None else
      match q
      case Load(va, n) => Some((mem, I.LoadBytes(mem, va, n)))
      case Store(va, n, v) => Some((I.StoreBytes(mem, va, n, v), 0))
  }

  /** What the map holds at an access that fits is what the hierarchy shows at its address. */
  lemma FitsAndShows(sp: Space, st: S.Store, mem: I.Mem, va: Word, n: nat)
    requires Represents(sp, st, mem) && n > 0 && I.CanAccess(mem, va, n)
    ensures Translate(sp, va).Some?
    ensures var pa := Translate(sp, va).value;
      C.Fits(st, pa, n) && forall i | 0 <= i < n :: Holds(mem, va, C.Shown(st, pa, n), i)
  {
    AccessFits(sp, st, mem, va, n);
    var pa := Translate(sp, va).value;
    forall i | 0 <= i < n
      ensures Holds(mem, va, C.Shown(st, pa, n), i)
    {
      SamePage(sp, va, i, n);
      assert SameByte(sp, st, mem, va + i);
    }
  }

  lemma SameViewRepresents(sp: Space, st: S.Store, t: S.Store, mem: I.Mem)
    requires Represents(sp, st, mem) && C.Coherent(t) && C.SameView(st, t)
    ensures Represents(sp, t, mem)
  {
    forall va: int
      ensures SameByte(sp, t, mem, va)
    {
      assert SameByte(sp, st, mem, va);
    }
  }

  lemma LoadSame(sp: Space, st: S.Store, mem: I.Mem, va: Word, n: nat)
    requires Represents(sp, st, mem) && n > 0 && I.CanAccess(mem, va, n)
    ensures var r := Serve(sp, st, Load(va, n));
      && r.Some? && r.value.1 == I.LoadBytes(mem, va, n) && Represents(sp, r.value.0, mem)
  {
    FitsAndShows(sp, st, mem, va, n);
    var pa := Translate(sp, va).value;
    T.HandleCorrect(st, pa, n, true, []);
    LoadIsValue(mem, va, C.Shown(st, pa, n));
    SameViewRepresents(sp, st, S.Handle(st, pa, n, true, []).store, mem);
  }

  /** Where a store that fits lands among the mapped addresses. */
  lemma Lands(sp: Space, va: nat, n: nat, x: nat)
    requires SpaceOk(sp) && va % I.LINE + n <= I.LINE && n > 0 && Translate(sp, va).Some? && Translate(sp, x).Some?
    ensures var pa := Translate(sp, va).value; var px := Translate(sp, x).value;
      (pa <= px < pa + n <==> va <= x < va + n) && (va <= x < va + n ==> px - pa == x - va)
  {
    var pa, px := Translate(sp, va).value, Translate(sp, x).value;
    if pa <= px < pa + n {
      SamePage(sp, va, px - pa, n);
      TranslateInjective(sp, va + (px - pa), x);
    }
    if va <= x < va + n {
      SamePage(sp, va, x - va, n);
    }
  }

  /** One byte after bs has been written at a mapped address. */
  lemma WrittenByte(sp: Space, st: S.Store, t: S.Store, mem: I.Mem, m: I.Mem, va: nat, bs: seq<Byte>, x: int)
    requires SpaceOk(sp) && SameByte(sp, st, mem, x) && va % I.LINE + |bs| <= I.LINE && bs != []
    requires Translate(sp, va).Some? && C.Written(st, t, Translate(sp, va).value, bs)
    requires (x in m <==> x in mem) && (x in m ==> m[x] == if va <= x < va + |bs| then bs[x - va] else mem[x])
    ensures SameByte(sp, t, m, x)
  {
    if Translated(sp, x) {
      var pa, px := Translate(sp, va).value, Translate(sp, x).value;
      Lands(sp, va, |bs|, x);
      assert C.Look(t, px) == if pa <= px < pa + |bs| then bs[px - pa] else C.Look(st, px);
    }
  }

  /** The map with bs at a agrees with a hierarchy that was written at pa. */
  lemma WrittenRepresents(sp: Space, st: S.Store, t: S.Store, mem: I.Mem, m: I.Mem, va: nat, bs: seq<Byte>)
    requires Represents(sp, st, mem) && C.Coherent(t) && va % I.LINE + |bs| <= I.LINE && bs != []
    requires Translate(sp, va).Some? && C.Written(st, t, Translate(sp, va).value, bs)
    requires m.Keys == mem.Keys && forall x | x in mem :: m[x] == if va <= x < va + |bs| then bs[x - va] else mem[x]
    ensures Represents(sp, t, m)
  {
    forall x: int
      ensures SameByte(sp, t, m, x)
    {
      assert SameByte(sp, st, mem, x);
      assert x in m.Keys <==> x in mem.Keys;
      WrittenByte(sp, st, t, mem, m, va, bs, x);
    }
  }

  lemma StoredRepresents(sp: Space, st: S.Store, t: S.Store, mem: I.Mem, va: Word, n: nat, v: nat)
    requires Represents(sp, st, mem) && n > 0 && I.CanAccess(mem, va, n) && Translate(sp, va).Some?
    requires C.Coherent(t) && C.Written(st, t, Translate(sp, va).value, I.Bytes(v, n))
    ensures Represents(sp, t, I.StoreBytes(mem, va, n, v))
  {
    StoreIsBytes(mem, va, n, v);
    WrittenRepresents(sp, st, t, mem, I.StoreBytes(mem, va, n, v), va, I.Bytes(v, n));
  }

  lemma StoreSame(sp: Space, st: S.Store, mem: I.Mem, va: Word, n: nat, v: nat)
    requires Represents(sp, st, mem) && n > 0 && I.CanAccess(mem, va, n)
    ensures var r := Serve(sp, st, Store(va, n, v));
      r.Some? && Represents(sp, r.value.0, I.StoreBytes(mem, va, n, v))
  {
    FitsAndShows(sp, st, mem, va, n);
    var pa := Translate(sp, va).value;
    T.HandleCorrect(st, pa, n, false, I.Bytes(v, n));
    StoredRepresents(sp, st, S.Handle(st, pa, n, false, I.Bytes(v, n)).store, mem, va, n, v);
  }

  /** An access succeeds on the hierarchy exactly when it does on the flat map, delivers the
      same value, and leaves the hierarchy representing the flat map it leaves. */
  lemma ServeSame(sp: Space, st: S.Store, mem: I.Mem, q: Access)
    requires Represents(sp, st, mem) && q.n > 0
    ensures Serve(sp, st, q).Some? <==> FlatServe(mem, q).Some?
    ensures FlatServe(mem, q).Some? ==>
      && Serve(sp, st, q).value.1 == FlatServe(mem, q).value.1
      && Represents(sp, Serve(sp, st, q).value.0, FlatServe(mem, q).value.0)
  {
    AccessFits(sp, st, mem, q.va, q.n);
    if Translate(sp, q.va).Some? {
      SamePage(sp, q.va, 0, 1);
    }
    if I.CanAccess(mem, q.va, q.n) {
      match q
      case Load(va, n) => LoadSame(sp, st, mem, va, n);
      case Store(va, n, v) => StoreSame(sp, st, mem, va, n, v);
    }
  }

  // ----- runs of accesses -----

  /** The values delivered, up to the end or to the first access that asserts. */
  function ServeAll(sp: Space, st: S.Store, qs: seq<Access>): Option<(S.Store, seq<nat>)> {
    if qs == [] then Some((st, [])) else
      match ServeAll(sp, st, qs[..|qs| - 1])
      case None => None
      case Some((s, out)) =>
        match Serve(sp, s, qs[|qs| - 1])
        case None => None
        case Some((t, v)) => Some((t, out + [v]))
  }

  function FlatServeAll(mem: I.Mem, qs: seq<Access>): Option<(I.Mem, seq<nat>)> {
    if qs == [] then Some((mem, [])) else
      match FlatServeAll(mem, qs[..|qs| - 1])
      case None => None
      case Some((m, out)) =>
        match FlatServe(m, qs[|qs| - 1])
        case None => None
        case Some((t, v)) => Some((t, out + [v]))
  }

  /** Virtual memory as a flat map, over every run of loads and stores of any sizes. */
  lemma {:induction false} VirtualMemoryIsFlat(sp: Space, st: S.Store, mem: I.Mem, qs: seq<Access>)
    requires Represents(sp, st, mem) && forall i | 0 <= i < |qs| :: qs[i].n > 0
    ensures ServeAll(sp, st, qs).Some? <==> FlatServeAll(mem, qs).Some?
    ensures FlatServeAll(mem, qs).Some? ==>
      && ServeAll(sp, st, qs).value.1 == FlatServeAll(mem, qs).value.1
      && Represents(sp, ServeAll(sp, st, qs).value.0, FlatServeAll(mem, qs).value.0)
  {
    if qs != [] {
      var init, q := qs[..|qs| - 1], qs[|qs| - 1];
      VirtualMemoryIsFlat(sp, st, mem, init);
      if FlatServeAll(mem, init).Some? {
        ServeSame(sp, ServeAll(sp, st, init).value.0, FlatServeAll(mem, init).value.0, q);
      }
    }
  }
}
