/** Page table and physical page allocation. */
module AddressSpace {
  import opened Words
  import BitMap

  const PAGE := 4096
  const PHYS_PAGES := 1024
  const MEM_SIZE := PAGE * PHYS_PAGES
  /** The bitmap has one page more than memory. */
  const BITMAP_PAGES := PHYS_PAGES + 1

  datatype PageEntry = PageEntry(ppn: nat, valid: bool)

  /** A page table and the physical pages handed out. */
  datatype Space = Space(table: map<nat, PageEntry>, used: set<nat>)

  const EMPTY := Space(map[], {})

  const KEYS := 0x8000_0000

  /** The key of a new entry: the program narrows the page number to a signed 32-bit integer and
      widens it again. */
  function KeyOf(vpn: nat): nat {
    var low := vpn % TWO32;
    if low < KEYS then low else low + TWO64 - TWO32
  }

  /** An entry without a physical page, unless the page, or its key, has one already. */
  function AllocEntry(sp: Space, vpn: nat): Space {
    if vpn in sp.table || KeyOf(vpn) in sp.table then sp
    else sp.(table := sp.table[KeyOf(vpn) := PageEntry(0, false)])
  }

  lemma KeyOfSmall(vpn: nat)
    ensures vpn < KEYS ==> KeyOf(vpn) == vpn
    ensures KEYS <= vpn < TWO64 - KEYS ==> KeyOf(vpn) != vpn
  {
  }

  function LeastFree(used: set<nat>, k: nat): (r: Option<nat>)
    requires k <= BITMAP_PAGES
    ensures r.Some? ==> k <= r.value < BITMAP_PAGES && r.value !in used
    ensures forall j: nat | k <= j < (if r.Some? then r.value else BITMAP_PAGES) :: j in used
    decreases BITMAP_PAGES - k
  {
    if k == BITMAP_PAGES then None else if k !in used then Some(k) else LeastFree(used, k + 1)
  }

  /** Gives the entry the least free physical page; None is the program's abort. */
  function AllocPage(sp: Space, vpn: nat): Option<Space>
    requires vpn in sp.table
  {
    if sp.table[vpn].valid then Some(sp) else
      match LeastFree(sp.used, 0)
      case None => None
      case Some(k) => Some(Space(sp.table[vpn := PageEntry(k, true)], sp.used + {k}))
  }

  /** Entry and page together, as the loader and the stack set-up always ask. None also where the
      narrowed key is not the page's and the program uses an entry that is not there. */
  function MapPage(sp: Space, vpn: nat): Option<Space> {
    var t := AllocEntry(sp, vpn);
    if vpn in t.table then AllocPage(t, vpn) else None
  }

  /** The page has an entry, or gets one under its own number. */
  predicate Keyed(sp: Space, vpn: nat) {
    vpn in sp.table || KeyOf(vpn) == vpn
  }

  predicate Mapped(sp: Space, vpn: nat) {
    vpn in sp.table && sp.table[vpn].valid
  }

  /** None where the translation asserts: no entry, no page, or beyond physical memory. */
  function Translate(sp: Space, va: nat): Option<nat> {
    if !Mapped(sp, va / PAGE) then None else
      var pa := sp.table[va / PAGE].ppn * PAGE + va % PAGE;
      if pa < MEM_SIZE then Some(pa) else None
  }

  // ----- the invariant -----

  predicate Distinct(sp: Space, v: nat, w: nat) {
    Mapped(sp, v) && Mapped(sp, w) && v != w ==> sp.table[v].ppn != sp.table[w].ppn
  }

  ghost predicate SpaceOk(sp: Space) {
    && (forall v | v in sp.table :: sp.table[v].valid ==> sp.table[v].ppn in sp.used)
    && (forall v, w | v in sp.table && w in sp.table :: Distinct(sp, v, w))
  }

  lemma MapPageOk(sp: Space, vpn: nat)
    requires SpaceOk(sp) && MapPage(sp, vpn).Some?
    ensures var t := MapPage(sp, vpn).value;
      && SpaceOk(t) && Mapped(t, vpn)
      && (forall v | Mapped(sp, v) :: Mapped(t, v) && t.table[v] == sp.table[v])
      && (forall v | Mapped(t, v) && v != vpn :: Mapped(sp, v))
      && (!Mapped(sp, vpn) ==> t.table[vpn].ppn !in sp.used)
  {
    var t := MapPage(sp, vpn).value;
    forall v, w | v in t.table && w in t.table
      ensures Distinct(t, v, w)
    {
      assert v in sp.table && w in sp.table ==> Distinct(sp, v, w);
    }
  }

  /** Mapping fails exactly for a page without a physical one when every page the bitmap knows is
      taken or the page's key is not its number. */
  lemma MapPageFails(sp: Space, vpn: nat)
    ensures MapPage(sp, vpn).None? <==>
      !Mapped(sp, vpn) && (!Keyed(sp, vpn) || forall k: nat | k < BITMAP_PAGES :: k in sp.used)
  {
    var r := LeastFree(sp.used, 0);
    assert r.Some? ==> r.value !in sp.used;
  }

  /** Distinct mapped addresses have distinct physical addresses. */
  lemma TranslateInjective(sp: Space, a: nat, b: nat)
    requires SpaceOk(sp) && Translate(sp, a).Some? && Translate(sp, b).Some?
    ensures Translate(sp, a) == Translate(sp, b) ==> a == b
  {
    assert Distinct(sp, a / PAGE, b / PAGE);
    assert a == a / PAGE * PAGE + a % PAGE && b == b / PAGE * PAGE + b % PAGE;
  }

  // ----- all allocation runs -----

  function MapAll(sp: Space, vpns: seq<nat>): Option<Space> {
    if vpns == [] then Some(sp) else
      match MapAll(sp, vpns[..|vpns| - 1])
      case None => None
      case Some(t) => MapPage(t, vpns[|vpns| - 1])
  }

  /** Over any allocation run: pages asked for are mapped, nothing else is, existing
      translations never change, and translation stays injective. */
  lemma {:induction false} MapAllOk(sp: Space, vpns: seq<nat>)
    requires SpaceOk(sp) && MapAll(sp, vpns).Some?
    ensures var t := MapAll(sp, vpns).value;
      && SpaceOk(t)
      && (forall v | Mapped(sp, v) :: Mapped(t, v) && t.table[v] == sp.table[v])
      && (forall v | Mapped(t, v) :: Mapped(sp, v) || v in vpns)
      && (forall v | v in vpns :: Mapped(t, v))
  {
    if vpns != [] {
      var init, vpn := vpns[..|vpns| - 1], vpns[|vpns| - 1];
      MapAllOk(sp, init);
      var u := MapAll(sp, init).value;
      MapPageOk(u, vpn);
      var t := MapAll(sp, vpns).value;
      assert vpns == init + [vpn];
      forall v | v in vpns
        ensures Mapped(t, v)
      {
        if v != vpn {
          assert v in init;
        }
      }
    }
  }

  lemma TranslationsKept(sp: Space, vpns: seq<nat>, va: nat)
    requires SpaceOk(sp) && MapAll(sp, vpns).Some? && Translate(sp, va).Some?
    ensures Translate(MapAll(sp, vpns).value, va) == Translate(sp, va)
  {
    MapAllOk(sp, vpns);
  }

  // ----- the object -----

  class PageTable {
    const bmp: BitMap.BitMap
    var ptb: map<nat, PageEntry>

    ghost predicate Valid() {
      bmp.Valid() && bmp.nbits == BITMAP_PAGES
    }

    ghost function Abs(): Space
      reads this, bmp.innerMap
      requires Valid()
    {
      Space(ptb, bmp.Used())
    }

    constructor ()
      ensures Valid() && Abs() == EMPTY && fresh(bmp) && fresh(bmp.innerMap)
    {
      bmp := new BitMap.BitMap(BITMAP_PAGES);
      ptb := map[];
    }

    method AllocPageEntry(vpn: nat)
      requires Valid()
      modifies this
      ensures Abs() == AllocEntry(old(Abs()), vpn)
    {
      if vpn in ptb {
        return;
      }
      if KeyOf(vpn) !in ptb {
        ptb := ptb[KeyOf(vpn) := PageEntry(0, false)];
      }
    }

    method AllocPysPage(vpn: nat) returns (ok: bool)
      requires Valid() && vpn in ptb
      modifies this, bmp.innerMap
      ensures match AllocPage(old(Abs()), vpn)
              case Some(t) => ok && Abs() == t
              case None => !ok
    {
      if ptb[vpn].valid {
        return true;
      }
      ghost var was := Abs();
      var onepp := bmp.FindSet();
      if onepp == -1 {
        return false;
      }
      assert LeastFree(was.used, 0) == Some(onepp) by {
        LeastFreeIs(was.used, 0, onepp);
      }
      ptb := ptb[vpn := PageEntry(onepp, true)];
      return true;
    }

    method TranslateAddr(virAddr: nat) returns (pa: Option<nat>)
      requires Valid()
      ensures pa == Translate(Abs(), virAddr)
    {
      var vpn := virAddr / PAGE;
      if vpn !in ptb || !ptb[vpn].valid {
        return None;
      }
      var finalPA := ptb[vpn].ppn * PAGE + virAddr % PAGE;
      if finalPA < MEM_SIZE {
        return Some(finalPA);
      }
      return None;
    }
  }

  lemma {:induction false} LeastFreeIs(used: set<nat>, k: nat, r: nat)
    requires k <= r < BITMAP_PAGES && r !in used && forall j: nat | k <= j < r :: j in used
    ensures LeastFree(used, k) == Some(r)
    decreases r - k
  {
    if k < r {
      LeastFreeIs(used, k + 1, r);
    }
  }
}
