/** Loading the program's segments and its stack into pages of physical memory, and the flat
    image the loaded machine then shows. */
module Loader {
  import opened Words
  import opened AddressSpace
  import S = Storage
  import T = Transparency
  import I = Isa
  import V = VirtualMemory
  import O = CacheObjects

  /** A segment to load: its address, its bytes in the file, its size in memory. */
  datatype Segment = Segment(vaddr: nat, data: seq<Byte>, memSize: nat)

  /** The segment and its file bytes end before the 64-bit address space does, by a page, so that
      no address the loader computes wraps around. */
  predicate SegmentOk(g: Segment) {
    g.vaddr + g.memSize + PAGE <= TWO64 && g.vaddr + |g.data| <= TWO64
  }

  /** The pages the segment touches in memory. */
  function PageCount(g: Segment): (n: nat)
    ensures n * PAGE < g.vaddr % PAGE + g.memSize + PAGE <= n * PAGE + PAGE
  {
    (g.vaddr % PAGE + g.memSize + PAGE - 1) / PAGE
  }

  /** A segment that reaches into the last page of the address space is never counted to its end:
      the loop's 64-bit product wraps around to 0 and stays below the segment's end. */
  lemma LastPageHangs(g: Segment, n: nat)
    requires TWO64 - PAGE < g.vaddr + g.memSize < TWO64
    ensures Wrap((g.vaddr / PAGE + n) * PAGE) < g.vaddr + g.memSize
  {
    var pages := g.vaddr / PAGE + n;
    assert pages * PAGE == pages / (TWO64 / PAGE) * TWO64 + pages % (TWO64 / PAGE) * PAGE;
  }

  function Pages(first: nat, n: nat): (r: seq<nat>)
    ensures |r| == n && forall i | 0 <= i < n :: r[i] == first + i
    ensures forall v :: v in r <==> first <= v < first + n
  {
    if n == 0 then [] else Pages(first, n - 1) + [first + n - 1]
  }

  function SegmentPages(g: Segment): seq<nat> {
    Pages(g.vaddr / PAGE, PageCount(g))
  }

  // ----- the loader as functions; None where the program aborts -----

  /** Byte by byte through the translation, straight into memory. */
  function CopyBytes(sp: Space, bytes: seq<Byte>, vaddr: nat, data: seq<Byte>): (r: Option<seq<Byte>>)
    requires |bytes| == MEM_SIZE
    ensures r.Some? ==> |r.value| == MEM_SIZE
  {
    if data == [] then Some(bytes) else
      match CopyBytes(sp, bytes, vaddr, data[..|data| - 1])
      case None => None
      case Some(b) =>
        match Translate(sp, vaddr + |data| - 1)
        case None => None
        case Some(pa) => Some(b[pa := data[|data| - 1]])
  }

  function LoadSegment(sp: Space, bytes: seq<Byte>, g: Segment): (r: Option<(Space, seq<Byte>)>)
    requires |bytes| == MEM_SIZE
    ensures r.Some? ==> |r.value.1| == MEM_SIZE
  {
    match MapAll(sp, SegmentPages(g))
    case None => None
    case Some(t) =>
      match CopyBytes(t, bytes, g.vaddr, g.data)
      case None => None
      case Some(b) => Some((t, b))
  }

  function LoadAll(gs: seq<Segment>): (r: Option<(Space, seq<Byte>)>)
    ensures r.Some? ==> |r.value.1| == MEM_SIZE
  {
    if gs == [] then Some((EMPTY, seq<Byte>(MEM_SIZE, _ => 0))) else
      match LoadAll(gs[..|gs| - 1])
      case None => None
      case Some((sp, bytes)) => LoadSegment(sp, bytes, gs[|gs| - 1])
  }

  const STACK_PAGES := 10

  /** The page above the top, the page of the top, and the nine below it, in that order. */
  function StackPages(n: nat): seq<nat>
    requires n <= STACK_PAGES + 1
  {
    if n == 0 then [] else StackPages(n - 1) + [I.STACK_TOP / PAGE + 2 - n]
  }

  function Boot(gs: seq<Segment>): (r: Option<(Space, seq<Byte>)>)
    ensures r.Some? ==> |r.value.1| == MEM_SIZE
  {
    match LoadAll(gs)
    case None => None
    case Some((sp, bytes)) =>
      match MapAll(sp, StackPages(STACK_PAGES + 1))
      case None => None
      case Some(t) => Some((t, bytes))
  }

  // ----- the image -----

  /** The file byte at va: of the last segment with bytes there, if any. */
  function FileByte(gs: seq<Segment>, va: nat): Option<Byte> {
    if gs == [] then None else
      var g := gs[|gs| - 1];
      if g.vaddr <= va < g.vaddr + |g.data| then Some(g.data[va - g.vaddr]) else FileByte(gs[..|gs| - 1], va)
  }

  function ImageByte(gs: seq<Segment>, va: nat): Byte {
    match FileByte(gs, va) case Some(b) => b case None => 0
  }

  predicate Touches(g: Segment, vpn: nat) {
    g.vaddr / PAGE <= vpn < g.vaddr / PAGE + PageCount(g)
  }

  /** The address shows the image if it is mapped, and it is if it has a file byte. */
  predicate ImageAt(sp: Space, bytes: seq<Byte>, gs: seq<Segment>, va: nat)
    requires |bytes| == MEM_SIZE
  {
    && (Translate(sp, va).Some? ==> bytes[Translate(sp, va).value] == ImageByte(gs, va))
    && (FileByte(gs, va).Some? ==> Translate(sp, va).Some?)
  }

  predicate BlankUnused(sp: Space, bytes: seq<Byte>, pa: nat)
    requires pa < |bytes|
  {
    pa / PAGE !in sp.used ==> bytes[pa] == 0
  }

  /** Every address shows the image, unused pages are zero. */
  ghost predicate ShowsImage(sp: Space, bytes: seq<Byte>, gs: seq<Segment>) {
    && SpaceOk(sp) && |bytes| == MEM_SIZE
    && (forall va: nat :: ImageAt(sp, bytes, gs, va))
    && (forall pa: nat | pa < MEM_SIZE :: BlankUnused(sp, bytes, pa))
  }

  /** The page of a mapped address is in use. */
  lemma InUse(sp: Space, va: nat)
    requires SpaceOk(sp) && Translate(sp, va).Some?
    ensures Translate(sp, va).value / PAGE == sp.table[va / PAGE].ppn && sp.table[va / PAGE].ppn in sp.used
  {
  }

  /** Mapping one more page changes no image: its physical page was unused, so zero. */
  lemma MapKeepsImage(sp: Space, bytes: seq<Byte>, gs: seq<Segment>, vpn: nat)
    requires ShowsImage(sp, bytes, gs) && MapPage(sp, vpn).Some?
    ensures ShowsImage(MapPage(sp, vpn).value, bytes, gs)
  {
    MapPageOk(sp, vpn);
    var t := MapPage(sp, vpn).value;
    forall va: nat
      ensures ImageAt(t, bytes, gs, va)
    {
      assert ImageAt(sp, bytes, gs, va);
      if Mapped(sp, va / PAGE) {
        assert Translate(sp, va) == Translate(t, va);
      } else if Translate(t, va).Some? {
        InUse(t, va);
        assert BlankUnused(sp, bytes, Translate(t, va).value);
      }
    }
    forall pa: nat | pa < MEM_SIZE
      ensures BlankUnused(t, bytes, pa)
    {
      assert BlankUnused(sp, bytes, pa);
    }
  }

  lemma {:induction false} MapAllKeepsImage(sp: Space, bytes: seq<Byte>, gs: seq<Segment>, vpns: seq<nat>)
    requires ShowsImage(sp, bytes, gs) && MapAll(sp, vpns).Some?
    ensures ShowsImage(MapAll(sp, vpns).value, bytes, gs)
  {
    if vpns != [] {
      var init := vpns[..|vpns| - 1];
      MapAllKeepsImage(sp, bytes, gs, init);
      MapKeepsImage(MapAll(sp, init).value, bytes, gs, vpns[|vpns| - 1]);
    }
  }

  /** With one more file byte copied, the image is that of the longer segment. */
  lemma PutKeepsImage(sp: Space, bytes: seq<Byte>, gs: seq<Segment>, g: Segment, b: Byte)
    requires ShowsImage(sp, bytes, gs + [g]) && Translate(sp, g.vaddr + |g.data|).Some?
    ensures ShowsImage(sp, bytes[Translate(sp, g.vaddr + |g.data|).value := b],
                       gs + [g.(data := g.data + [b])])
  {
    var at := g.vaddr + |g.data|;
    var pa := Translate(sp, at).value;
    var was, now, put := gs + [g], gs + [g.(data := g.data + [b])], bytes[pa := b];
    forall va: nat
      ensures ImageAt(sp, put, now, va)
    {
      FileBytePut(gs, g, b, va);
      assert ImageAt(sp, bytes, was, va);
      if Translate(sp, va).Some? {
        TranslateInjective(sp, va, at);
      }
    }
    InUse(sp, at);
    forall x: nat | x < MEM_SIZE
      ensures BlankUnused(sp, put, x)
    {
      assert BlankUnused(sp, bytes, x);
    }
  }

  lemma FileBytePut(gs: seq<Segment>, g: Segment, b: Byte, va: nat)
    ensures FileByte(gs + [g.(data := g.data + [b])], va)
            == if va == g.vaddr + |g.data| then Some(b) else FileByte(gs + [g], va)
  {
    var h := g.(data := g.data + [b]);
    assert (gs + [g])[..|gs|] == gs && (gs + [h])[..|gs|] == gs;
  }

  lemma {:induction false} CopyShowsImage(sp: Space, bytes: seq<Byte>, gs: seq<Segment>, g: Segment)
    requires ShowsImage(sp, bytes, gs) && CopyBytes(sp, bytes, g.vaddr, g.data).Some?
    ensures ShowsImage(sp, CopyBytes(sp, bytes, g.vaddr, g.data).value, gs + [g])
    decreases |g.data|
  {
    if g.data == [] {
      NothingPut(sp, bytes, gs, g);
    } else {
      var init, last := g.data[..|g.data| - 1], g.data[|g.data| - 1];
      var h := g.(data := init);
      assert g.data == init + [last] && g == h.(data := h.data + [last]);
      CopyShowsImage(sp, bytes, gs, h);
      PutKeepsImage(sp, CopyBytes(sp, bytes, g.vaddr, init).value, gs, h, last);
    }
  }

  lemma NothingPut(sp: Space, bytes: seq<Byte>, gs: seq<Segment>, g: Segment)
    requires ShowsImage(sp, bytes, gs) && g.data == []
    ensures ShowsImage(sp, bytes, gs + [g])
  {
    assert (gs + [g])[..|gs|] == gs;
    forall va: nat
      ensures ImageAt(sp, bytes, gs + [g], va)
    {
      assert ImageAt(sp, bytes, gs, va);
    }
  }

  /** Loader image: every mapped byte is the file byte of the last segment that has one
      there, and zero elsewhere. */
  lemma {:induction false} LoaderImage(gs: seq<Segment>)
    requires LoadAll(gs).Some?
    ensures ShowsImage(LoadAll(gs).value.0, LoadAll(gs).value.1, gs)
  {
    if gs != [] {
      var init, g := gs[..|gs| - 1], gs[|gs| - 1];
      LoaderImage(init);
      var (sp, bytes) := LoadAll(init).value;
      var pages := SegmentPages(g);
      MapAllKeepsImage(sp, bytes, init, pages);
      CopyShowsImage(MapAll(sp, pages).value, bytes, init, g);
      assert init + [g] == gs;
    }
  }

  // ----- which pages are mapped, in which order, and when the loader succeeds -----

  function Add(order: seq<nat>, v: nat): seq<nat> {
    if v in order then order else order + [v]
  }

  function AddAll(order: seq<nat>, vpns: seq<nat>): seq<nat> {
    if vpns == [] then order else Add(AddAll(order, vpns[..|vpns| - 1]), vpns[|vpns| - 1])
  }

  /** The pages of the segments in the order they are first asked for. */
  function PagesOf(gs: seq<Segment>): seq<nat> {
    if gs == [] then [] else AddAll(PagesOf(gs[..|gs| - 1]), SegmentPages(gs[|gs| - 1]))
  }

  lemma {:induction false} AddAllHas(order: seq<nat>, vpns: seq<nat>)
    ensures |order| <= |AddAll(order, vpns)|
    ensures forall v :: v in AddAll(order, vpns) <==> v in order || v in vpns
  {
    if vpns != [] {
      var init, last := vpns[..|vpns| - 1], vpns[|vpns| - 1];
      AddAllHas(order, init);
      assert vpns == init + [last];
    }
  }

  predicate EachOnce(order: seq<nat>) {
    forall i, j | 0 <= i < j < |order| :: order[i] != order[j]
  }

  lemma {:induction false} AddAllOnce(order: seq<nat>, vpns: seq<nat>)
    requires EachOnce(order)
    ensures EachOnce(AddAll(order, vpns))
  {
    if vpns != [] {
      AddAllOnce(order, vpns[..|vpns| - 1]);
    }
  }

  /** The pages counted for a segment are those that hold a byte of it; for an empty segment, the
      one its address lies inside, if any. */
  lemma PagesExact(g: Segment, v: nat)
    ensures Touches(g, v) <==> g.vaddr < v * PAGE + PAGE && v * PAGE < g.vaddr + g.memSize
  {
    assert g.vaddr == g.vaddr / PAGE * PAGE + g.vaddr % PAGE;
  }

  lemma {:induction false} PagesOfOnce(gs: seq<Segment>)
    ensures EachOnce(PagesOf(gs))
  {
    if gs != [] {
      PagesOfOnce(gs[..|gs| - 1]);
      AddAllOnce(PagesOf(gs[..|gs| - 1]), SegmentPages(gs[|gs| - 1]));
    }
  }

  ghost predicate Touched(gs: seq<Segment>, v: nat) {
    exists i :: 0 <= i < |gs| && Touches(gs[i], v)
  }

  lemma TouchedLast(gs: seq<Segment>, v: nat)
    requires gs != []
    ensures Touched(gs, v) <==> Touched(gs[..|gs| - 1], v) || Touches(gs[|gs| - 1], v)
  {
    var init := gs[..|gs| - 1];
    if Touched(init, v) {
      var i :| 0 <= i < |init| && Touches(init[i], v);
      assert Touches(gs[i], v);
    }
    if Touched(gs, v) {
      var i :| 0 <= i < |gs| && Touches(gs[i], v);
      assert i < |init| ==> Touches(init[i], v);
    }
  }

  /** The pages of the segments are those one of them touches, each once. */
  lemma {:induction false} PagesOfExact(gs: seq<Segment>, v: nat)
    ensures EachOnce(PagesOf(gs)) && (v in PagesOf(gs) <==> Touched(gs, v))
  {
    PagesOfOnce(gs);
    if gs != [] {
      PagesOfExact(gs[..|gs| - 1], v);
      AddAllHas(PagesOf(gs[..|gs| - 1]), SegmentPages(gs[|gs| - 1]));
      TouchedLast(gs, v);
    }
  }

  predicate At(sp: Space, v: nat, ppn: nat) {
    Mapped(sp, v) && sp.table[v].ppn == ppn
  }

  /** The pages of the list, and no others, are mapped, to the first physical pages in turn. */
  ghost predicate Laid(sp: Space, order: seq<nat>) {
    && (forall v :: Mapped(sp, v) <==> v in order)
    && (forall i | 0 <= i < |order| :: At(sp, order[i], i))
    && (forall k: nat :: k in sp.used <==> k < |order|)
    && (forall v | v in sp.table :: v < KEYS)
  }

  lemma MapNew(sp: Space, order: seq<nat>, vpn: nat)
    requires Laid(sp, order) && |order| < BITMAP_PAGES && vpn !in order && vpn < KEYS
    ensures MapPage(sp, vpn).Some? && Laid(MapPage(sp, vpn).value, order + [vpn])
  {
    assert !Mapped(sp, vpn);
    KeyOfSmall(vpn);
    LeastFreeIs(sp.used, 0, |order|);
    var t := MapPage(sp, vpn).value;
    assert t.table == sp.table[vpn := PageEntry(|order|, true)] && t.used == sp.used + {|order|};
    forall i | 0 <= i < |order|
      ensures At(t, order[i], i)
    {
      assert At(sp, order[i], i);
    }
    forall v
      ensures Mapped(t, v) <==> v in order + [vpn]
    {
      assert Mapped(sp, v) <==> v in order;
    }
  }

  /** One more page can be mapped exactly if there is one and its number survives narrowing. */
  lemma MapPageExact(sp: Space, order: seq<nat>, vpn: nat)
    requires Laid(sp, order) && |order| <= BITMAP_PAGES && vpn < TWO64 - KEYS
    ensures MapPage(sp, vpn).Some? <==> |Add(order, vpn)| <= BITMAP_PAGES && vpn < KEYS
    ensures MapPage(sp, vpn).Some? ==> Laid(MapPage(sp, vpn).value, Add(order, vpn))
  {
    assert Mapped(sp, vpn) <==> vpn in order;
    if vpn in order {
      assert MapPage(sp, vpn) == Some(sp);
    } else if |order| < BITMAP_PAGES && vpn < KEYS {
      MapNew(sp, order, vpn);
    } else {
      KeyOfSmall(vpn);
      MapPageFails(sp, vpn);
    }
  }

  predicate AllSmall(vpns: seq<nat>, bound: nat) {
    forall i | 0 <= i < |vpns| :: vpns[i] < bound
  }

  lemma AllSmallLast(vpns: seq<nat>, bound: nat)
    requires vpns != []
    ensures AllSmall(vpns, bound) <==> AllSmall(vpns[..|vpns| - 1], bound) && vpns[|vpns| - 1] < bound
  {
    assert AllSmall(vpns[..|vpns| - 1], bound) ==> forall i | 0 <= i < |vpns| - 1 :: vpns[i] == vpns[..|vpns| - 1][i];
  }

  lemma {:induction false} MapAllExact(sp: Space, order: seq<nat>, vpns: seq<nat>)
    requires Laid(sp, order) && |order| <= BITMAP_PAGES && AllSmall(vpns, TWO64 - KEYS)
    ensures MapAll(sp, vpns).Some? <==> |AddAll(order, vpns)| <= BITMAP_PAGES && AllSmall(vpns, KEYS)
    ensures MapAll(sp, vpns).Some? ==> Laid(MapAll(sp, vpns).value, AddAll(order, vpns))
    decreases |vpns|
  {
    if vpns != [] {
      var init, last := vpns[..|vpns| - 1], vpns[|vpns| - 1];
      AllSmallLast(vpns, TWO64 - KEYS);
      AllSmallLast(vpns, KEYS);
      MapAllExact(sp, order, init);
      match MapAll(sp, init)
      case None =>
      case Some(t) => MapPageExact(t, AddAll(order, init), last);
    }
  }

  /** All but a page beyond memory, which the bitmap has one of. */
  function Usable(order: seq<nat>): seq<nat> {
    if |order| <= PHYS_PAGES then order else order[..PHYS_PAGES]
  }

  predicate InPages(va: nat, pages: seq<nat>) {
    va / PAGE in pages
  }

  lemma TranslatesExact(sp: Space, order: seq<nat>, va: nat)
    requires Laid(sp, order)
    ensures Translate(sp, va).Some? <==> InPages(va, Usable(order))
  {
    var v := va / PAGE;
    assert Mapped(sp, v) <==> v in order;
    if v in order {
      var i :| 0 <= i < |order| && order[i] == v;
      assert At(sp, order[i], i);
      if InPages(va, Usable(order)) {
        var j :| 0 <= j < |Usable(order)| && Usable(order)[j] == v;
        assert At(sp, order[j], j);
      }
    }
  }

  lemma {:induction false} CopySucceeds(sp: Space, bytes: seq<Byte>, vaddr: nat, data: seq<Byte>)
    requires |bytes| == MEM_SIZE && forall va: nat | vaddr <= va < vaddr + |data| :: Translate(sp, va).Some?
    ensures CopyBytes(sp, bytes, vaddr, data).Some?
  {
    if data != [] {
      CopySucceeds(sp, bytes, vaddr, data[..|data| - 1]);
    }
  }

  lemma {:induction false} CopyNeeds(sp: Space, bytes: seq<Byte>, vaddr: nat, data: seq<Byte>, va: nat)
    requires |bytes| == MEM_SIZE && CopyBytes(sp, bytes, vaddr, data).Some? && vaddr <= va < vaddr + |data|
    ensures Translate(sp, va).Some?
    decreases |data|
  {
    if va < vaddr + |data| - 1 {
      CopyNeeds(sp, bytes, vaddr, data[..|data| - 1], va);
    }
  }

  predicate FileIn(g: Segment, pages: seq<nat>) {
    forall va: nat | g.vaddr <= va < g.vaddr + |g.data| :: InPages(va, pages)
  }

  /** The copy succeeds exactly if the file bytes lie in usable pages. */
  lemma CopyExact(t: Space, bytes: seq<Byte>, g: Segment, order: seq<nat>)
    requires |bytes| == MEM_SIZE && Laid(t, order)
    ensures CopyBytes(t, bytes, g.vaddr, g.data).Some? <==> FileIn(g, Usable(order))
  {
    if CopyBytes(t, bytes, g.vaddr, g.data).Some? {
      forall va: nat | g.vaddr <= va < g.vaddr + |g.data|
        ensures InPages(va, Usable(order))
      {
        CopyNeeds(t, bytes, g.vaddr, g.data, va);
        TranslatesExact(t, order, va);
      }
    }
    if FileIn(g, Usable(order)) {
      forall va: nat | g.vaddr <= va < g.vaddr + |g.data|
        ensures Translate(t, va).Some?
      {
        assert InPages(va, Usable(order));
        TranslatesExact(t, order, va);
      }
      CopySucceeds(t, bytes, g.vaddr, g.data);
    }
  }

  lemma PagesAreNumbers(g: Segment)
    requires SegmentOk(g)
    ensures AllSmall(SegmentPages(g), TWO64 - KEYS)
  {
  }

  lemma LoadSegmentExact(sp: Space, bytes: seq<Byte>, g: Segment, order: seq<nat>)
    requires SegmentOk(g) && |bytes| == MEM_SIZE && Laid(sp, order) && |order| <= BITMAP_PAGES
    ensures var r, all := LoadSegment(sp, bytes, g), AddAll(order, SegmentPages(g));
      && (r.Some? <==> |all| <= BITMAP_PAGES && AllSmall(SegmentPages(g), KEYS) && FileIn(g, Usable(all)))
      && (r.Some? ==> Laid(r.value.0, all))
  {
    PagesAreNumbers(g);
    MapAllExact(sp, order, SegmentPages(g));
    match MapAll(sp, SegmentPages(g))
    case None =>
    case Some(t) => CopyExact(t, bytes, g, AddAll(order, SegmentPages(g)));
  }

  /** Every segment's pages have numbers that survive narrowing. */
  ghost predicate SmallPages(gs: seq<Segment>) {
    forall i | 0 <= i < |gs| :: AllSmall(SegmentPages(gs[i]), KEYS)
  }

  /** The file bytes of each segment lie in memory pages mapped by the time they are copied. */
  ghost predicate FilesMapped(gs: seq<Segment>) {
    gs == [] || (FilesMapped(gs[..|gs| - 1]) && FileIn(gs[|gs| - 1], Usable(PagesOf(gs))))
  }

  lemma SmallPagesLast(gs: seq<Segment>)
    requires gs != []
    ensures SmallPages(gs) <==> SmallPages(gs[..|gs| - 1]) && AllSmall(SegmentPages(gs[|gs| - 1]), KEYS)
  {
    var init := gs[..|gs| - 1];
    assert forall i | 0 <= i < |init| :: init[i] == gs[i];
  }

  /** When the loader succeeds: no more pages than the bitmap knows, numbered below 2^31, and file
      bytes in memory pages mapped so far. Then exactly those pages are mapped, in order. */
  lemma {:induction false} LoaderExact(gs: seq<Segment>)
    requires forall i | 0 <= i < |gs| :: SegmentOk(gs[i])
    ensures LoadAll(gs).Some? <==> |PagesOf(gs)| <= BITMAP_PAGES && SmallPages(gs) && FilesMapped(gs)
    ensures LoadAll(gs).Some? ==> Laid(LoadAll(gs).value.0, PagesOf(gs))
  {
    if gs != [] {
      var init, g := gs[..|gs| - 1], gs[|gs| - 1];
      LoaderExact(init);
      AddAllHas(PagesOf(init), SegmentPages(g));
      SmallPagesLast(gs);
      match LoadAll(init)
      case None =>
      case Some((sp, bytes)) => LoadSegmentExact(sp, bytes, g, PagesOf(init));
    }
  }

  /** In particular on segments that hold their file bytes and fit in memory together. */
  lemma {:induction false} FilesFit(gs: seq<Segment>)
    requires |PagesOf(gs)| <= PHYS_PAGES && forall i | 0 <= i < |gs| :: |gs[i].data| <= gs[i].memSize
    ensures FilesMapped(gs)
  {
    if gs != [] {
      var init, g := gs[..|gs| - 1], gs[|gs| - 1];
      AddAllHas(PagesOf(init), SegmentPages(g));
      FilesFit(init);
      forall va: nat | g.vaddr <= va < g.vaddr + |g.data|
        ensures InPages(va, PagesOf(gs))
      {
        PagesExact(g, va / PAGE);
        assert va / PAGE in SegmentPages(g);
      }
    }
  }

  // ----- the machine as it starts -----

  /** The image as the flat map the pipeline runs on. */
  ghost function Image(sp: Space, gs: seq<Segment>): I.Mem {
    map va: int | va in Addresses(sp) :: ImageByte(gs, va)
  }

  function MappedPages(sp: Space): set<nat> {
    set v | v in sp.table && sp.table[v].valid
  }

  function Address(v: nat, off: nat): nat {
    v * PAGE + off
  }

  ghost function Addresses(sp: Space): (r: set<nat>)
    ensures forall va: nat :: va in r <==> Translate(sp, va).Some?
  {
    var r := set v, off | v in MappedPages(sp) && off in Pages(0, PAGE) :: Address(v, off);
    assert forall va: nat | Translate(sp, va).Some? ::
        va == Address(va / PAGE, va % PAGE) && va / PAGE in MappedPages(sp);
    set va | va in r && Translate(sp, va).Some?
  }

  lemma ImageRepresents(sp: Space, st: S.Store, gs: seq<Segment>)
    requires ShowsImage(sp, T.Bottom(st), gs) && T.Fresh(st)
    ensures V.Represents(sp, st, Image(sp, gs))
  {
    T.FreshCoherent(st);
    forall va: int
      ensures V.SameByte(sp, st, Image(sp, gs), va)
    {
      if va >= 0 {
        assert ImageAt(sp, T.Bottom(st), gs, va);
      }
    }
  }

  lemma BootedImage(gs: seq<Segment>)
    requires Boot(gs).Some?
    ensures ShowsImage(Boot(gs).value.0, Boot(gs).value.1, gs)
  {
    LoaderImage(gs);
    var (sp, bytes) := LoadAll(gs).value;
    MapAllKeepsImage(sp, bytes, gs, StackPages(STACK_PAGES + 1));
  }

  /** The machine after loading and setting up its stack, under any freshly configured chain of
      caches over the loaded memory, is the flat image: page for page, byte for byte. */
  lemma BootRepresents(gs: seq<Segment>, st: S.Store)
    requires Boot(gs).Some? && T.Fresh(st) && T.Bottom(st) == Boot(gs).value.1
    ensures var sp := Boot(gs).value.0;
      V.Represents(sp, st, Image(sp, gs))
  {
    BootedImage(gs);
    ImageRepresents(Boot(gs).value.0, st, gs);
  }

  /** So every run of loads and stores delivers what the flat image would. */
  lemma BootedRun(gs: seq<Segment>, st: S.Store, qs: seq<V.Access>)
    requires Boot(gs).Some? && T.Fresh(st) && T.Bottom(st) == Boot(gs).value.1
    requires forall i | 0 <= i < |qs| :: qs[i].n > 0
    ensures var sp := Boot(gs).value.0; var flat := V.FlatServeAll(Image(sp, gs), qs);
      && (V.ServeAll(sp, st, qs).Some? <==> flat.Some?)
      && (flat.Some? ==> V.ServeAll(sp, st, qs).value.1 == flat.value.1)
  {
    BootRepresents(gs, st);
    var sp := Boot(gs).value.0;
    V.VirtualMemoryIsFlat(sp, st, Image(sp, gs), qs);
  }

  /** The pages of program and stack. */
  function BootPages(gs: seq<Segment>): seq<nat> {
    AddAll(PagesOf(gs), StackPages(STACK_PAGES + 1))
  }

  /** When the machine boots, and which addresses then translate. */
  lemma BootExact(gs: seq<Segment>)
    requires forall i | 0 <= i < |gs| :: SegmentOk(gs[i])
    ensures Boot(gs).Some? <==> |BootPages(gs)| <= BITMAP_PAGES && SmallPages(gs) && FilesMapped(gs)
    ensures Boot(gs).Some? ==>
      && Laid(Boot(gs).value.0, BootPages(gs))
      && forall va: nat :: Translate(Boot(gs).value.0, va).Some? <==> InPages(va, Usable(BootPages(gs)))
  {
    LoaderExact(gs);
    AddAllHas(PagesOf(gs), StackPages(STACK_PAGES + 1));
    StackBelow(STACK_PAGES + 1);
    if LoadAll(gs).Some? {
      MapAllExact(LoadAll(gs).value.0, PagesOf(gs), StackPages(STACK_PAGES + 1));
      if Boot(gs).Some? {
        forall va: nat
          ensures Translate(Boot(gs).value.0, va).Some? <==> InPages(va, Usable(BootPages(gs)))
        {
          TranslatesExact(Boot(gs).value.0, BootPages(gs), va);
        }
      }
    }
  }

  // ----- the object -----

  /** The part of the machine that loads a program: its page table and its memory. */
  class ProgramLoader {
    const ptb: PageTable
    const phyMem: O.MainMemory

    ghost predicate Valid() {
      && ptb.Valid() && phyMem.mainMem.Length == MEM_SIZE
      && ptb.bmp.innerMap as object != phyMem.mainMem as object
    }

    ghost function Contents(): (Space, seq<Byte>)
      reads ptb, ptb.bmp.innerMap, phyMem.mainMem
      requires Valid()
    {
      (ptb.Abs(), phyMem.mainMem[..])
    }

    constructor (lat: S.Latency, stats: S.Stats)
      ensures Valid() && Contents() == (EMPTY, seq<Byte>(MEM_SIZE, _ => 0))
    {
      ptb := new PageTable();
      phyMem := new O.MainMemory(MEM_SIZE, lat, stats);
      new;
      assert phyMem.Abs().bytes == seq<Byte>(MEM_SIZE, _ => 0);
    }

    /** The loop that counts a segment's pages. */
    method CountPages(g: Segment) returns (n: nat)
      ensures n == PageCount(g)
    {
      n := g.memSize / PAGE;
      var vpn := g.vaddr / PAGE;
      while (vpn + n) * PAGE < g.vaddr + g.memSize
        invariant n <= PageCount(g)
        decreases PageCount(g) - n
      {
        n := n + 1;
      }
    }

    /** Entry and page for each page number of a list; false where the program aborts or uses an
        entry that is not there. */
    method MapPages(vpns: seq<nat>) returns (ok: bool)
      requires Valid()
      modifies ptb, ptb.bmp.innerMap
      ensures ok <==> MapAll(old(ptb.Abs()), vpns).Some?
      ensures ok ==> ptb.Abs() == MapAll(old(ptb.Abs()), vpns).value
    {
      assert vpns[..|vpns|] == vpns;
      for k := 0 to |vpns|
        invariant MapAll(old(ptb.Abs()), vpns[..k]) == Some(ptb.Abs())
      {
        assert vpns[..k + 1][..k] == vpns[..k];
        ptb.AllocPageEntry(vpns[k]);
        var got := vpns[k] in ptb.ptb;
        if got {
          got := ptb.AllocPysPage(vpns[k]);
        }
        if !got {
          MapAllStops(old(ptb.Abs()), vpns, k + 1);
          return false;
        }
      }
      return true;
    }

    /** The loop that copies a segment's file bytes through the translation. */
    method Copy(vaddr: nat, data: seq<Byte>) returns (ok: bool)
      requires Valid()
      modifies phyMem, phyMem.mainMem
      ensures ok <==> CopyBytes(ptb.Abs(), old(phyMem.mainMem[..]), vaddr, data).Some?
      ensures ok ==> phyMem.mainMem[..] == CopyBytes(ptb.Abs(), old(phyMem.mainMem[..]), vaddr, data).value
    {
      assert data[..|data|] == data;
      for k := 0 to |data|
        invariant CopyBytes(ptb.Abs(), old(phyMem.mainMem[..]), vaddr, data[..k]) == Some(phyMem.mainMem[..])
      {
        assert data[..k + 1][..k] == data[..k];
        var pa := ptb.TranslateAddr(vaddr + k);
        if pa.None? {
          CopyStops(ptb.Abs(), old(phyMem.mainMem[..]), vaddr, data, k + 1);
          return false;
        }
        ghost var before := phyMem.mainMem[..];
        var _, _, _ := phyMem.HandleRequest(pa.value, 1, false, [data[k]]);
        assert S.Patch(before, pa.value, [data[k]]) == before[pa.value := data[k]];
      }
      return true;
    }

    method ReadUserProg(gs: seq<Segment>) returns (ok: bool)
      requires Valid() && Contents() == (EMPTY, seq<Byte>(MEM_SIZE, _ => 0)) && forall g | g in gs :: SegmentOk(g)
      modifies ptb, ptb.bmp.innerMap, phyMem, phyMem.mainMem
      ensures ok <==> LoadAll(gs).Some?
      ensures ok ==> Contents() == LoadAll(gs).value
    {
      assert gs[..|gs|] == gs;
      for i := 0 to |gs|
        invariant LoadAll(gs[..i]) == Some(Contents())
      {
        assert gs[..i + 1][..i] == gs[..i] && gs[..i + 1][i] == gs[i];
        ok := ReadSegment(gs[i]);
        if !ok {
          LoadStops(gs, i + 1);
          return;
        }
      }
      return true;
    }

    /** One segment: its pages, then its bytes. */
    method ReadSegment(g: Segment) returns (ok: bool)
      requires Valid() && SegmentOk(g)
      modifies ptb, ptb.bmp.innerMap, phyMem, phyMem.mainMem
      ensures ok <==> LoadSegment(old(ptb.Abs()), old(phyMem.mainMem[..]), g).Some?
      ensures ok ==> Contents() == LoadSegment(old(ptb.Abs()), old(phyMem.mainMem[..]), g).value
    {
      var n := CountPages(g);
      ok := MapPages(Pages(g.vaddr / PAGE, n));
      if ok {
        ok := Copy(g.vaddr, g.data);
      }
    }

    method StackAllocate() returns (ok: bool)
      requires Valid()
      modifies ptb, ptb.bmp.innerMap
      ensures ok <==> MapAll(old(ptb.Abs()), StackPages(STACK_PAGES + 1)).Some?
      ensures ok ==> ptb.Abs() == MapAll(old(ptb.Abs()), StackPages(STACK_PAGES + 1)).value
    {
      ok := MapPages(StackPages(STACK_PAGES + 1));
    }
  }

  lemma {:induction false} StackBelow(n: nat)
    requires n <= STACK_PAGES + 1
    ensures AllSmall(StackPages(n), KEYS)
  {
    if n > 0 {
      StackBelow(n - 1);
    }
  }

  /** Once an allocation fails the whole run has failed. */
  lemma {:induction false} MapAllStops(sp: Space, vpns: seq<nat>, k: nat)
    requires k <= |vpns| && MapAll(sp, vpns[..k]).None?
    ensures MapAll(sp, vpns).None?
    decreases |vpns| - k
  {
    if k == |vpns| {
      assert vpns[..k] == vpns;
    } else {
      assert vpns[..k + 1][..k] == vpns[..k];
      MapAllStops(sp, vpns, k + 1);
    }
  }

  lemma {:induction false} CopyStops(sp: Space, bytes: seq<Byte>, vaddr: nat, data: seq<Byte>, k: nat)
    requires |bytes| == MEM_SIZE && k <= |data| && CopyBytes(sp, bytes, vaddr, data[..k]).None?
    ensures CopyBytes(sp, bytes, vaddr, data).None?
    decreases |data| - k
  {
    if k == |data| {
      assert data[..k] == data;
    } else {
      assert data[..k + 1][..k] == data[..k];
      CopyStops(sp, bytes, vaddr, data, k + 1);
    }
  }

  lemma {:induction false} LoadStops(gs: seq<Segment>, k: nat)
    requires k <= |gs| && LoadAll(gs[..k]).None?
    ensures LoadAll(gs).None?
    decreases |gs| - k
  {
    if k == |gs| {
      assert gs[..k] == gs;
    } else {
      assert gs[..k + 1][..k] == gs[..k];
      LoadStops(gs, k + 1);
    }
  }
}
