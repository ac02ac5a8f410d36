/** Which pages a booted machine has, by their numbers, when it boots, and what its stack shows. */
module BootedMemory {
  import opened Words
  import opened Division
  import opened AddressSpace
  import opened Loader

  /** Page v holds a byte of the segment; for an empty segment, its address lies inside the page. */
  predicate Overlaps(g: Segment, v: nat) {
    g.vaddr < 4096 * v + 4096 && 4096 * v < g.vaddr + g.memSize
  }

  /** Pages of the stack: that of its top, 0x8000_0000, one above and nine below. */
  predicate StackPage(v: nat) {
    0x7FFF7 <= v <= 0x80001
  }

  predicate NeedsPage(gs: seq<Segment>, v: nat) {
    StackPage(v) || exists i :: 0 <= i < |gs| && Overlaps(gs[i], v)
  }

  /** The first so many stack pages, from the upper end. */
  lemma {:induction false} StackPagesAre(n: nat)
    requires n <= STACK_PAGES + 1
    ensures |StackPages(n)| == n && forall i | 0 <= i < n :: StackPages(n)[i] == 0x80001 - i
    ensures forall v :: v in StackPages(n) <==> 0x80001 - n < v <= 0x80001
  {
    if n > 0 {
      StackPagesAre(n - 1);
    }
  }

  lemma BootPagesAre(gs: seq<Segment>, v: nat)
    ensures EachOnce(BootPages(gs)) && (v in BootPages(gs) <==> NeedsPage(gs, v))
  {
    StackPagesAre(STACK_PAGES + 1);
    PagesOfExact(gs, v);
    AddAllOnce(PagesOf(gs), StackPages(STACK_PAGES + 1));
    AddAllHas(PagesOf(gs), StackPages(STACK_PAGES + 1));
    forall i | 0 <= i < |gs|
      ensures Touches(gs[i], v) <==> Overlaps(gs[i], v)
    {
      PagesExact(gs[i], v);
    }
  }

  lemma {:induction false} OnceIsCount(order: seq<nat>, pages: set<nat>)
    requires EachOnce(order) && forall v :: v in order <==> v in pages
    ensures |order| == |pages|
    decreases |order|
  {
    if order == [] {
      assert pages == {};
    } else {
      var init, last := order[..|order| - 1], order[|order| - 1];
      assert order == init + [last];
      OnceIsCount(init, pages - {last});
    }
  }

  lemma PagesCounted(gs: seq<Segment>, pages: set<nat>)
    requires forall v :: v in pages <==> NeedsPage(gs, v)
    ensures |BootPages(gs)| == |pages| && forall v :: v in BootPages(gs) <==> v in pages
  {
    forall v
      ensures EachOnce(BootPages(gs)) && (v in BootPages(gs) <==> v in pages)
    {
      BootPagesAre(gs, v);
    }
    BootPagesAre(gs, 0);
    OnceIsCount(BootPages(gs), pages);
  }

  lemma SmallSegment(g: Segment)
    ensures AllSmall(SegmentPages(g), KEYS) <==> forall v | Overlaps(g, v) :: v < 0x8000_0000
  {
    var vpns := SegmentPages(g);
    forall v: nat
      ensures v in vpns <==> Overlaps(g, v)
    {
      PagesExact(g, v);
    }
    assert forall i | 0 <= i < |vpns| :: vpns[i] in vpns;
  }

  lemma SmallNumbers(gs: seq<Segment>, pages: set<nat>)
    requires forall v :: v in pages <==> NeedsPage(gs, v)
    ensures SmallPages(gs) <==> forall v | v in pages :: v < 0x8000_0000
  {
    forall i | 0 <= i < |gs|
      ensures AllSmall(SegmentPages(gs[i]), KEYS) <==> forall v | Overlaps(gs[i], v) :: v < 0x8000_0000
    {
      SmallSegment(gs[i]);
    }
    if SmallPages(gs) {
      forall v | v in pages
        ensures v < 0x8000_0000
      {
        assert NeedsPage(gs, v);
      }
    }
    if forall v | v in pages :: v < 0x8000_0000 {
      forall i | 0 <= i < |gs|
        ensures AllSmall(SegmentPages(gs[i]), KEYS)
      {
        assert forall v: nat | Overlaps(gs[i], v) :: NeedsPage(gs, v) && v in pages;
      }
    }
  }

  /** The machine boots exactly if program and stack need at most 1025 pages, one more than memory
      has, all numbered below 2^31, and file bytes lie in memory pages mapped so far. A booted machine
      maps the pages needed and no others. */
  lemma BootedPages(gs: seq<Segment>, pages: set<nat>)
    requires forall i | 0 <= i < |gs| :: SegmentOk(gs[i])
    requires forall v :: v in pages <==> NeedsPage(gs, v)
    ensures Boot(gs).Some? <==> |pages| <= 1025 && (forall v | v in pages :: v < 0x8000_0000) && FilesMapped(gs)
    ensures Boot(gs).Some? ==> forall v: nat :: Mapped(Boot(gs).value.0, v) <==> v in pages
  {
    PagesCounted(gs, pages);
    SmallNumbers(gs, pages);
    BootExact(gs);
  }

  /** With at most 1024 pages, the addresses that translate are those in a page needed. */
  lemma BootedAddresses(gs: seq<Segment>, pages: set<nat>, va: nat)
    requires forall i | 0 <= i < |gs| :: SegmentOk(gs[i])
    requires (forall v :: v in pages <==> NeedsPage(gs, v)) && |pages| <= 1024 && Boot(gs).Some?
    ensures Translate(Boot(gs).value.0, va).Some? <==> va / 4096 in pages
  {
    PagesCounted(gs, pages);
    BootExact(gs);
    assert Translate(Boot(gs).value.0, va).Some? <==> InPages(va, Usable(BootPages(gs)));
  }

  /** Physical pages are handed out in the order in which pages are first asked for. */
  lemma BootedPlaces(gs: seq<Segment>, i: nat, off: nat)
    requires forall i | 0 <= i < |gs| :: SegmentOk(gs[i])
    requires Boot(gs).Some? && i < |BootPages(gs)| && i < 1024 && off < 4096
    ensures Translate(Boot(gs).value.0, 4096 * BootPages(gs)[i] + off) == Some(4096 * i + off)
  {
    BootExact(gs);
    var v := BootPages(gs)[i];
    assert At(Boot(gs).value.0, v, i);
    DivModUnique(4096 * v + off, 4096, v, off);
  }

  predicate Covers(g: Segment, va: nat) {
    g.vaddr <= va < g.vaddr + |g.data|
  }

  /** The file byte at an address is that of the last segment with file bytes there. */
  lemma {:induction false} FileByteExact(gs: seq<Segment>, va: nat, i: nat)
    requires i < |gs| && Covers(gs[i], va) && forall j | i < j < |gs| :: !Covers(gs[j], va)
    ensures FileByte(gs, va) == Some(gs[i].data[va - gs[i].vaddr])
  {
    if i < |gs| - 1 {
      FileByteExact(gs[..|gs| - 1], va, i);
    }
  }

  lemma {:induction false} NoFileByte(gs: seq<Segment>, va: nat)
    requires forall i | 0 <= i < |gs| :: !Covers(gs[i], va)
    ensures FileByte(gs, va) == None
  {
    if gs != [] {
      NoFileByte(gs[..|gs| - 1], va);
    }
  }

  /** A program whose segments hold their file bytes and whose pages, with the stack's, fit in memory
      boots, and from 0x7FFF_7000 up to 0x8000_2000 every address is there: it reads the program's
      file byte if there is one, and zero otherwise. */
  lemma StackReads(gs: seq<Segment>, pages: set<nat>, va: nat)
    requires forall i | 0 <= i < |gs| :: SegmentOk(gs[i]) && |gs[i].data| <= gs[i].memSize
    requires (forall v :: v in pages <==> NeedsPage(gs, v)) && |pages| <= 1024
    requires forall v | v in pages :: v < 0x8000_0000
    requires 0x7FFF_7000 <= va < 0x8000_2000
    ensures Boot(gs).Some? && Translate(Boot(gs).value.0, va).Some?
    ensures var (sp, bytes) := Boot(gs).value;
      && bytes[Translate(sp, va).value] == (match FileByte(gs, va) case Some(b) => b case None => 0)
      && va in Image(sp, gs) && Image(sp, gs)[va] == bytes[Translate(sp, va).value]
  {
    PagesCounted(gs, pages);
    AddAllHas(PagesOf(gs), StackPages(STACK_PAGES + 1));
    FilesFit(gs);
    BootedPages(gs, pages);
    assert StackPage(va / 4096);
    BootedAddresses(gs, pages, va);
    BootedImage(gs);
    assert ImageAt(Boot(gs).value.0, Boot(gs).value.1, gs, va);
  }
}
