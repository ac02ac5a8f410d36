/** What a segment occupies in memory: its size in terms of its sections, where sections without an
    address come to lie in it, and how sections that follow a blank one may overlap it. */
module ElfMemory {
  import opened Words
  import opened Division
  import opened ElfOrder
  import opened ElfLayout
  import opened ElfLayoutLaws
  import opened ElfRanges

  /** The section is loaded with the segment: flag ALLOC (bit 1), and unless the segment is the thread
      storage template (type 7) not a blank (type 8) thread-local (bit 10) one. */
  predicate Resident(s: Section, seg: Segment) {
    s.flags / 2 % 2 == 1 && !(s.flags / 0x400 % 2 == 1 && s.typ == 8 && seg.typ != 7)
  }

  /** The sizes of the sections that take memory only. */
  function BlankBytes(secs: seq<Section>, seg: Segment, ks: seq<nat>): nat
    requires AllBelow(ks, |secs|)
  {
    if ks == [] then 0 else
      var s := secs[ks[|ks| - 1]];
      BlankBytes(secs, seg, ks[..|ks| - 1]) + if s.typ == 8 && Resident(s, seg) then s.size else 0
  }

  /** What sections that are not loaded, and the padding in front of them, move the position. */
  function UnloadedAt(o: Open, seg: Segment, k: nat): nat
    requires Sized(o.c, |o.c.secs|) && k < |o.c.secs|
  {
    var s := o.c.secs[k];
    if s.typ == 0 || Resident(s, seg) || Gap(o, seg, k).None? then 0
    else Gap(o, seg, k).value + if s.typ == 8 then 0 else s.size
  }

  function UnloadedBytes(o: Open, seg: Segment, ks: seq<nat>): nat
    requires Sized(o.c, |o.c.secs|) && AllBelow(ks, |o.c.secs|)
  {
    if ks == [] then 0 else
      var init := ks[..|ks| - 1];
      match PlaceAll(o, seg, init)
      case None => 0
      case Some(p) => UnloadedBytes(o, seg, init) + UnloadedAt(p, seg, ks[|ks| - 1])
  }

  // ----- the size -----

  lemma AddWrapped(x: int, y: int)
    ensures Wrap(Wrap(x) + y) == Wrap(x + y)
  {
    WrapSum(x, y);
  }

  /** The memory size is the way from the start to the position and so much more. */
  predicate Measured(o: Open, more: int) {
    o.memSize == Wrap(o.c.pos - o.start + more)
  }

  /** One new section. */
  lemma PlaceMemory(o: Open, seg: Segment, k: nat, more: int, after: int)
    requires Sized(o.c, |o.c.secs|) && k < |o.c.secs| && !o.c.gen[k]
    requires Place(o, seg, k).Some? && !Place(o, seg, k).value.c.wrapped && Measured(o, more)
    requires var s := o.c.secs[k];
      after == more + (if s.typ == 8 && Resident(s, seg) then s.size else 0) - UnloadedAt(o, seg, k)
    ensures Measured(Place(o, seg, k).value, after)
  {
    var s := o.c.secs[k];
    if s.typ != SHT_NULL {
      var gap := Gap(o, seg, k).value;
      GeneratedEnd(o.c, o.start, seg, k, gap);
      AddWrapped(o.c.pos - o.start + more, s.size + gap);
    }
  }

  /** The memory size of a segment whose sections are all new: the way from its start to the position
      behind it, and what takes memory only, less what is not loaded; in 64 bits. */
  lemma {:induction false} PlaceAllMemory(o: Open, seg: Segment, ks: seq<nat>)
    requires Sized(o.c, |o.c.secs|) && AllBelow(ks, |o.c.secs|) && AllNew(o.c.gen, ks)
    requires PlaceAll(o, seg, ks).Some? && !PlaceAll(o, seg, ks).value.c.wrapped && Measured(o, 0)
    ensures Measured(PlaceAll(o, seg, ks).value, BlankBytes(o.c.secs, seg, ks) - UnloadedBytes(o, seg, ks))
    decreases |ks|
  {
    if ks != [] {
      var init, last := ks[..|ks| - 1], ks[|ks| - 1];
      var p := PlaceAll(o, seg, init).value;
      LastIsNew(o, seg, ks);
      PlaceExtends(p, seg, last);
      PlaceAllExtends(o, seg, init);
      assert Kept(o.c, p.c, last);
      PlaceAllMemory(o, seg, init);
      PlaceMemory(p, seg, last, BlankBytes(o.c.secs, seg, init) - UnloadedBytes(o, seg, init),
                  BlankBytes(o.c.secs, seg, ks) - UnloadedBytes(o, seg, ks));
    }
  }

  predicate AllResident(secs: seq<Section>, seg: Segment, ks: seq<nat>)
    requires AllBelow(ks, |secs|)
  {
    forall i | 0 <= i < |ks| :: secs[ks[i]].typ == 0 || Resident(secs[ks[i]], seg)
  }

  lemma {:induction false} NothingUnloaded(o: Open, seg: Segment, ks: seq<nat>)
    requires Sized(o.c, |o.c.secs|) && AllBelow(ks, |o.c.secs|) && AllResident(o.c.secs, seg, ks)
    ensures UnloadedBytes(o, seg, ks) == 0
    decreases |ks|
  {
    if ks != [] {
      var init := ks[..|ks| - 1];
      NothingUnloaded(o, seg, init);
      if PlaceAll(o, seg, init).Some? {
        PlaceAllExtends(o, seg, init);
        assert Kept(o.c, PlaceAll(o, seg, init).value.c, ks[|ks| - 1]);
      }
    }
  }

  function Larger(a: Word, b: Word): Word {
    if a < b then b else a
  }

  /** The size the finished segment has: the one laid out, unless it had a larger one before. */
  lemma MemoryExact(l: Layout, i: nat, tableOffset: Word, tableSize: Word)
    requires Ok(l) && i < |l.segs| && l.segs[i].sections != [] && AllNew(l.c.gen, l.segs[i].sections)
    requires var o := OpenSegment(l.c, l.segs[i], tableOffset, tableSize);
      && PlaceAll(o, l.segs[i], l.segs[i].sections).Some?
      && !PlaceAll(o, l.segs[i], l.segs[i].sections).value.c.wrapped
    ensures LaySegment(l, i, tableOffset, tableSize).Some?
    ensures var seg, o := l.segs[i], OpenSegment(l.c, l.segs[i], tableOffset, tableSize);
      var r := LaySegment(l, i, tableOffset, tableSize).value;
      var laid := r.c.pos - r.segs[i].offset
                  + (BlankBytes(l.c.secs, seg, seg.sections) - UnloadedBytes(o, seg, seg.sections));
      && r.segs[i].memSize == Larger(seg.memSize, Wrap(laid))
      && (AllResident(l.c.secs, seg, seg.sections) ==> UnloadedBytes(o, seg, seg.sections) == 0)
  {
    var seg := l.segs[i];
    var o := OpenSegment(l.c, seg, tableOffset, tableSize);
    OpensWithSize(l.c, seg, tableOffset, tableSize);
    PlaceAllMemory(o, seg, seg.sections);
    if AllResident(l.c.secs, seg, seg.sections) {
      NothingUnloaded(o, seg, seg.sections);
    }
  }

  /** Its file size: the way from its start to the position behind it, less the padding that went
      uncounted. */
  lemma FileSizeExact(l: Layout, i: nat, tableOffset: Word, tableSize: Word)
    requires Ok(l) && i < |l.segs| && l.segs[i].sections != [] && AllNew(l.c.gen, l.segs[i].sections)
    requires var o := OpenSegment(l.c, l.segs[i], tableOffset, tableSize);
      && PlaceAll(o, l.segs[i], l.segs[i].sections).Some?
      && !PlaceAll(o, l.segs[i], l.segs[i].sections).value.c.wrapped
    ensures LaySegment(l, i, tableOffset, tableSize).Some?
    ensures var seg, o := l.segs[i], OpenSegment(l.c, l.segs[i], tableOffset, tableSize);
      var r := LaySegment(l, i, tableOffset, tableSize).value;
      && r.segs[i].fileSize == r.c.pos - r.segs[i].offset - Lost(o, seg, seg.sections) && r.segs[i].offsetSet
  {
    var seg := l.segs[i];
    OpensBalanced(l.c, seg, tableOffset, tableSize);
    PlaceAllBalanced(OpenSegment(l.c, seg, tableOffset, tableSize), seg, seg.sections);
  }

  /** The finished segment's range in the file holds every section of it that has bytes there. */
  predicate RangeHolds(seg: Segment, secs: seq<Section>)
    requires SectionsInFile(seg, |secs|)
  {
    forall i | 0 <= i < |seg.sections| :: HeldInFile(seg, secs[seg.sections[i]])
  }

  predicate HeldInFile(seg: Segment, s: Section) {
    s.typ != 0 && s.typ != 8 && s.size != 0 ==>
    seg.offset <= s.offset && s.offset + s.size <= seg.offset + seg.fileSize
  }

  lemma HoldsIfCovers(l: Layout, i: nat, tableOffset: Word, tableSize: Word)
    requires Ok(l) && i < |l.segs|
    requires PlaceAll(OpenSegment(l.c, l.segs[i], tableOffset, tableSize), l.segs[i], l.segs[i].sections).Some?
    ensures LaySegment(l, i, tableOffset, tableSize).Some?
    ensures var seg, r := l.segs[i], LaySegment(l, i, tableOffset, tableSize).value;
      var p := PlaceAll(OpenSegment(l.c, seg, tableOffset, tableSize), seg, seg.sections).value;
      RangeHolds(r.segs[i], r.c.secs) <==> CoversAll(p, seg.sections)
  {
    var seg, r := l.segs[i], LaySegment(l, i, tableOffset, tableSize).value;
    var p := PlaceAll(OpenSegment(l.c, seg, tableOffset, tableSize), seg, seg.sections).value;
    forall j | 0 <= j < |seg.sections|
      ensures var s := p.c.secs[seg.sections[j]];
        HeldInFile(r.segs[i], s) <==> (Occupies(s) ==> Covers(p, s))
    {
    }
    assert r.c.secs == p.c.secs && r.segs[i].sections == seg.sections;
  }

  /** RangeExact of the finished segment. */
  lemma SegmentRange(l: Layout, i: nat, tableOffset: Word, tableSize: Word, m: nat)
    requires Ok(l) && i < |l.segs| && AllNew(l.c.gen, l.segs[i].sections)
    requires var seg, o := l.segs[i], OpenSegment(l.c, l.segs[i], tableOffset, tableSize);
      PlaceAll(o, seg, seg.sections).Some? && !PlaceAll(o, seg, seg.sections).value.c.wrapped
    requires var ks := l.segs[i].sections;
      LastOf(l.c.secs, ks, m) && forall j | 0 <= j < |ks| :: Occupies(l.c.secs[ks[j]]) ==> ks[j] != 0
    ensures LaySegment(l, i, tableOffset, tableSize).Some?
    ensures var seg, o := l.segs[i], OpenSegment(l.c, l.segs[i], tableOffset, tableSize);
      var r := LaySegment(l, i, tableOffset, tableSize).value;
      RangeHolds(r.segs[i], r.c.secs) <==>
      Lost(o, seg, seg.sections[..m]) <= PaddedBehind(o, seg, seg.sections, m)
  {
    RangeExact(l.c, l.segs[i], tableOffset, tableSize, m);
    HoldsIfCovers(l, i, tableOffset, tableSize);
  }

  /** SharedExact of the finished segment. */
  lemma SharedSegmentRange(l: Layout, i: nat, tableOffset: Word, tableSize: Word, m: nat)
    requires Ok(l) && i < |l.segs| && l.segs[i].sections != []
    requires var c, ks := l.c, l.segs[i].sections;
      && c.secs[ks[0]].typ != SHT_NULL && (forall j | 0 <= j < |ks| :: c.gen[ks[j]])
      && m < |ks| && HasFile(c.secs[ks[m]]) && (forall j | m < j < |ks| :: !HasFile(c.secs[ks[j]]))
      && c.secs[ks[0]].offset <= c.secs[ks[m]].offset && c.secs[ks[m]].offset + c.secs[ks[m]].size < TWO64
    ensures LaySegment(l, i, tableOffset, tableSize).Some?
    ensures var r := LaySegment(l, i, tableOffset, tableSize).value;
      RangeHolds(r.segs[i], r.c.secs) <==> InOrder(l.c, l.segs[i].sections, m)
  {
    SharedExact(l.c, l.segs[i], tableOffset, tableSize, m);
    HoldsIfCovers(l, i, tableOffset, tableSize);
  }

  lemma OpensWithSize(c: Cursor, seg: Segment, tableOffset: Word, tableSize: Word)
    requires Sized(c, |c.secs|) && SectionsInFile(seg, |c.secs|) && AllNew(c.gen, seg.sections) && seg.sections != []
    ensures Measured(OpenSegment(c, seg, tableOffset, tableSize), 0)
  {
  }

  // ----- segments inside others -----

  predicate AllPlaced(c: Cursor, ks: seq<nat>)
    requires Sized(c, |c.secs|) && AllBelow(ks, |c.secs|)
  {
    forall i | 0 <= i < |ks| :: c.gen[ks[i]] && c.secs[ks[i]].typ != 0
  }

  lemma PlaceOldMemory(o: Open, seg: Segment, k: nat)
    requires Sized(o.c, |o.c.secs|) && k < |o.c.secs| && o.c.gen[k] && o.c.secs[k].typ != 0
    requires Resident(o.c.secs[k], seg) && o.memSize == o.fileSize
    ensures Place(o, seg, k).Some?
    ensures var p, s := Place(o, seg, k).value, o.c.secs[k];
      && p.memSize == Wrap(s.offset + s.size - o.start)
      && (s.typ != 8 ==> p.fileSize == p.memSize)
  {
    var s := o.c.secs[k];
    SumOfWraps(s.offset - o.start - o.fileSize, o.fileSize + s.size);
  }

  /** While all sections so far have file bytes, a segment of placed ones is as large in memory as in the
      file. */
  lemma {:induction false} SharedSame(o: Open, seg: Segment, ks: seq<nat>)
    requires Sized(o.c, |o.c.secs|) && AllBelow(ks, |o.c.secs|) && AllPlaced(o.c, ks)
    requires AllResident(o.c.secs, seg, ks) && o.memSize == o.fileSize
    requires forall i | 0 <= i < |ks| :: o.c.secs[ks[i]].typ != 8
    ensures PlaceAll(o, seg, ks).Some?
    ensures var p := PlaceAll(o, seg, ks).value; p.c == o.c && p.memSize == p.fileSize
    decreases |ks|
  {
    if ks != [] {
      var init, last := ks[..|ks| - 1], ks[|ks| - 1];
      SharedStays(o, seg, ks);
      SharedStays(o, seg, init);
      SharedSame(o, seg, init);
      PlaceOldMemory(PlaceAll(o, seg, init).value, seg, last);
    }
  }

  /** A segment whose sections are all placed and loaded, all but the last with file bytes, ends in
      memory where its last section does. */
  lemma SharedMemory(o: Open, seg: Segment, ks: seq<nat>)
    requires Sized(o.c, |o.c.secs|) && AllBelow(ks, |o.c.secs|) && AllPlaced(o.c, ks) && ks != []
    requires AllResident(o.c.secs, seg, ks) && o.memSize == o.fileSize
    requires forall i | 0 <= i < |ks| - 1 :: o.c.secs[ks[i]].typ != 8
    ensures PlaceAll(o, seg, ks).Some?
    ensures var s := o.c.secs[ks[|ks| - 1]];
      PlaceAll(o, seg, ks).value.memSize == Wrap(s.offset + s.size - o.start)
  {
    var init, last := ks[..|ks| - 1], ks[|ks| - 1];
    SharedSame(o, seg, init);
    PlaceOldMemory(PlaceAll(o, seg, init).value, seg, last);
  }

  // ----- addresses -----

  lemma GapPads(o: Open, seg: Segment, k: nat)
    requires Sized(o.c, |o.c.secs|) && k < |o.c.secs| && !o.c.gen[k] && !o.c.secs[k].addressSet
    ensures var gap := Gap(o, seg, k); var align := AlignAt(o.c.secs[k]);
      gap.Some? && gap.value < align && (o.c.pos + gap.value) % align == 0
  {
    PaddedUp(o.c.pos, AlignAt(o.c.secs[k]));
  }

  lemma GeneratedAddress(c: Cursor, start: Word, seg: Segment, k: nat, gap: Word)
    requires Sized(c, |c.secs|) && 0 < k < |c.secs| && !c.secs[k].addressSet && c.pos + gap < TWO64
    ensures var s := Generate(c, start, seg, k, gap).secs[k];
      s.offset == c.pos + gap && s.addressSet && s.address == Wrap(seg.vaddr + (c.pos + gap) - start)
  {
    NoWrap(c.pos + gap);
  }

  lemma PlacedAt(o: Open, seg: Segment, k: nat)
    requires Sized(o.c, |o.c.secs|) && 0 < k < |o.c.secs| && !o.c.gen[k] && o.c.secs[k].typ != 0
    requires !o.c.secs[k].addressSet && Place(o, seg, k).Some? && !Place(o, seg, k).value.c.wrapped
    ensures Gap(o, seg, k).Some?
    ensures var p := Place(o, seg, k).value; var s := p.c.secs[k];
      && s.offset == o.c.pos + Gap(o, seg, k).value && SameShape(o.c.secs[k], s)
      && s.addressSet && s.address == Wrap(seg.vaddr + s.offset - o.start)
      && p.c.pos == s.offset + FileBytes(s)
  {
    var gap := Gap(o, seg, k).value;
    assert Place(o, seg, k).value.c == Generate(o.c, o.start, seg, k, gap);
    GeneratedEnd(o.c, o.start, seg, k, gap);
    GeneratedAddress(o.c, o.start, seg, k, gap);
  }

  /** A section without an address gets the next position its alignment divides, and the address that
      is as far from the segment's as the position is from the segment's start. */
  lemma PlacedAligned(o: Open, seg: Segment, k: nat)
    requires Sized(o.c, |o.c.secs|) && 0 < k < |o.c.secs| && !o.c.gen[k] && o.c.secs[k].typ != 0
    requires !o.c.secs[k].addressSet && Place(o, seg, k).Some? && !Place(o, seg, k).value.c.wrapped
    ensures var s := Place(o, seg, k).value.c.secs[k]; var align := AlignAt(o.c.secs[k]);
      && s.offset % align == 0 && o.c.pos <= s.offset < o.c.pos + align
      && s.addressSet && s.address == Wrap(seg.vaddr + s.offset - o.start)
  {
    GapPads(o, seg, k);
    PlacedAt(o, seg, k);
  }

  lemma PaddedUp(pos: Word, align: Word)
    requires align > 0
    ensures var gap := (align - pos % align) % align; gap < align && (pos + gap) % align == 0
  {
    var r := pos % align;
    if r == 0 {
      DivModUnique(align, align, 1, 0);
    } else {
      DivModUnique(align - r, align, 0, align - r);
      DivModUnique(pos + (align - r), align, pos / align + 1, 0);
    }
  }

  lemma PlacedInside(o: Open, seg: Segment, k: nat)
    requires Sized(o.c, |o.c.secs|) && 0 < k < |o.c.secs| && !o.c.gen[k] && o.c.secs[k].typ != 0
    requires !o.c.secs[k].addressSet && Place(o, seg, k).Some? && !Place(o, seg, k).value.c.wrapped
    ensures var p := Place(o, seg, k).value; Inside(o, seg, k, p)
  {
    PlacedAt(o, seg, k);
  }

  /** The section lies between the two positions, at the address that belongs to its place. */
  predicate Inside(o: Open, seg: Segment, k: nat, p: Open)
    requires k < |o.c.secs| && k < |p.c.secs|
  {
    var s := p.c.secs[k];
    && SameShape(o.c.secs[k], s) && s.address == Wrap(seg.vaddr + s.offset - o.start)
    && o.c.pos <= s.offset && s.offset + FileBytes(s) <= p.c.pos
  }

  lemma InsideLonger(o: Open, seg: Segment, k: nat, p: Open, q: Open)
    requires k < |o.c.secs| == |p.c.secs| == |q.c.secs| && o.c.pos <= p.c.pos <= q.c.pos && p.start == o.start
    requires || (Inside(o, seg, k, p) && p.c.secs[k] == q.c.secs[k])
             || (Inside(p, seg, k, q) && o.c.secs[k] == p.c.secs[k])
    ensures Inside(o, seg, k, q)
  {
  }

  /** Where a new section of the list lies when all are placed. */
  lemma {:induction false} PlacedWithin(o: Open, seg: Segment, ks: seq<nat>, k: nat)
    requires Sized(o.c, |o.c.secs|) && AllBelow(ks, |o.c.secs|) && AllNew(o.c.gen, ks) && Balanced(o, 0)
    requires PlaceAll(o, seg, ks).Some? && !PlaceAll(o, seg, ks).value.c.wrapped
    requires k in ks && 0 < k < |o.c.secs| && o.c.secs[k].typ != 0 && !o.c.secs[k].addressSet
    ensures Inside(o, seg, k, PlaceAll(o, seg, ks).value)
    decreases |ks|
  {
    var init, last := ks[..|ks| - 1], ks[|ks| - 1];
    var p := PlaceAll(o, seg, init).value;
    LastIsNew(o, seg, ks);
    PlaceExtends(p, seg, last);
    PlaceAllExtends(o, seg, init);
    PlaceAllBalanced(o, seg, init);
    PlaceBalanced(p, seg, last, Lost(o, seg, init));
    assert Kept(o.c, p.c, k) && Kept(p.c, Place(p, seg, last).value.c, k);
    if k == last {
      PlacedInside(p, seg, k);
    } else {
      assert k in init;
      PlacedWithin(o, seg, init, k);
    }
    InsideLonger(o, seg, k, p, Place(p, seg, last).value);
  }

  lemma {:induction false} BlankAtLeast(secs: seq<Section>, seg: Segment, ks: seq<nat>, k: nat)
    requires AllBelow(ks, |secs|) && k in ks && secs[k].typ == 8 && Resident(secs[k], seg)
    ensures secs[k].size <= BlankBytes(secs, seg, ks)
  {
    var init := ks[..|ks| - 1];
    if k != ks[|ks| - 1] {
      assert k in init;
      BlankAtLeast(secs, seg, init, k);
    }
  }

  lemma InsideMemory(vaddr: Word, start: Word, pos: Word, blank: nat, memSize: Word, offset: Word, address: Word,
                     bytes: nat)
    requires memSize == Wrap(pos - start + blank) && address == Wrap(vaddr + offset - start)
    requires start <= offset && offset + bytes <= pos + blank && vaddr + (pos - start) + blank < TWO64
    ensures memSize == pos - start + blank
    ensures vaddr <= address && address + bytes <= vaddr + memSize
  {
    NoWrap(pos - start + blank);
    NoWrap(vaddr + (offset - start));
  }

  /** The section lies in the memory of the segment. */
  predicate InMemoryOf(seg: Segment, p: Open, s: Section) {
    seg.vaddr <= s.address && s.address + s.size <= seg.vaddr + p.memSize
  }

  lemma AllMeasured(o: Open, seg: Segment, ks: seq<nat>)
    requires Sized(o.c, |o.c.secs|) && AllBelow(ks, |o.c.secs|) && AllNew(o.c.gen, ks)
    requires PlaceAll(o, seg, ks).Some? && !PlaceAll(o, seg, ks).value.c.wrapped
    requires Measured(o, 0) && AllResident(o.c.secs, seg, ks)
    ensures Measured(PlaceAll(o, seg, ks).value, BlankBytes(o.c.secs, seg, ks))
  {
    PlaceAllMemory(o, seg, ks);
    NothingUnloaded(o, seg, ks);
  }

  /** The section ends, with all its bytes, no later than the position and the blank ones together. */
  lemma EndsBefore(o: Open, seg: Segment, ks: seq<nat>, k: nat, p: Open)
    requires AllBelow(ks, |o.c.secs|) && AllResident(o.c.secs, seg, ks)
    requires k in ks && k < |o.c.secs| && k < |p.c.secs| && o.c.secs[k].typ != 0 && Inside(o, seg, k, p)
    ensures p.c.secs[k].offset + p.c.secs[k].size <= p.c.pos + BlankBytes(o.c.secs, seg, ks)
  {
    if o.c.secs[k].typ == 8 {
      var i :| 0 <= i < |ks| && ks[i] == k;
      assert Resident(o.c.secs[ks[i]], seg);
      BlankAtLeast(o.c.secs, seg, ks, k);
    }
  }

  lemma InsideIsInMemory(o: Open, seg: Segment, k: nat, p: Open, blank: nat)
    requires k < |o.c.secs| && k < |p.c.secs| && Inside(o, seg, k, p) && Measured(p, blank)
    requires p.start == o.start <= o.c.pos && p.c.secs[k].offset + p.c.secs[k].size <= p.c.pos + blank
    requires seg.vaddr + (p.c.pos - p.start) + blank < TWO64
    ensures p.memSize == p.c.pos - p.start + blank && InMemoryOf(seg, p, p.c.secs[k])
  {
    var s := p.c.secs[k];
    InsideMemory(seg.vaddr, p.start, p.c.pos, blank, p.memSize, s.offset, s.address, s.size);
  }

  /** If all sections are loaded, those without an address end inside the segment's memory. */
  lemma MemoryHolds(c: Cursor, seg: Segment, tableOffset: Word, tableSize: Word, k: nat)
    requires Sized(c, |c.secs|) && SectionsInFile(seg, |c.secs|) && AllNew(c.gen, seg.sections)
    requires AllResident(c.secs, seg, seg.sections)
    requires k in seg.sections && 0 < k < |c.secs| && c.secs[k].typ != 0 && !c.secs[k].addressSet
    requires var p := PlaceAll(OpenSegment(c, seg, tableOffset, tableSize), seg, seg.sections);
      && p.Some? && !p.value.c.wrapped
      && seg.vaddr + (p.value.c.pos - p.value.start) + BlankBytes(c.secs, seg, seg.sections) < TWO64
    ensures var p := PlaceAll(OpenSegment(c, seg, tableOffset, tableSize), seg, seg.sections).value;
      && p.memSize == p.c.pos - p.start + BlankBytes(c.secs, seg, seg.sections)
      && InMemoryOf(seg, p, p.c.secs[k])
  {
    var o := OpenSegment(c, seg, tableOffset, tableSize);
    OpensBalanced(c, seg, tableOffset, tableSize);
    OpensWithSize(c, seg, tableOffset, tableSize);
    var p := PlaceAll(o, seg, seg.sections).value;
    AllMeasured(o, seg, seg.sections);
    PlacedWithin(o, seg, seg.sections, k);
    EndsBefore(o, seg, seg.sections, k, p);
    InsideIsInMemory(o, seg, k, p, BlankBytes(c.secs, seg, seg.sections));
  }

  // ----- when a segment cannot be laid out -----

  /** The section is new, has bytes in the file and an address, and that lies behind the position. */
  predicate Behind(o: Open, seg: Segment, k: nat)
    requires Sized(o.c, |o.c.secs|) && k < |o.c.secs|
  {
    var s := o.c.secs[k];
    && !o.c.gen[k] && s.addressSet && s.typ != 0 && s.typ != 8 && s.size > 0
    && Wrap(s.address - seg.vaddr) < Wrap(o.c.pos - o.start)
  }

  /** The i-th section of the list is the first such one when its turn comes. */
  predicate StuckAt(o: Open, seg: Segment, ks: seq<nat>, i: nat)
    requires Sized(o.c, |o.c.secs|) && AllBelow(ks, |o.c.secs|) && i < |ks|
  {
    PlaceAll(o, seg, ks[..i]).Some? && Behind(PlaceAll(o, seg, ks[..i]).value, seg, ks[i])
  }

  /** A segment's sections can be placed exactly if none lies behind the position when its turn comes. */
  lemma {:induction false} StuckExact(o: Open, seg: Segment, ks: seq<nat>)
    requires Sized(o.c, |o.c.secs|) && AllBelow(ks, |o.c.secs|)
    ensures PlaceAll(o, seg, ks).Some? <==> forall i | 0 <= i < |ks| :: !StuckAt(o, seg, ks, i)
    decreases |ks|
  {
    if ks != [] {
      var n := |ks| - 1;
      StuckExact(o, seg, ks[..n]);
      forall i | 0 <= i < n
        ensures StuckAt(o, seg, ks, i) <==> StuckAt(o, seg, ks[..n], i)
      {
        assert ks[..n][..i] == ks[..i];
      }
      if PlaceAll(o, seg, ks[..n]).Some? {
        assert StuckAt(o, seg, ks, n) <==> Behind(PlaceAll(o, seg, ks[..n]).value, seg, ks[n]);
      }
    }
  }

  // ----- sections behind a blank one -----

  lemma AddressBehind(vaddr: Word, start: Word, offset: Word, address: Word, next: Word, after: Word)
    requires address == Wrap(vaddr + offset - start) && after == Wrap(vaddr + next - start)
    ensures after == Wrap(address + (next - offset))
  {
    AddWrapped(vaddr + offset - start, next - offset);
  }

  /** PlacedAligned without the remainder. */
  lemma PlacedNear(o: Open, seg: Segment, k: nat)
    requires Sized(o.c, |o.c.secs|) && 0 < k < |o.c.secs| && !o.c.gen[k] && o.c.secs[k].typ != 0
    requires !o.c.secs[k].addressSet && Place(o, seg, k).Some? && !Place(o, seg, k).value.c.wrapped
    ensures var s := Place(o, seg, k).value.c.secs[k];
      o.c.pos <= s.offset < o.c.pos + AlignAt(o.c.secs[k]) && s.address == Wrap(seg.vaddr + s.offset - o.start)
  {
    PlacedAligned(o, seg, k);
  }

  lemma BlankPlace(o: Open, seg: Segment, k: nat, p: Open)
    requires Sized(o.c, |o.c.secs|) && 0 < k < |o.c.secs| && !o.c.gen[k] && !o.c.secs[k].addressSet
    requires o.c.secs[k].typ == 8 && Place(o, seg, k) == Some(p) && !p.c.wrapped
    ensures k < |p.c.secs| && p.c.secs[k].offset == p.c.pos
    ensures p.c.secs[k].address == Wrap(seg.vaddr + p.c.secs[k].offset - p.start)
  {
    PlacedAt(o, seg, k);
  }

  lemma NextBehind(p: Open, seg: Segment, j: nat, q: Open, s: Section)
    requires Sized(p.c, |p.c.secs|) && 0 < j < |p.c.secs| && !p.c.gen[j] && !p.c.secs[j].addressSet
    requires p.c.secs[j].typ != 0 && Place(p, seg, j) == Some(q) && !q.c.wrapped
    requires s.offset == p.c.pos && s.address == Wrap(seg.vaddr + s.offset - p.start)
    ensures j < |q.c.secs|
    ensures var u := q.c.secs[j];
      && s.offset <= u.offset < s.offset + AlignAt(p.c.secs[j])
      && u.address == Wrap(s.address + (u.offset - s.offset))
  {
    PlacedNear(p, seg, j);
    var u := q.c.secs[j];
    AddressBehind(seg.vaddr, p.start, s.offset, s.address, u.offset, u.address);
  }

  /** A blank section moves no position, so the next one gets an address only its own padding away
      from where the blank one begins: inside it, exactly if the blank one is longer than that. */
  lemma OverlapsBlank(o: Open, seg: Segment, k: nat, j: nat, p: Open, q: Open)
    requires Sized(o.c, |o.c.secs|) && 0 < k < |o.c.secs| && 0 < j < |o.c.secs| && j != k
    requires !o.c.gen[k] && !o.c.gen[j] && !o.c.secs[k].addressSet && !o.c.secs[j].addressSet
    requires o.c.secs[k].typ == 8 && o.c.secs[j].typ != 0
    requires Place(o, seg, k) == Some(p) && Place(p, seg, j) == Some(q) && !q.c.wrapped
    ensures var s, u := q.c.secs[k], q.c.secs[j];
      && s.offset <= u.offset < s.offset + AlignAt(o.c.secs[j])
      && u.address == Wrap(s.address + (u.offset - s.offset))
  {
    PlaceExtends(o, seg, k);
    PlaceExtends(p, seg, j);
    assert Kept(o.c, p.c, j) && Kept(p.c, q.c, k);
    BlankPlace(o, seg, k, p);
    NextBehind(p, seg, j, q, p.c.secs[k]);
  }

  // ----- where segments start, and an example -----

  /** The segment of the segment table (type 6) without sections is the table; a segment that begins
      with the null section begins with the file and counts everything in front of its sections; one
      whose first section is placed begins there, and another empty one is nothing at the position. */
  lemma SegmentStarts(c: Cursor, seg: Segment, tableOffset: Word, tableSize: Word)
    requires Sized(c, |c.secs|) && SectionsInFile(seg, |c.secs|)
    ensures var o := OpenSegment(c, seg, tableOffset, tableSize);
      seg.typ == 6 && seg.sections == [] ==>
      o.start == tableOffset && o.fileSize == tableSize && o.memSize == tableSize && o.c == c
    ensures var o := OpenSegment(c, seg, tableOffset, tableSize);
      |seg.sections| > 1 && c.secs[seg.sections[0]].typ == 0 ==>
      o.start == 0 && o.fileSize == c.pos && o.memSize == c.pos && o.c == c
    ensures var o, ks := OpenSegment(c, seg, tableOffset, tableSize), seg.sections;
      ks != [] && c.gen[ks[0]] && (|ks| == 1 || c.secs[ks[0]].typ != 0) ==>
      o.start == c.secs[ks[0]].offset && o.fileSize == 0 && o.memSize == 0 && o.c == c
    ensures var o := OpenSegment(c, seg, tableOffset, tableSize);
      seg.typ != 6 && seg.sections == [] ==> o.start == c.pos && o.fileSize == 0 && o.memSize == 0 && o.c == c
  {
  }

  /** Sixteen bytes of data and thirty-two blank ones, both loaded. */
  function DataAndBss(): Cursor {
    Cursor([NULL_SECTION, Section(1, 3, 0x10, 1, 0, false, 0), Section(8, 3, 0x20, 1, 0, false, 0)],
           [false, false, false], 64, false)
  }

  const DATA_SEGMENT := Segment(1, 1, 0x1000, 0, 0, 0, false, [1, 2])

  lemma PlaceData(o: Open)
    requires o.c == DataAndBss() && o.start == 64 && o.fileSize == 0 && o.memSize == 0
    ensures var p := Place(o, DATA_SEGMENT, 1);
      && p.Some? && p.value.c.pos == 80 && p.value.fileSize == 0x10 && p.value.memSize == 0x10 && !p.value.c.wrapped
      && p.value.start == 64 && Sized(p.value.c, 3) && !p.value.c.gen[2] && p.value.c.secs[2] == o.c.secs[2]
  {
    assert Gap(o, DATA_SEGMENT, 1) == Some(0);
  }

  lemma PlaceBss(p: Open)
    requires Sized(p.c, 3) && !p.c.gen[2] && p.c.secs[2] == DataAndBss().secs[2] && p.start == 64 && !p.c.wrapped
    requires p.c.pos == 80 && p.fileSize == 0x10 && p.memSize == 0x10
    ensures var q := Place(p, DATA_SEGMENT, 2);
      && q.Some? && q.value.fileSize == 0x10 && q.value.memSize == 0x30 && q.value.start == 64
      && q.value.c.secs[2].address == 0x1010
  {
    assert Gap(p, DATA_SEGMENT, 2) == Some(0);
  }

  /** It takes 0x10 bytes of the file and 0x30 of memory. */
  lemma DataAndBssSizes()
    ensures Sized(DataAndBss(), 3) && SectionsInFile(DATA_SEGMENT, 3)
    ensures var r := PlaceAll(OpenSegment(DataAndBss(), DATA_SEGMENT, 0, 0), DATA_SEGMENT, DATA_SEGMENT.sections);
      r.Some? && r.value.start == 64 && r.value.fileSize == 0x10 && r.value.memSize == 0x30
  {
    StartAligned(64, DATA_SEGMENT);
    OpensAt(DataAndBss(), DATA_SEGMENT, 0);
    var o := OpenSegment(DataAndBss(), DATA_SEGMENT, 0, 0);
    PlaceData(o);
    var p := Place(o, DATA_SEGMENT, 1).value;
    PlaceBss(p);
    assert PlaceAll(o, DATA_SEGMENT, []) == Some(o);
    Placed(o, DATA_SEGMENT, [], 1, o);
    Placed(o, DATA_SEGMENT, [1], 2, p);
    assert [] + [1] == [1] && [1] + [2] == DATA_SEGMENT.sections;
  }
}
