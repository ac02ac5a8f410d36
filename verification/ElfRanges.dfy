/** What a segment's file size covers. Padding in front of a NOBITS section moves the file
    position but is not counted, so the range falls short by just that much. */
module ElfRanges {
  import opened Words
  import opened Division
  import opened ElfOrder
  import opened ElfLayout
  import opened ElfLayoutLaws

  /** Padding that goes uncounted when section k is placed. */
  function LostAt(o: Open, seg: Segment, k: nat): nat
    requires Sized(o.c, |o.c.secs|) && k < |o.c.secs|
  {
    if o.c.secs[k].typ == SHT_NOBITS && Gap(o, seg, k).Some? then Gap(o, seg, k).value else 0
  }

  function Lost(o: Open, seg: Segment, ks: seq<nat>): nat
    requires Sized(o.c, |o.c.secs|) && AllBelow(ks, |o.c.secs|)
  {
    if ks == [] then 0 else
      var init := ks[..|ks| - 1];
      match PlaceAll(o, seg, init)
      case None => 0
      case Some(p) => Lost(o, seg, init) + LostAt(p, seg, ks[|ks| - 1])
  }

  /** File size plus lost padding is the distance the position has come from the start. */
  predicate Balanced(o: Open, lost: nat) {
    o.fileSize + lost == o.c.pos - o.start
  }

  lemma GeneratedEnd(c: Cursor, start: Word, seg: Segment, k: nat, gap: Word)
    requires Sized(c, |c.secs|) && k < |c.secs| && !Generate(c, start, seg, k, gap).wrapped
    ensures var d := Generate(c, start, seg, k, gap); var s := d.secs[k];
      && d.pos == c.pos + gap + FileBytes(c.secs[k]) && SameShape(c.secs[k], s)
      && (k != 0 ==> s.offset == c.pos + gap)
  {
  }

  lemma PlaceBalanced(o: Open, seg: Segment, k: nat, lost: nat)
    requires Sized(o.c, |o.c.secs|) && k < |o.c.secs| && !o.c.gen[k] && Balanced(o, lost)
    requires Place(o, seg, k).Some? && !Place(o, seg, k).value.c.wrapped
    ensures Balanced(Place(o, seg, k).value, lost + LostAt(o, seg, k))
    ensures o.c.pos <= Place(o, seg, k).value.c.pos
  {
    var s := o.c.secs[k];
    if s.typ != SHT_NULL {
      var gap := Gap(o, seg, k).value;
      GeneratedEnd(o.c, o.start, seg, k, gap);
      if s.typ != SHT_NOBITS {
        NoWrap(o.fileSize + s.size + gap);
      }
    }
  }

  lemma NoWrap(x: nat)
    requires x < TWO64
    ensures Wrap(x) == x
  {
  }

  /** All sections of the list are new, each listed once. */
  predicate AllNew(gen: seq<bool>, ks: seq<nat>)
    requires AllBelow(ks, |gen|)
  {
    (forall i | 0 <= i < |ks| :: !gen[ks[i]]) && forall i, j | 0 <= i < j < |ks| :: ks[i] != ks[j]
  }

  lemma LastIsNew(o: Open, seg: Segment, ks: seq<nat>)
    requires Sized(o.c, |o.c.secs|) && AllBelow(ks, |o.c.secs|) && AllNew(o.c.gen, ks) && ks != []
    requires PlaceAll(o, seg, ks[..|ks| - 1]).Some?
    ensures !PlaceAll(o, seg, ks[..|ks| - 1]).value.c.gen[ks[|ks| - 1]]
    ensures AllNew(o.c.gen, ks[..|ks| - 1])
  {
    PlaceAllExtends(o, seg, ks[..|ks| - 1]);
  }

  lemma {:induction false} PlaceAllBalanced(o: Open, seg: Segment, ks: seq<nat>)
    requires Sized(o.c, |o.c.secs|) && AllBelow(ks, |o.c.secs|) && AllNew(o.c.gen, ks) && Balanced(o, 0)
    requires PlaceAll(o, seg, ks).Some? && !PlaceAll(o, seg, ks).value.c.wrapped
    ensures Balanced(PlaceAll(o, seg, ks).value, Lost(o, seg, ks)) && o.c.pos <= PlaceAll(o, seg, ks).value.c.pos
    decreases |ks|
  {
    if ks != [] {
      var init, last := ks[..|ks| - 1], ks[|ks| - 1];
      var p := PlaceAll(o, seg, init).value;
      LastIsNew(o, seg, ks);
      PlaceExtends(p, seg, last);
      PlaceAllBalanced(o, seg, init);
      PlaceBalanced(p, seg, last, Lost(o, seg, init));
    }
  }

  /** A new section with file bytes ends where the position goes. */
  lemma PlacedEnd(o: Open, seg: Segment, k: nat)
    requires Sized(o.c, |o.c.secs|) && 0 < k < |o.c.secs| && !o.c.gen[k] && Occupies(o.c.secs[k])
    requires Place(o, seg, k).Some? && !Place(o, seg, k).value.c.wrapped
    ensures var p := Place(o, seg, k).value;
      p.c.secs[k].offset >= o.c.pos && p.c.secs[k].offset + p.c.secs[k].size == p.c.pos && Occupies(p.c.secs[k])
  {
    GeneratedEnd(o.c, o.start, seg, k, Gap(o, seg, k).value);
  }

  /** Every new section with file bytes lies between the first position and the last. */
  lemma {:induction false} PlacedBetween(o: Open, seg: Segment, ks: seq<nat>, k: nat)
    requires Sized(o.c, |o.c.secs|) && AllBelow(ks, |o.c.secs|) && AllNew(o.c.gen, ks) && Balanced(o, 0)
    requires PlaceAll(o, seg, ks).Some? && !PlaceAll(o, seg, ks).value.c.wrapped
    requires k in ks && 0 < k < |o.c.secs| && Occupies(o.c.secs[k])
    ensures var p := PlaceAll(o, seg, ks).value; var s := p.c.secs[k];
      o.c.pos <= s.offset && s.offset + s.size <= p.c.pos && SameShape(o.c.secs[k], s)
    decreases |ks|
  {
    var init, last := ks[..|ks| - 1], ks[|ks| - 1];
    var p := PlaceAll(o, seg, init).value;
    LastIsNew(o, seg, ks);
    PlaceExtends(p, seg, last);
    PlaceAllExtends(o, seg, init);
    PlaceAllBalanced(o, seg, init);
    PlaceBalanced(p, seg, last, Lost(o, seg, init));
    assert Kept(o.c, p.c, k) && Kept(p.c, Place(p, seg, last).value.c, k);
    if k == last {
      PlacedEnd(p, seg, k);
    } else {
      assert k in init;
      PlacedBetween(o, seg, init, k);
    }
  }

  /** A segment whose sections are all new opens in balance. */
  lemma OpensBalanced(c: Cursor, seg: Segment, tableOffset: Word, tableSize: Word)
    requires Sized(c, |c.secs|) && SectionsInFile(seg, |c.secs|) && AllNew(c.gen, seg.sections) && seg.sections != []
    ensures Balanced(OpenSegment(c, seg, tableOffset, tableSize), 0)
  {
  }

  /** The section lies in the file range of the segment. */
  predicate Covers(o: Open, s: Section) {
    o.start <= s.offset && s.offset + s.size <= o.start + o.fileSize
  }

  // ----- when nothing is lost -----

  function AlignAt(s: Section): (a: Word)
    ensures a > 0
  {
    if s.addrAlign == 0 then 1 else s.addrAlign
  }

  /** Section i of the list has no bytes in the file and no address, and the position in front of
      it is not a multiple of its alignment. */
  predicate Misplaced(o: Open, seg: Segment, ks: seq<nat>, i: nat)
    requires Sized(o.c, |o.c.secs|) && AllBelow(ks, |o.c.secs|) && i < |ks|
  {
    var s := o.c.secs[ks[i]];
    s.typ == SHT_NOBITS && !s.addressSet
    && match PlaceAll(o, seg, ks[..i])
       case None => false
       case Some(p) => p.c.pos % AlignAt(s) != 0
  }

  lemma PaddingOf(pos: Word, align: Word)
    requires align > 0
    ensures (align - pos % align) % align == 0 <==> pos % align == 0
  {
    var left := pos % align;
    if left == 0 {
      DivModUnique(align, align, 1, 0);
    } else {
      DivModUnique(align - left, align, 0, align - left);
    }
  }

  lemma LostAtExact(o: Open, seg: Segment, k: nat)
    requires Sized(o.c, |o.c.secs|) && k < |o.c.secs| && !o.c.gen[k]
    ensures var s := o.c.secs[k];
      LostAt(o, seg, k) == 0 <==> !(s.typ == SHT_NOBITS && !s.addressSet && o.c.pos % AlignAt(s) != 0)
  {
    PaddingOf(o.c.pos, AlignAt(o.c.secs[k]));
  }

  lemma {:induction false} NothingLost(o: Open, seg: Segment, ks: seq<nat>)
    requires Sized(o.c, |o.c.secs|) && AllBelow(ks, |o.c.secs|) && AllNew(o.c.gen, ks)
    requires PlaceAll(o, seg, ks).Some?
    ensures Lost(o, seg, ks) == 0 <==> forall i | 0 <= i < |ks| :: !Misplaced(o, seg, ks, i)
    decreases |ks|
  {
    if ks != [] {
      var n := |ks| - 1;
      var init, last := ks[..n], ks[n];
      var p := PlaceAll(o, seg, init).value;
      LastIsNew(o, seg, ks);
      PlaceAllExtends(o, seg, init);
      assert Kept(o.c, p.c, last);
      NothingLost(o, seg, init);
      LostAtExact(p, seg, last);
      assert LostAt(p, seg, last) == 0 <==> !Misplaced(o, seg, ks, n);
      MisplacedBefore(o, seg, ks, n);
    }
  }

  lemma MisplacedBefore(o: Open, seg: Segment, ks: seq<nat>, n: nat)
    requires Sized(o.c, |o.c.secs|) && AllBelow(ks, |o.c.secs|) && n <= |ks|
    ensures forall i | 0 <= i < n :: Misplaced(o, seg, ks, i) <==> Misplaced(o, seg, ks[..n], i)
  {
    forall i | 0 <= i < n
      ensures Misplaced(o, seg, ks, i) <==> Misplaced(o, seg, ks[..n], i)
    {
      assert ks[..n][..i] == ks[..i];
    }
  }

  // ----- the last section with file bytes -----

  /** What the sections behind section m add to the file size; they are all empty. */
  function PaddedBehind(o: Open, seg: Segment, ks: seq<nat>, m: nat): nat
    requires Sized(o.c, |o.c.secs|) && AllBelow(ks, |o.c.secs|)
    decreases |ks|
  {
    if |ks| <= m + 1 then 0 else
      var init, last := ks[..|ks| - 1], ks[|ks| - 1];
      match PlaceAll(o, seg, init)
      case None => 0
      case Some(p) => PaddedBehind(o, seg, init, m) + (if HasFile(p.c.secs[last]) && Gap(p, seg, last).Some?
                                                       then Gap(p, seg, last).value else 0)
  }

  predicate HasFile(s: Section) {
    s.typ != SHT_NULL && s.typ != SHT_NOBITS
  }

  /** Only empty sections stand behind section m. */
  predicate LastOf(secs: seq<Section>, ks: seq<nat>, m: nat)
    requires AllBelow(ks, |secs|)
  {
    m < |ks| && Occupies(secs[ks[m]]) && forall j | m < j < |ks| :: !Occupies(secs[ks[j]])
  }

  lemma LastOfFewer(secs: seq<Section>, ks: seq<nat>, m: nat)
    requires AllBelow(ks, |secs|) && LastOf(secs, ks, m) && m + 1 < |ks|
    ensures LastOf(secs, ks[..|ks| - 1], m) && !Occupies(secs[ks[|ks| - 1]])
  {
  }

  /** An empty section adds its padding if it is one with bytes in the file. */
  lemma PlaceEmpty(o: Open, seg: Segment, k: nat, lost: nat)
    requires Sized(o.c, |o.c.secs|) && k < |o.c.secs| && !o.c.gen[k] && Balanced(o, lost) && !Occupies(o.c.secs[k])
    requires Place(o, seg, k).Some? && !Place(o, seg, k).value.c.wrapped
    ensures Place(o, seg, k).value.fileSize == o.fileSize + if HasFile(o.c.secs[k]) && Gap(o, seg, k).Some?
                                                            then Gap(o, seg, k).value else 0
  {
    var s := o.c.secs[k];
    if HasFile(s) {
      var gap := Gap(o, seg, k).value;
      GeneratedEnd(o.c, o.start, seg, k, gap);
      NoWrap(o.fileSize + s.size + gap);
    }
  }

  /** From the last section with file bytes on, the range grows by the padding of empty sections;
      where that section ended, it fell short by what was lost before it. */
  lemma {:induction false} RangeFrom(o: Open, seg: Segment, ks: seq<nat>, m: nat)
    requires Sized(o.c, |o.c.secs|) && AllBelow(ks, |o.c.secs|) && AllNew(o.c.gen, ks) && Balanced(o, 0)
    requires PlaceAll(o, seg, ks).Some? && !PlaceAll(o, seg, ks).value.c.wrapped
    requires LastOf(o.c.secs, ks, m) && ks[m] != 0 && PlaceAll(o, seg, ks[..m]).Some?
    ensures var p := PlaceAll(o, seg, ks).value; var s := p.c.secs[ks[m]];
      s.offset + s.size == p.start + p.fileSize + Lost(o, seg, ks[..m]) - PaddedBehind(o, seg, ks, m)
    decreases |ks|
  {
    var init, last := ks[..|ks| - 1], ks[|ks| - 1];
    var p := PlaceAll(o, seg, init).value;
    LastIsNew(o, seg, ks);
    PlaceExtends(p, seg, last);
    PlaceAllExtends(o, seg, init);
    PlaceAllBalanced(o, seg, init);
    assert Kept(o.c, p.c, last);
    if |ks| == m + 1 {
      assert ks[..m] == init;
      PlaceBalanced(p, seg, last, Lost(o, seg, init));
      PlacedEnd(p, seg, last);
    } else {
      LastOfFewer(o.c.secs, ks, m);
      assert init[..m] == ks[..m] && init[m] == ks[m];
      RangeFrom(o, seg, init, m);
      PlaceEmpty(p, seg, last, Lost(o, seg, init));
      assert ks[m] in init;
      assert Kept(p.c, Place(p, seg, last).value.c, ks[m]);
    }
  }

  /** A section before another one ends before it starts. */
  lemma {:induction false} EndsBefore(o: Open, seg: Segment, ks: seq<nat>, i: nat, m: nat)
    requires Sized(o.c, |o.c.secs|) && AllBelow(ks, |o.c.secs|) && AllNew(o.c.gen, ks) && Balanced(o, 0)
    requires PlaceAll(o, seg, ks).Some? && !PlaceAll(o, seg, ks).value.c.wrapped
    requires i < m < |ks| && ks[i] != 0 && ks[m] != 0 && Occupies(o.c.secs[ks[i]]) && Occupies(o.c.secs[ks[m]])
    ensures var p := PlaceAll(o, seg, ks).value;
      p.c.secs[ks[i]].offset + p.c.secs[ks[i]].size <= p.c.secs[ks[m]].offset
    decreases |ks|
  {
    var init, last := ks[..|ks| - 1], ks[|ks| - 1];
    var p := PlaceAll(o, seg, init).value;
    LastIsNew(o, seg, ks);
    PlaceExtends(p, seg, last);
    PlaceAllExtends(o, seg, init);
    assert Kept(o.c, p.c, last);
    assert ks[i] in init && Kept(p.c, Place(p, seg, last).value.c, ks[i]);
    if m == |ks| - 1 {
      PlacedBetween(o, seg, init, ks[i]);
      PlacedEnd(p, seg, last);
    } else {
      EndsBefore(o, seg, init, i, m);
      assert ks[m] in init && Kept(p.c, Place(p, seg, last).value.c, ks[m]);
    }
  }

  /** The file range holds every section of the list that has bytes in the file. */
  ghost predicate CoversAll(p: Open, ks: seq<nat>)
    requires AllBelow(ks, |p.c.secs|)
  {
    forall i | 0 <= i < |ks| :: Occupies(p.c.secs[ks[i]]) ==> Covers(p, p.c.secs[ks[i]])
  }

  lemma {:induction false} PrefixPlaced(o: Open, seg: Segment, ks: seq<nat>, m: nat)
    requires Sized(o.c, |o.c.secs|) && AllBelow(ks, |o.c.secs|) && m <= |ks| && PlaceAll(o, seg, ks).Some?
    ensures PlaceAll(o, seg, ks[..m]).Some?
    decreases |ks|
  {
    if m == |ks| {
      assert ks[..m] == ks;
    } else {
      assert ks[..|ks| - 1][..m] == ks[..m];
      PrefixPlaced(o, seg, ks[..|ks| - 1], m);
    }
  }

  lemma LastDecides(o: Open, seg: Segment, ks: seq<nat>, m: nat)
    requires Sized(o.c, |o.c.secs|) && AllBelow(ks, |o.c.secs|) && AllNew(o.c.gen, ks) && Balanced(o, 0)
    requires PlaceAll(o, seg, ks).Some? && !PlaceAll(o, seg, ks).value.c.wrapped
    requires LastOf(o.c.secs, ks, m) && forall i | 0 <= i < |ks| :: Occupies(o.c.secs[ks[i]]) ==> ks[i] != 0
    ensures var p := PlaceAll(o, seg, ks).value;
      CoversAll(p, ks) <==> Covers(p, p.c.secs[ks[m]])
  {
    var p := PlaceAll(o, seg, ks).value;
    PlaceAllExtends(o, seg, ks);
    assert forall i | 0 <= i < |ks| :: Kept(o.c, p.c, ks[i]);
    forall i | 0 <= i < |ks| && Occupies(p.c.secs[ks[i]]) && Covers(p, p.c.secs[ks[m]])
      ensures Covers(p, p.c.secs[ks[i]])
    {
      if i < m {
        PlacedBetween(o, seg, ks, ks[i]);
        EndsBefore(o, seg, ks, i, m);
        StartIsFirst(o, seg, ks);
      }
    }
  }

  /** The range starts where the first section may. */
  lemma StartIsFirst(o: Open, seg: Segment, ks: seq<nat>)
    requires Sized(o.c, |o.c.secs|) && AllBelow(ks, |o.c.secs|) && Balanced(o, 0) && PlaceAll(o, seg, ks).Some?
    ensures PlaceAll(o, seg, ks).value.start <= o.c.pos
  {
  }

  /** A segment whose sections are all new, laid out without wrapping around: its file range covers
      its sections exactly when no more padding was lost in front of the last one with file bytes
      than empty sections behind it pad. If none of those does, because all that is behind it is
      NOBITS or null, that is: exactly unless a NOBITS section without an address stands before it
      at a position its alignment does not divide. */
  lemma RangeExact(c: Cursor, seg: Segment, tableOffset: Word, tableSize: Word, m: nat)
    requires Sized(c, |c.secs|) && SectionsInFile(seg, |c.secs|) && AllNew(c.gen, seg.sections)
    requires var o := OpenSegment(c, seg, tableOffset, tableSize);
      PlaceAll(o, seg, seg.sections).Some? && !PlaceAll(o, seg, seg.sections).value.c.wrapped
    requires LastOf(c.secs, seg.sections, m)
    requires forall i | 0 <= i < |seg.sections| :: Occupies(c.secs[seg.sections[i]]) ==> seg.sections[i] != 0
    ensures var o, ks := OpenSegment(c, seg, tableOffset, tableSize), seg.sections;
      CoversAll(PlaceAll(o, seg, ks).value, ks) <==> Lost(o, seg, ks[..m]) <= PaddedBehind(o, seg, ks, m)
    ensures var o, ks := OpenSegment(c, seg, tableOffset, tableSize), seg.sections;
      (forall j | m < j < |ks| :: !HasFile(c.secs[ks[j]]))
      ==> (CoversAll(PlaceAll(o, seg, ks).value, ks) <==> forall i | 0 <= i < m :: !Misplaced(o, seg, ks, i))
  {
    var o, ks := OpenSegment(c, seg, tableOffset, tableSize), seg.sections;
    OpensBalanced(c, seg, tableOffset, tableSize);
    PrefixPlaced(o, seg, ks, m);
    RangeFrom(o, seg, ks, m);
    PlacedBetween(o, seg, ks, ks[m]);
    LastDecides(o, seg, ks, m);
    NothingLost(o, seg, ks[..m]);
    MisplacedBefore(o, seg, ks, m);
    if forall j | m < j < |ks| :: !HasFile(c.secs[ks[j]]) {
      NothingPadded(o, seg, ks, m);
    }
  }

  lemma {:induction false} NothingPadded(o: Open, seg: Segment, ks: seq<nat>, m: nat)
    requires Sized(o.c, |o.c.secs|) && AllBelow(ks, |o.c.secs|)
    requires forall j | m < j < |ks| :: !HasFile(o.c.secs[ks[j]])
    ensures PaddedBehind(o, seg, ks, m) == 0
    decreases |ks|
  {
    if |ks| > m + 1 {
      var init := ks[..|ks| - 1];
      NothingPadded(o, seg, init, m);
      if PlaceAll(o, seg, init).Some? {
        PlaceAllExtends(o, seg, init);
        assert Kept(o.c, PlaceAll(o, seg, init).value.c, ks[|ks| - 1]);
      }
    }
  }

  // ----- a segment that misses its last section -----

  function OneByte(): Section {
    Section(1, SHF_ALLOC, 1, 1, 0, false, 0)
  }

  function Blank(): Section {
    Section(SHT_NOBITS, SHF_ALLOC, 4, 16, 0, false, 0)
  }

  const NULL_SECTION := Section(SHT_NULL, 0, 0, 0, 0, false, 0)

  /** A byte, four bytes at a multiple of 16 that are not in the file, and another byte. */
  function Sparse(): Cursor {
    Cursor([NULL_SECTION, OneByte(), Blank(), OneByte()], [false, false, false, false], 64, false)
  }

  const LOADED := Segment(1, 1, 0, 0, 0, 0, false, [1, 2, 3])

  lemma Placed(o: Open, seg: Segment, ks: seq<nat>, k: nat, p: Open)
    requires Sized(o.c, |o.c.secs|) && AllBelow(ks, |o.c.secs|) && k < |o.c.secs| && PlaceAll(o, seg, ks) == Some(p)
    ensures PlaceAll(o, seg, ks + [k]) == Place(p, seg, k)
  {
    assert (ks + [k])[..|ks + [k]| - 1] == ks;
  }

  predicate State(o: Open, pos: Word, fileSize: Word) {
    o.c.pos == pos && o.fileSize == fileSize && o.start == 64 && Sized(o.c, 4) && !o.c.wrapped
  }

  lemma PlaceByte(o: Open, k: nat)
    requires State(o, o.c.pos, o.fileSize) && 0 < k < 4 && !o.c.gen[k] && o.c.secs[k] == OneByte()
    requires o.c.pos < 1000 && o.fileSize < 1000
    ensures var p := Place(o, LOADED, k);
      && p.Some? && State(p.value, o.c.pos + 1, o.fileSize + 1) && p.value.c.secs[k].offset == o.c.pos
      && p.value.c.gen == o.c.gen[k := true] && SameShape(o.c.secs[k], p.value.c.secs[k])
      && forall j | 0 <= j < 4 && j != k :: p.value.c.secs[j] == o.c.secs[j]
  {
    assert Gap(o, LOADED, k) == Some(0);
  }

  lemma PlaceBlank(o: Open)
    requires State(o, 65, 1) && !o.c.gen[2] && o.c.secs[2] == Blank()
    ensures var p := Place(o, LOADED, 2);
      && p.Some? && State(p.value, 80, 1) && p.value.c.gen == o.c.gen[2 := true] && p.value.c.secs[3] == o.c.secs[3]
  {
    assert Gap(o, LOADED, 2) == Some(15);
  }

  lemma SparseOpens()
    ensures OpenSegment(Sparse(), LOADED, 0, 0) == Open(Sparse(), 64, 0, 0)
  {
    StartAligned(64, LOADED);
    OpensAt(Sparse(), LOADED, 0);
  }

  lemma OpensAt(c: Cursor, seg: Segment, gap: Word)
    requires Sized(c, |c.secs|) && SectionsInFile(seg, |c.secs|) && seg.sections != [] && gap == StartGap(c.pos, seg)
    requires c.secs[seg.sections[0]].typ != SHT_NULL && !c.gen[seg.sections[0]]
    ensures OpenSegment(c, seg, 0, 0) == Open(Advance(c, gap), Advance(c, gap).pos, 0, 0)
  {
  }

  /** The padding in front of the blank section moves the last byte out of the range. */
  lemma RangeMisses()
    ensures Sized(Sparse(), 4) && SectionsInFile(LOADED, 4) && AllNew(Sparse().gen, LOADED.sections)
    ensures var r := PlaceAll(OpenSegment(Sparse(), LOADED, 0, 0), LOADED, LOADED.sections);
      && r.Some? && !r.value.c.wrapped && r.value.start == 64 && r.value.fileSize == 2
      && r.value.c.secs[3].offset == 80 && !CoversAll(r.value, LOADED.sections)
  {
    SparseOpens();
    var o := Open(Sparse(), 64, 0, 0);
    PlaceByte(o, 1);
    var p1 := Place(o, LOADED, 1).value;
    PlaceBlank(p1);
    var p2 := Place(p1, LOADED, 2).value;
    PlaceByte(p2, 3);
    Sequence(o, p1, p2);
    assert Occupies(Place(p2, LOADED, 3).value.c.secs[LOADED.sections[2]]);
  }

  lemma Sequence(o: Open, p1: Open, p2: Open)
    requires Sized(o.c, 4) && Sized(p1.c, 4) && Sized(p2.c, 4)
    requires Place(o, LOADED, 1) == Some(p1) && Place(p1, LOADED, 2) == Some(p2)
    ensures PlaceAll(o, LOADED, LOADED.sections) == Place(p2, LOADED, 3)
  {
    assert PlaceAll(o, LOADED, []) == Some(o);
    Placed(o, LOADED, [], 1, o);
    Placed(o, LOADED, [1], 2, p1);
    Placed(o, LOADED, [1, 2], 3, p2);
    assert [] + [1] == [1] && [1] + [2] == [1, 2] && [1, 2] + [3] == LOADED.sections;
  }

  // ----- segments inside others -----

  lemma PlaceOld(o: Open, seg: Segment, k: nat)
    requires Sized(o.c, |o.c.secs|) && k < |o.c.secs| && o.c.gen[k]
    ensures Place(o, seg, k).Some?
    ensures var p := Place(o, seg, k).value; var s := o.c.secs[k];
      p.c == o.c && p.start == o.start
      && p.fileSize == if HasFile(s) then Wrap(s.offset + s.size - o.start) else o.fileSize
  {
    var s := o.c.secs[k];
    if HasFile(s) {
      SumOfWraps(s.offset - o.start - o.fileSize, o.fileSize + s.size);
    }
  }

  lemma SumOfWraps(x: int, y: int)
    ensures Wrap(y + Wrap(x)) == Wrap(x + y)
  {
    WrapSum(x, y);
  }

  /** A segment whose sections are all placed already moves nothing, and its range ends where the
      last of them that is of the file's ends. */
  lemma {:induction false} SharedRange(o: Open, seg: Segment, ks: seq<nat>, m: nat)
    requires Sized(o.c, |o.c.secs|) && AllBelow(ks, |o.c.secs|) && forall i | 0 <= i < |ks| :: o.c.gen[ks[i]]
    requires m < |ks| && HasFile(o.c.secs[ks[m]]) && forall j | m < j < |ks| :: !HasFile(o.c.secs[ks[j]])
    ensures PlaceAll(o, seg, ks).Some?
    ensures var p := PlaceAll(o, seg, ks).value; var s := o.c.secs[ks[m]];
      p.c == o.c && p.start == o.start && p.fileSize == Wrap(s.offset + s.size - o.start)
    decreases |ks|
  {
    var init, last := ks[..|ks| - 1], ks[|ks| - 1];
    if m == |ks| - 1 {
      SharedStays(o, seg, init);
      PlaceOld(PlaceAll(o, seg, init).value, seg, last);
    } else {
      SharedRange(o, seg, init, m);
      PlaceOld(PlaceAll(o, seg, init).value, seg, last);
    }
  }

  lemma {:induction false} SharedStays(o: Open, seg: Segment, ks: seq<nat>)
    requires Sized(o.c, |o.c.secs|) && AllBelow(ks, |o.c.secs|) && forall i | 0 <= i < |ks| :: o.c.gen[ks[i]]
    ensures PlaceAll(o, seg, ks).Some? && PlaceAll(o, seg, ks).value.c == o.c
      && PlaceAll(o, seg, ks).value.start == o.start
    decreases |ks|
  {
    if ks != [] {
      SharedStays(o, seg, ks[..|ks| - 1]);
      PlaceOld(PlaceAll(o, seg, ks[..|ks| - 1]).value, seg, ks[|ks| - 1]);
    }
  }

  /** So it covers its sections exactly when the first starts no later and the last ends no earlier
      than any other. */
  lemma SharedExact(c: Cursor, seg: Segment, tableOffset: Word, tableSize: Word, m: nat)
    requires Sized(c, |c.secs|) && SectionsInFile(seg, |c.secs|) && seg.sections != []
    requires c.secs[seg.sections[0]].typ != SHT_NULL
    requires forall i | 0 <= i < |seg.sections| :: c.gen[seg.sections[i]]
    requires m < |seg.sections| && HasFile(c.secs[seg.sections[m]])
    requires forall j | m < j < |seg.sections| :: !HasFile(c.secs[seg.sections[j]])
    requires var first, last := c.secs[seg.sections[0]], c.secs[seg.sections[m]];
      first.offset <= last.offset && last.offset + last.size < TWO64
    ensures var p := PlaceAll(OpenSegment(c, seg, tableOffset, tableSize), seg, seg.sections);
      p.Some? && (CoversAll(p.value, seg.sections) <==> InOrder(c, seg.sections, m))
  {
    var o := OpenSegment(c, seg, tableOffset, tableSize);
    SharedRange(o, seg, seg.sections, m);
    var last := c.secs[seg.sections[m]];
    NoWrap(last.offset + last.size - o.start);
  }

  /** Every section with bytes in the file starts no earlier than the first section of the list and
      ends no later than section m. */
  ghost predicate InOrder(c: Cursor, ks: seq<nat>, m: nat)
    requires AllBelow(ks, |c.secs|) && m < |ks|
  {
    var first, last := c.secs[ks[0]], c.secs[ks[m]];
    forall i | 0 <= i < |ks| :: Occupies(c.secs[ks[i]]) ==>
      first.offset <= c.secs[ks[i]].offset && c.secs[ks[i]].offset + c.secs[ks[i]].size <= last.offset + last.size
  }
}
