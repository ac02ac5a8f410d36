/** What a layout that succeeds without wrapping around guarantees: every section is placed
    once, no two overlap in the file, addresses and alignments are respected, and the
    validator finds nothing; and what the validator's answer means on any file. */
module ElfLayoutLaws {
  import opened Words
  import opened ElfOrder
  import opened ElfLayout
  import opened Division

  // ----- what a step leaves alone -----

  predicate SameShape(s: Section, t: Section) {
    t.typ == s.typ && t.size == s.size && t.flags == s.flags && t.addrAlign == s.addrAlign
  }

  /** Generated sections stay as they are, for good. */
  predicate Kept(c: Cursor, d: Cursor, k: nat) {
    && k < |c.secs| == |d.secs| && |c.gen| == |c.secs| && |d.gen| == |c.secs|
    && SameShape(c.secs[k], d.secs[k])
    && (c.gen[k] ==> d.gen[k] && d.secs[k] == c.secs[k])
    && (!d.gen[k] ==> d.secs[k] == c.secs[k])
  }

  predicate Extends(c: Cursor, d: Cursor) {
    && |d.secs| == |c.secs| && (c.wrapped ==> d.wrapped)
    && forall k | 0 <= k < |c.secs| :: Kept(c, d, k)
  }

  lemma ExtendsTrans(c: Cursor, d: Cursor, e: Cursor)
    requires Extends(c, d) && Extends(d, e)
    ensures Extends(c, e)
  {
    forall k | 0 <= k < |c.secs|
      ensures Kept(c, e, k)
    {
      assert Kept(c, d, k) && Kept(d, e, k);
    }
  }

  lemma PlaceExtends(o: Open, seg: Segment, k: nat)
    requires Sized(o.c, |o.c.secs|) && k < |o.c.secs| && Place(o, seg, k).Some?
    ensures Extends(o.c, Place(o, seg, k).value.c) && Place(o, seg, k).value.c.gen == o.c.gen[k := true]
  {
  }

  lemma {:induction false} PlaceAllExtends(o: Open, seg: Segment, ks: seq<nat>)
    requires Sized(o.c, |o.c.secs|) && AllBelow(ks, |o.c.secs|) && PlaceAll(o, seg, ks).Some?
    ensures var d := PlaceAll(o, seg, ks).value.c;
      Extends(o.c, d) && forall k | 0 <= k < |o.c.gen| :: d.gen[k] <==> o.c.gen[k] || k in ks
    decreases |ks|
  {
    if ks != [] {
      var init, last := ks[..|ks| - 1], ks[|ks| - 1];
      PlaceAllExtends(o, seg, init);
      var p := PlaceAll(o, seg, init).value;
      PlaceExtends(p, seg, last);
      ExtendsTrans(o.c, p.c, Place(p, seg, last).value.c);
      assert ks == init + [last];
    }
  }

  // ----- no overlap -----

  /** The section has bytes in the file. */
  predicate Occupies(s: Section) {
    s.typ != SHT_NULL && s.typ != SHT_NOBITS && s.size > 0
  }

  predicate Within(s: Section, from: nat, to: nat) {
    Occupies(s) ==> from <= s.offset && s.offset + s.size <= to
  }

  predicate Disjoint(s: Section, t: Section) {
    Occupies(s) && Occupies(t) ==> s.offset + s.size <= t.offset || t.offset + t.size <= s.offset
  }

  ghost predicate Tidy(secs: seq<Section>, done: set<nat>, from: nat, to: nat) {
    && (forall i | i in done && i < |secs| :: Within(secs[i], from, to))
    && (forall i, j | i in done && j in done && i < |secs| && j < |secs| && i != j :: Disjoint(secs[i], secs[j]))
  }

  /** Section 0 is the null section. */
  predicate NullFirst(secs: seq<Section>) {
    secs != [] ==> secs[0].typ == SHT_NULL
  }

  function Generated(gen: seq<bool>): set<nat> {
    set k: nat | k < |gen| && gen[k]
  }

  ghost predicate TidyCursor(c: Cursor, done: set<nat>, from: nat) {
    from <= c.pos && NullFirst(c.secs) && Tidy(c.secs, done, from, c.pos)
  }

  /** A section put behind everything placed so far overlaps none of it. */
  lemma PutTidy(c: Cursor, done: set<nat>, from: nat, k: nat)
    requires TidyCursor(c, done, from) && k < |c.secs| && k !in done && !Put(c, k).wrapped
    ensures TidyCursor(Put(c, k), done + {k}, from)
  {
    var d := Put(c, k);
    forall i | i in done + {k} && i < |d.secs|
      ensures Within(d.secs[i], from, d.pos)
    {
    }
    forall i, j | i in done + {k} && j in done + {k} && i < |d.secs| && j < |d.secs| && i != j
      ensures Disjoint(d.secs[i], d.secs[j])
    {
      assert i in done ==> Within(c.secs[i], from, c.pos);
      assert j in done ==> Within(c.secs[j], from, c.pos);
    }
  }

  /** Moving on, or renaming a section not placed yet, disturbs nothing. */
  lemma AdvanceTidy(c: Cursor, done: set<nat>, from: nat, gap: Word, k: nat, s: Section)
    requires TidyCursor(c, done, from) && k < |c.secs| && k !in done && s.typ == c.secs[k].typ
    requires !Advance(c, gap).wrapped
    ensures TidyCursor(Advance(c, gap).(secs := c.secs[k := s]), done, from)
  {
    var d := Advance(c, gap).(secs := c.secs[k := s]);
    forall i | i in done && i < |d.secs|
      ensures Within(d.secs[i], from, d.pos)
    {
      assert Within(c.secs[i], from, c.pos);
    }
  }

  lemma GenerateTidy(o: Open, seg: Segment, k: nat, gap: Word, done: set<nat>, from: nat)
    requires Sized(o.c, |o.c.secs|) && k < |o.c.secs| && k !in done && TidyCursor(o.c, done, from)
    requires !Generate(o.c, o.start, seg, k, gap).wrapped
    ensures TidyCursor(Generate(o.c, o.start, seg, k, gap), done + {k}, from)
  {
    var d := Advance(o.c, gap);
    var s := d.secs[k];
    var named := if s.addressSet then s else s.(address := Wrap(seg.vaddr + d.pos - o.start), addressSet := true);
    AdvanceTidy(o.c, done, from, gap, k, named);
    PutTidy(d.(secs := d.secs[k := named]), done, from, k);
  }

  lemma PlaceTidy(o: Open, seg: Segment, k: nat, from: nat)
    requires Sized(o.c, |o.c.secs|) && k < |o.c.secs| && TidyCursor(o.c, Generated(o.c.gen), from)
    requires Place(o, seg, k).Some? && !Place(o, seg, k).value.c.wrapped
    ensures TidyCursor(Place(o, seg, k).value.c, Generated(Place(o, seg, k).value.c.gen), from)
  {
    var d := Place(o, seg, k).value.c;
    PlaceExtends(o, seg, k);
    var done := Generated(o.c.gen);
    assert Generated(d.gen) == done + {k};
    if o.c.secs[k].typ != SHT_NULL && !o.c.gen[k] {
      GenerateTidy(o, seg, k, Gap(o, seg, k).value, done, from);
    }
  }

  lemma {:induction false} PlaceAllTidy(o: Open, seg: Segment, ks: seq<nat>, from: nat)
    requires Sized(o.c, |o.c.secs|) && AllBelow(ks, |o.c.secs|) && TidyCursor(o.c, Generated(o.c.gen), from)
    requires PlaceAll(o, seg, ks).Some? && !PlaceAll(o, seg, ks).value.c.wrapped
    ensures TidyCursor(PlaceAll(o, seg, ks).value.c, Generated(PlaceAll(o, seg, ks).value.c.gen), from)
    decreases |ks|
  {
    if ks != [] {
      var p := PlaceAll(o, seg, ks[..|ks| - 1]).value;
      PlaceExtends(p, seg, ks[|ks| - 1]);
      PlaceAllTidy(o, seg, ks[..|ks| - 1], from);
      PlaceTidy(p, seg, ks[|ks| - 1], from);
    }
  }

  lemma MoveTidy(c: Cursor, done: set<nat>, from: nat, gap: Word)
    requires TidyCursor(c, done, from) && !Advance(c, gap).wrapped
    ensures TidyCursor(Advance(c, gap), done, from)
  {
    forall i | i in done && i < |c.secs|
      ensures Within(c.secs[i], from, Advance(c, gap).pos)
    {
      assert Within(c.secs[i], from, c.pos);
    }
  }

  /** One segment laid out: what holds of its cursor before and after. */
  lemma LaySegmentTidy(l: Layout, i: nat, tableOffset: Word, tableSize: Word, from: nat)
    requires Ok(l) && i < |l.segs| && LaySegment(l, i, tableOffset, tableSize).Some?
    ensures var d := LaySegment(l, i, tableOffset, tableSize).value.c;
      && Extends(l.c, d)
      && (forall k | 0 <= k < |d.gen| :: d.gen[k] <==> l.c.gen[k] || k in l.segs[i].sections)
      && (TidyCursor(l.c, Generated(l.c.gen), from) && !d.wrapped ==> TidyCursor(d, Generated(d.gen), from))
  {
    var seg := l.segs[i];
    var o := OpenSegment(l.c, seg, tableOffset, tableSize);
    PlaceAllExtends(o, seg, seg.sections);
    var d := PlaceAll(o, seg, seg.sections).value.c;
    assert Extends(l.c, o.c);
    ExtendsTrans(l.c, o.c, d);
    if TidyCursor(l.c, Generated(l.c.gen), from) && !d.wrapped {
      if o.c != l.c {
        MoveTidy(l.c, Generated(l.c.gen), from, StartGap(l.c.pos, seg));
      }
      PlaceAllTidy(o, seg, seg.sections, from);
    }
  }

  predicate InSome(segs: seq<Segment>, order: seq<nat>, k: nat)
    requires InRange(segs, order)
  {
    exists b :: 0 <= b < |order| && k in segs[order[b]].sections
  }

  lemma {:induction false} LaySegmentsTidy(l: Layout, order: seq<nat>, tableOffset: Word, tableSize: Word, from: nat)
    requires Ok(l) && InRange(l.segs, order) && LaySegments(l, order, tableOffset, tableSize).Some?
    ensures var d := LaySegments(l, order, tableOffset, tableSize).value.c;
      && Extends(l.c, d)
      && (forall k | 0 <= k < |d.gen| :: d.gen[k] <==> l.c.gen[k] || InSome(l.segs, order, k))
      && (TidyCursor(l.c, Generated(l.c.gen), from) && !d.wrapped ==> TidyCursor(d, Generated(d.gen), from))
    decreases |order|
  {
    if order != [] {
      var init, last := order[..|order| - 1], order[|order| - 1];
      LaySegmentsTidy(l, init, tableOffset, tableSize, from);
      var m := LaySegments(l, init, tableOffset, tableSize).value;
      LaySegmentTidy(m, last, tableOffset, tableSize, from);
      var d := LaySegment(m, last, tableOffset, tableSize).value.c;
      ExtendsTrans(l.c, m.c, d);
      forall k | 0 <= k < |d.gen|
        ensures d.gen[k] <==> l.c.gen[k] || InSome(l.segs, order, k)
      {
        InSomeLast(l.segs, order, k);
      }
    }
  }

  lemma InSomeLast(segs: seq<Segment>, order: seq<nat>, k: nat)
    requires InRange(segs, order) && order != []
    ensures InSome(segs, order, k) <==>
      InSome(segs, order[..|order| - 1], k) || k in segs[order[|order| - 1]].sections
  {
    var init := order[..|order| - 1];
    if InSome(segs, init, k) {
      var b :| 0 <= b < |init| && k in segs[init[b]].sections;
      assert k in segs[order[b]].sections;
    }
  }

  // ----- the sections in no segment -----

  function Done(c: Cursor, segs: seq<Segment>, n: nat): set<nat> {
    Generated(c.gen) + set k: nat | k < n && Loose(segs, k)
  }

  lemma LayLooseTidy(c: Cursor, done: set<nat>, from: nat, k: nat)
    requires TidyCursor(c, done, from) && k < |c.secs| && k !in done && !LayLoose(c, k).wrapped
    ensures TidyCursor(LayLoose(c, k), done + {k}, from)
    ensures LayLoose(c, k).secs[k] == if k == 0 then c.secs[k]
      else c.secs[k].(offset := c.pos + LooseGap(c.pos, c.secs[k].addrAlign))
  {
    var gap := LooseGap(c.pos, c.secs[k].addrAlign);
    MoveTidy(c, done, from, gap);
    PutTidy(Advance(c, gap), done, from, k);
  }

  lemma LooseGapPads(pos: Word, align: Word)
    requires align > 0
    ensures (pos + LooseGap(pos, align)) % align == 0
  {
    assert pos == pos / align * align + pos % align;
    if LooseGap(pos, align) == 0 {
      if align == 1 {
        assert pos % 1 == 0;
      }
    } else {
      DivModUnique(pos + LooseGap(pos, align), align, pos / align + 1, 0);
    }
  }

  predicate LooseAligned(secs: seq<Section>, segs: seq<Segment>, k: nat)
    requires k < |secs|
  {
    k != 0 && Loose(segs, k) && secs[k].addrAlign > 0 ==> secs[k].offset % secs[k].addrAlign == 0
  }

  lemma LayLooseOthers(c: Cursor, k: nat, j: nat)
    requires k < |c.secs| && j < |c.secs|
    ensures SameShape(c.secs[j], LayLoose(c, k).secs[j]) && (j != k ==> LayLoose(c, k).secs[j] == c.secs[j])
    ensures !LayLoose(c, k).wrapped ==> !c.wrapped
  {
  }

  /** After the first n sections have been looked at: section k is as before, or loose and
      aligned. */
  predicate Rested(c: Cursor, d: Cursor, segs: seq<Segment>, n: nat, k: nat) {
    && k < |c.secs| == |d.secs| && SameShape(c.secs[k], d.secs[k])
    && (n <= k || !Loose(segs, k) ==> d.secs[k] == c.secs[k])
    && (k < n ==> LooseAligned(d.secs, segs, k))
  }

  lemma RestOne(c: Cursor, segs: seq<Segment>, n: nat, from: nat, k: nat)
    requires Sized(c, |c.secs|) && n < |c.secs| && k < |c.secs| && Rested(c, LayRest(c, segs, n), segs, n, k)
    requires TidyCursor(LayRest(c, segs, n), Done(c, segs, n), from) && n !in Done(c, segs, n)
    requires !LayRest(c, segs, n + 1).wrapped
    ensures Rested(c, LayRest(c, segs, n + 1), segs, n + 1, k)
  {
    var d := LayRest(c, segs, n);
    if Loose(segs, n) {
      LayLooseOthers(d, n, k);
      LayLooseTidy(d, Done(c, segs, n), from, n);
      if d.secs[n].addrAlign > 0 {
        LooseGapPads(d.pos, d.secs[n].addrAlign);
      }
    }
  }

  lemma DoneOne(c: Cursor, segs: seq<Segment>, n: nat)
    requires |c.gen| > n && (c.gen[n] ==> !Loose(segs, n))
    ensures Loose(segs, n) ==> Done(c, segs, n + 1) == Done(c, segs, n) + {n} && n !in Done(c, segs, n)
    ensures !Loose(segs, n) ==> Done(c, segs, n + 1) == Done(c, segs, n)
  {
  }

  /** A generated section is not loose. */
  predicate NoneLoose(gen: seq<bool>, segs: seq<Segment>) {
    forall k | 0 <= k < |gen| :: gen[k] ==> !Loose(segs, k)
  }

  lemma RestStepTidy(c: Cursor, segs: seq<Segment>, n: nat, from: nat)
    requires Sized(c, |c.secs|) && n < |c.secs| && NoneLoose(c.gen, segs) && !LayRest(c, segs, n + 1).wrapped
    requires TidyCursor(LayRest(c, segs, n), Done(c, segs, n), from)
    ensures TidyCursor(LayRest(c, segs, n + 1), Done(c, segs, n + 1), from)
  {
    DoneOne(c, segs, n);
    if Loose(segs, n) {
      LayLooseTidy(LayRest(c, segs, n), Done(c, segs, n), from, n);
    }
  }

  lemma {:induction false} LayRestTidy(c: Cursor, segs: seq<Segment>, n: nat, from: nat)
    requires Sized(c, |c.secs|) && n <= |c.secs| && TidyCursor(c, Generated(c.gen), from)
    requires NoneLoose(c.gen, segs)
    requires !LayRest(c, segs, n).wrapped
    ensures TidyCursor(LayRest(c, segs, n), Done(c, segs, n), from)
  {
    if n == 0 {
      assert Done(c, segs, 0) == Generated(c.gen);
    } else {
      RestNotWrapped(c, segs, n);
      LayRestTidy(c, segs, n - 1, from);
      RestStepTidy(c, segs, n - 1, from);
    }
  }

  lemma {:induction false} LayRestRested(c: Cursor, segs: seq<Segment>, n: nat, from: nat, k: nat)
    requires Sized(c, |c.secs|) && n <= |c.secs| && TidyCursor(c, Generated(c.gen), from)
    requires NoneLoose(c.gen, segs)
    requires !LayRest(c, segs, n).wrapped && k < |c.secs|
    ensures Rested(c, LayRest(c, segs, n), segs, n, k)
  {
    if n > 0 {
      RestNotWrapped(c, segs, n);
      LayRestTidy(c, segs, n - 1, from);
      LayRestRested(c, segs, n - 1, from, k);
      DoneOne(c, segs, n - 1);
      if Loose(segs, n - 1) {
        RestOne(c, segs, n - 1, from, k);
      }
    }
  }

  /** Once the position has wrapped around it stays so. */
  lemma {:induction false} RestNotWrapped(c: Cursor, segs: seq<Segment>, n: nat)
    requires n <= |c.secs| && !LayRest(c, segs, n).wrapped
    ensures !c.wrapped && (n > 0 ==> !LayRest(c, segs, n - 1).wrapped)
  {
    if n > 0 {
      if Loose(segs, n - 1) {
        LayLooseOthers(LayRest(c, segs, n - 1), n - 1, 0);
      }
      RestNotWrapped(c, segs, n - 1);
    }
  }

  // ----- permutations of the segments -----

  lemma {:induction false} RangeOnce(n: nat, x: nat)
    ensures multiset(Range(n))[x] == if x < n then 1 else 0
  {
    if n > 0 {
      RangeOnce(n - 1, x);
      assert Range(n) == Range(n - 1) + [n - 1];
    }
  }

  lemma PermutesDistinct(order: seq<nat>, n: nat, i: nat, j: nat)
    requires Permutes(order, n) && i < j < |order|
    ensures order[i] != order[j]
  {
    RangeOnce(n, order[i]);
    assert order == order[..j] + order[j..];
    assert order[i] in order[..j] && order[j] in order[j..];
    assert multiset(order) == multiset(order[..j]) + multiset(order[j..]);
  }

  lemma PermutesOnto(order: seq<nat>, n: nat, x: nat)
    requires Permutes(order, n) && x < n
    ensures x in order
  {
    RangeOnce(n, x);
    assert x in multiset(order);
  }

  lemma InSomeIsNotLoose(segs: seq<Segment>, order: seq<nat>, k: nat)
    requires InRange(segs, order) && Permutes(order, |segs|)
    ensures InSome(segs, order, k) <==> !Loose(segs, k)
  {
    if !Loose(segs, k) {
      var i :| 0 <= i < |segs| && k in segs[i].sections;
      PermutesOnto(order, |segs|, i);
      var b :| 0 <= b < |order| && order[b] == i;
      assert k in segs[order[b]].sections;
    }
  }

  // ----- the whole file -----

  /** No section generated yet. */
  predicate Untouched(c: Cursor) {
    Sized(c, |c.secs|) && NullFirst(c.secs) && forall k | 0 <= k < |c.gen| :: !c.gen[k]
  }

  /** Sections with bytes in the file are pairwise disjoint and lie between two positions. */
  ghost predicate OverlapFree(secs: seq<Section>, from: nat, to: nat) {
    && (forall k | 0 <= k < |secs| :: Within(secs[k], from, to))
    && (forall i, j | 0 <= i < |secs| && 0 <= j < |secs| && i != j :: Disjoint(secs[i], secs[j]))
  }

  lemma TidyAll(c: Cursor, done: set<nat>, from: nat)
    requires TidyCursor(c, done, from) && forall k: nat | k < |c.secs| :: k in done
    ensures OverlapFree(c.secs, from, c.pos)
  {
  }

  predicate ShapesKept(secs: seq<Section>, after: seq<Section>) {
    |after| == |secs| && forall k | 0 <= k < |secs| :: SameShape(secs[k], after[k])
  }

  lemma SameLoose(segs: seq<Segment>, others: seq<Segment>, k: nat)
    requires |segs| == |others| && forall i | 0 <= i < |segs| :: others[i].sections == segs[i].sections
    ensures Loose(segs, k) <==> Loose(others, k)
  {
    if !Loose(segs, k) {
      var i :| 0 <= i < |segs| && k in segs[i].sections;
      assert k in others[i].sections;
    }
  }

  /** After the segments: what they hold is generated, and nothing else. */
  lemma SegmentsLaid(l: Layout, order: seq<nat>, tableOffset: Word, tableSize: Word)
    requires Ok(l) && Untouched(l.c) && InRange(l.segs, order) && Permutes(order, |l.segs|)
    requires LaySegments(l, order, tableOffset, tableSize).Some?
    requires !LaySegments(l, order, tableOffset, tableSize).value.c.wrapped
    ensures var m := LaySegments(l, order, tableOffset, tableSize).value;
      && TidyCursor(m.c, Generated(m.c.gen), l.c.pos) && ShapesKept(l.c.secs, m.c.secs)
      && forall k | 0 <= k < |m.c.gen| :: m.c.gen[k] <==> !Loose(m.segs, k)
  {
    LaySegmentsTidy(l, order, tableOffset, tableSize, l.c.pos);
    var m := LaySegments(l, order, tableOffset, tableSize).value;
    forall k | 0 <= k < |m.c.gen|
      ensures m.c.gen[k] <==> !Loose(m.segs, k)
      ensures SameShape(l.c.secs[k], m.c.secs[k])
    {
      InSomeIsNotLoose(l.segs, order, k);
      SameLoose(l.segs, m.segs, k);
      assert Kept(l.c, m.c, k);
    }
  }

  /** After the rest: everything is done. */
  lemma RestLaid(c: Cursor, segs: seq<Segment>, from: nat)
    requires Sized(c, |c.secs|) && TidyCursor(c, Generated(c.gen), from)
    requires forall k | 0 <= k < |c.gen| :: c.gen[k] <==> !Loose(segs, k)
    requires !FinishFile(Layout(c, segs)).c.wrapped
    ensures var e := FinishFile(Layout(c, segs)).c;
      && OverlapFree(e.secs, from, e.pos) && ShapesKept(c.secs, e.secs)
      && forall k | 0 <= k < |e.secs| :: LooseAligned(e.secs, segs, k)
  {
    var n := |c.secs|;
    var d := LayRest(c, segs, n);
    LayRestTidy(c, segs, n, from);
    MoveTidy(d, Done(c, segs, n), from, TableGap(d.pos));
    TidyAll(Advance(d, TableGap(d.pos)), Done(c, segs, n), from);
    forall k | 0 <= k < n
      ensures SameShape(c.secs[k], d.secs[k]) && LooseAligned(d.secs, segs, k)
    {
      LayRestRested(c, segs, n, from, k);
    }
  }

  ghost predicate Clean(before: Layout, after: Layout) {
    && after.c.pos % 4 == 0 && ShapesKept(before.c.secs, after.c.secs)
    && OverlapFree(after.c.secs, before.c.pos, after.c.pos)
    && (forall k | 0 <= k < |after.c.secs| :: LooseAligned(after.c.secs, after.segs, k))
  }

  lemma TableAligned(c: Cursor)
    ensures var d := Advance(c, TableGap(c.pos)); !d.wrapped ==> d.pos % 4 == 0
  {
  }

  lemma ShapesTrans(a: seq<Section>, b: seq<Section>, c: seq<Section>)
    requires ShapesKept(a, b) && ShapesKept(b, c)
    ensures ShapesKept(a, c)
  {
    forall k | 0 <= k < |a|
      ensures SameShape(a[k], c[k])
    {
      assert SameShape(a[k], b[k]) && SameShape(b[k], c[k]);
    }
  }

  lemma FinishIsClean(before: Layout, m: Layout)
    requires Sized(m.c, |m.c.secs|) && TidyCursor(m.c, Generated(m.c.gen), before.c.pos)
    requires ShapesKept(before.c.secs, m.c.secs) && !FinishFile(m).c.wrapped
    requires forall k | 0 <= k < |m.c.gen| :: m.c.gen[k] <==> !Loose(m.segs, k)
    ensures Clean(before, FinishFile(m))
  {
    assert m == Layout(m.c, m.segs);
    RestLaid(m.c, m.segs, before.c.pos);
    TableAligned(LayRest(m.c, m.segs, |m.c.secs|));
    ShapesTrans(before.c.secs, m.c.secs, FinishFile(m).c.secs);
  }

  /** File layout is overlap-free: sections with bytes in the file are pairwise disjoint and lie
      between the first position and the aligned section table, whatever order the segments
      are taken in. */
  lemma LayoutIsClean(l: Layout, order: seq<nat>, tableOffset: Word, tableSize: Word)
    requires Ok(l) && Untouched(l.c) && InRange(l.segs, order) && Permutes(order, |l.segs|)
    requires LayFile(l, order, tableOffset, tableSize).Some?
    requires !LayFile(l, order, tableOffset, tableSize).value.c.wrapped
    ensures Clean(l, LayFile(l, order, tableOffset, tableSize).value)
  {
    var m := LaySegments(l, order, tableOffset, tableSize).value;
    RestNotWrapped(m.c, m.segs, |m.c.secs|);
    SegmentsLaid(l, order, tableOffset, tableSize);
    FinishIsClean(l, m);
  }

  // ----- addresses and alignment -----

  /** The alignment a segment is laid out with suits each of its sections and itself, is that of one
      of them, and is all that changes. */
  lemma LargestAlignment(secs: seq<Section>, segs: seq<Segment>, i: nat)
    requires InFile(segs, |secs|) && i < |segs|
    ensures var ks, a := segs[i].sections, AlignAll(secs, segs)[i].align;
      && segs[i].align <= a && (forall j | 0 <= j < |ks| :: secs[ks[j]].addrAlign <= a)
      && (a == segs[i].align || exists j :: 0 <= j < |ks| && secs[ks[j]].addrAlign == a)
    ensures AlignAll(secs, segs)[i].(align := segs[i].align) == segs[i]
  {
    assert MaxAlign(secs, segs[i].sections, segs[i].align) == AlignAll(secs, segs)[i].align;
  }

  /** The section is as far from the segment's start in the file as in memory. */
  predicate Congruent(s: Section, vaddr: Word, start: Word) {
    Wrap(s.offset - start) == Wrap(s.address - vaddr)
  }

  /** Sections whose offset the engine ties to an address. */
  predicate Addressed(s: Section) {
    s.typ != SHT_NULL && (!s.addressSet || (s.typ != SHT_NOBITS && s.size != 0))
  }

  lemma WrapSum(x: int, y: int)
    ensures Wrap(Wrap(x) + y) == Wrap(x + y)
  {
  }

  /** A gap that is the distance still missing brings the position to the wanted one. */
  lemma GapLands(pos: Word, start: Word, address: Word, vaddr: Word, gap: int)
    requires gap == Wrap(address - vaddr) - Wrap(pos - start)
    ensures Wrap(Wrap(pos + gap) - start) == Wrap(address - vaddr)
  {
    WrapSum(pos + gap, -(start as int));
    WrapSum(pos - start, gap);
  }

  lemma NamedLands(pos: Word, start: Word, vaddr: Word)
    ensures Wrap(Wrap(vaddr + pos - start) - vaddr) == Wrap(pos - start)
  {
    WrapSum(vaddr + pos - start, -(vaddr as int));
  }

  lemma GeneratedAt(c: Cursor, start: Word, seg: Segment, k: nat, gap: Word)
    requires Sized(c, |c.secs|) && 0 < k < |c.secs|
    ensures var s, t := c.secs[k], Generate(c, start, seg, k, gap).secs[k]; var at := Wrap(c.pos + gap);
      t.offset == at && t.address == if s.addressSet then s.address else Wrap(seg.vaddr + at - start)
  {
  }

  lemma MissingGap(o: Open, seg: Segment, k: nat)
    requires Sized(o.c, |o.c.secs|) && k < |o.c.secs| && !o.c.gen[k] && Addressed(o.c.secs[k]) && Gap(o, seg, k).Some?
    ensures var s := o.c.secs[k];
      s.addressSet ==> Gap(o, seg, k).value == Wrap(s.address - seg.vaddr) - Wrap(o.c.pos - o.start)
  {
  }

  lemma GenerateCongruent(o: Open, seg: Segment, k: nat)
    requires Sized(o.c, |o.c.secs|) && 0 < k < |o.c.secs| && !o.c.gen[k] && Addressed(o.c.secs[k])
    requires Gap(o, seg, k).Some?
    ensures Congruent(Generate(o.c, o.start, seg, k, Gap(o, seg, k).value).secs[k], seg.vaddr, o.start)
  {
    MissingGap(o, seg, k);
    GapCongruent(o.c, o.start, seg, k, Gap(o, seg, k).value);
  }

  lemma GapCongruent(c: Cursor, start: Word, seg: Segment, k: nat, gap: Word)
    requires Sized(c, |c.secs|) && 0 < k < |c.secs|
    requires c.secs[k].addressSet ==> gap == Wrap(c.secs[k].address - seg.vaddr) - Wrap(c.pos - start)
    ensures Congruent(Generate(c, start, seg, k, gap).secs[k], seg.vaddr, start)
  {
    GeneratedAt(c, start, seg, k, gap);
    if c.secs[k].addressSet {
      GapLands(c.pos, start, c.secs[k].address, seg.vaddr, gap);
    } else {
      NamedLands(Wrap(c.pos + gap), start, seg.vaddr);
    }
  }

  lemma PlaceCongruent(o: Open, seg: Segment, k: nat)
    requires Sized(o.c, |o.c.secs|) && 0 < k < |o.c.secs| && !o.c.gen[k] && Addressed(o.c.secs[k])
    requires Place(o, seg, k).Some?
    ensures Congruent(Place(o, seg, k).value.c.secs[k], seg.vaddr, o.start)
  {
    GenerateCongruent(o, seg, k);
  }

  lemma {:induction false} PlaceAllCongruent(o: Open, seg: Segment, ks: seq<nat>, k: nat)
    requires Sized(o.c, |o.c.secs|) && AllBelow(ks, |o.c.secs|) && PlaceAll(o, seg, ks).Some?
    requires k in ks && 0 < k < |o.c.secs| && !o.c.gen[k] && Addressed(o.c.secs[k])
    ensures Congruent(PlaceAll(o, seg, ks).value.c.secs[k], seg.vaddr, o.start)
    decreases |ks|
  {
    var init, last := ks[..|ks| - 1], ks[|ks| - 1];
    var p := PlaceAll(o, seg, init).value;
    PlaceAllExtends(o, seg, init);
    PlaceExtends(p, seg, last);
    assert Kept(o.c, p.c, k) && Kept(p.c, Place(p, seg, last).value.c, k);
    if k in init {
      PlaceAllCongruent(o, seg, init, k);
    } else {
      assert k == last;
      PlaceCongruent(p, seg, k);
    }
  }

  /** In a file laid out, each section whose offset the engine ties to an address is congruent
      with the first segment, in the order taken, that holds it. */
  lemma {:induction false} SectionsCongruent(l: Layout, order: seq<nat>, tableOffset: Word, tableSize: Word, a: nat,
    k: nat)
    requires Ok(l) && InRange(l.segs, order) && LaySegments(l, order, tableOffset, tableSize).Some?
    requires forall i, j | 0 <= i < j < |order| :: order[i] != order[j]
    requires a < |order| && k in l.segs[order[a]].sections && !InSome(l.segs, order[..a], k)
    requires 0 < k < |l.c.secs| && !l.c.gen[k] && Addressed(l.c.secs[k])
    ensures var m := LaySegments(l, order, tableOffset, tableSize).value;
      && m.segs[order[a]].vaddr == l.segs[order[a]].vaddr
      && Congruent(m.c.secs[k], m.segs[order[a]].vaddr, m.segs[order[a]].offset)
    decreases |order|
  {
    var init, last := order[..|order| - 1], order[|order| - 1];
    var p := LaySegments(l, init, tableOffset, tableSize).value;
    LaySegmentsTidy(l, init, tableOffset, tableSize, 0);
    LaySegmentTidy(p, last, tableOffset, tableSize, 0);
    assert Kept(l.c, p.c, k) && Kept(p.c, LaySegment(p, last, tableOffset, tableSize).value.c, k);
    if a < |init| {
      assert init[..a] == order[..a];
      SectionsCongruent(l, init, tableOffset, tableSize, a, k);
      assert k in l.segs[init[a]].sections;
    } else {
      assert init == order[..a];
      SegmentUntouched(l, init, tableOffset, tableSize, last);
      PlaceAllCongruent(OpenSegment(p.c, p.segs[last], tableOffset, tableSize), p.segs[last], p.segs[last].sections, k);
    }
  }

  /** A segment not taken yet is as it was. */
  lemma {:induction false} SegmentUntouched(l: Layout, order: seq<nat>, tableOffset: Word, tableSize: Word, i: nat)
    requires Ok(l) && InRange(l.segs, order) && LaySegments(l, order, tableOffset, tableSize).Some?
    requires i < |l.segs| && i !in order
    ensures LaySegments(l, order, tableOffset, tableSize).value.segs[i] == l.segs[i]
    decreases |order|
  {
    if order != [] {
      SegmentUntouched(l, order[..|order| - 1], tableOffset, tableSize, i);
    }
  }

  lemma {:induction false} LayRestKeeps(c: Cursor, segs: seq<Segment>, n: nat, k: nat)
    requires n <= |c.secs| && k < |c.secs| && !Loose(segs, k)
    ensures LayRest(c, segs, n).secs[k] == c.secs[k]
  {
    if n > 0 {
      LayRestKeeps(c, segs, n - 1, k);
    }
  }

  /** The same of the finished file: the later passes leave the segments' sections alone. */
  lemma FileCongruent(l: Layout, order: seq<nat>, tableOffset: Word, tableSize: Word, a: nat, k: nat)
    requires Ok(l) && InRange(l.segs, order) && Permutes(order, |l.segs|)
    requires LayFile(l, order, tableOffset, tableSize).Some?
    requires a < |order| && k in l.segs[order[a]].sections && !InSome(l.segs, order[..a], k)
    requires 0 < k < |l.c.secs| && !l.c.gen[k] && Addressed(l.c.secs[k])
    ensures var f := LayFile(l, order, tableOffset, tableSize).value;
      Congruent(f.c.secs[k], l.segs[order[a]].vaddr, f.segs[order[a]].offset)
  {
    forall i, j | 0 <= i < j < |order|
      ensures order[i] != order[j]
    {
      PermutesDistinct(order, |l.segs|, i, j);
    }
    SectionsCongruent(l, order, tableOffset, tableSize, a, k);
    var m := LaySegments(l, order, tableOffset, tableSize).value;
    assert k in m.segs[order[a]].sections;
    LayRestKeeps(m.c, m.segs, |m.c.secs|, k);
  }

  /** The one case in which the wrap-around of the gap does not cancel out. */
  predicate GapOverflows(pos: Word, seg: Segment) {
    var a := AlignOf(seg);
    seg.vaddr % a >= pos % a && a + (seg.vaddr % a - pos % a) >= TWO64
  }

  lemma WrapTwice(a: Word, want: nat, have: nat)
    requires want < a && have < a
    ensures Wrap(a + Wrap(want - have)) ==
      if want < have || a + (want - have) < TWO64 then a + want - have else a + (want - have) - TWO64
  {
  }

  lemma StartGapIs(pos: Word, seg: Segment)
    requires seg.align > 0
    ensures var want, have := seg.vaddr % seg.align, pos % seg.align;
      StartGap(pos, seg) ==
        if want < have then seg.align + want - have
        else if seg.align + (want - have) < TWO64 then want - have
        else seg.align + (want - have) - TWO64
  {
    var a := seg.align;
    var want, have := seg.vaddr % a, pos % a;
    WrapTwice(a, want, have);
    if want < have {
      DivModUnique(a + want - have, a, 0, a + want - have);
    } else if a + (want - have) < TWO64 {
      DivModUnique(a + want - have, a, 1, want - have);
    } else {
      DivModUnique(a + (want - have) - TWO64, a, 0, a + (want - have) - TWO64);
    }
  }

  /** A segment with new sections starts within one alignment of the position, at one congruent to
      its address modulo its alignment exactly unless the gap overflows; it never does for an
      alignment up to 2^63, power of two or not. */
  lemma StartAligned(pos: Word, seg: Segment)
    ensures StartGap(pos, seg) < AlignOf(seg)
    ensures (pos + StartGap(pos, seg)) % AlignOf(seg) == seg.vaddr % AlignOf(seg) <==> !GapOverflows(pos, seg)
    ensures seg.align <= TWO64 / 2 ==> !GapOverflows(pos, seg)
  {
    if seg.align == 0 {
      assert pos % 1 == 0 && seg.vaddr % 1 == 0 && (pos + StartGap(pos, seg)) % 1 == 0;
    } else {
      StartGapIs(pos, seg);
      GapAhead(pos, seg.align, StartGap(pos, seg));
    }
  }

  /** Where a gap below one alignment leads, by remainders. */
  lemma GapAhead(pos: nat, a: nat, gap: nat)
    requires gap < a
    ensures (pos + gap) % a == if pos % a + gap < a then pos % a + gap else pos % a + gap - a
  {
    assert pos == pos / a * a + pos % a;
    if pos % a + gap < a {
      DivModUnique(pos + gap, a, pos / a, pos % a + gap);
    } else {
      DivModUnique(pos + gap, a, pos / a + 1, pos % a + gap - a);
    }
  }

  // ----- the validator -----

  /** For sections that end below 2^64, the validator's four tests are interval overlap. */
  lemma ClashIsOverlap(a: Section, b: Section)
    requires a.offset + a.size < TWO64 && b.offset + b.size < TWO64
    ensures Clash(a, b) <==>
      Considered(a) && Considered(b) && !(a.offset + a.size <= b.offset || b.offset + b.size <= a.offset)
  {
  }

  /** So an overlap of two sections with bytes in the file is reported exactly when neither type
      has the NOBITS bit set and neither offset is zero. */
  lemma ReportedExactly(a: Section, b: Section)
    requires a.offset + a.size < TWO64 && b.offset + b.size < TWO64 && Occupies(a) && Occupies(b) && !Disjoint(a, b)
    ensures Clash(a, b) <==>
      !HasFlag(a.typ, SHT_NOBITS) && !HasFlag(b.typ, SHT_NOBITS) && a.offset > 0 && b.offset > 0
  {
    ClashIsOverlap(a, b);
  }

  const SHT_DYNSYM := 11

  /** Two dynamic symbol tables in the same place overlap, and the validator does not say so. */
  lemma ValidatorMisses()
    ensures var s := Section(SHT_DYNSYM, 0, 16, 1, 0, false, 64);
      Occupies(s) && !Disjoint(s, s) && !Clash(s, s)
  {
    assert HasFlag(SHT_DYNSYM, SHT_NOBITS);
  }

  predicate NullsEmpty(secs: seq<Section>) {
    forall k | 0 <= k < |secs| :: secs[k].typ == SHT_NULL ==> secs[k].size == 0
  }

  /** After a clean layout the validator has nothing to report. */
  lemma CleanValidates(before: Layout, after: Layout, i: nat, j: nat)
    requires Clean(before, after) && NullsEmpty(before.c.secs) && i < |after.c.secs| && j < |after.c.secs| && i != j
    ensures !Clash(after.c.secs[i], after.c.secs[j])
  {
    var a, b := after.c.secs[i], after.c.secs[j];
    assert SameShape(before.c.secs[i], a) && SameShape(before.c.secs[j], b);
    if Considered(a) && Considered(b) {
      assert HasFlag(SHT_NOBITS, SHT_NOBITS);
      assert Occupies(a) && Occupies(b);
      assert Within(a, before.c.pos, after.c.pos) && Within(b, before.c.pos, after.c.pos) && Disjoint(a, b);
      ClashIsOverlap(a, b);
    }
  }
}
