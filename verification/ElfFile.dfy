/** The ELF file object whose layout passes move the file position and set offsets in place,
    each pass proved to be its function in ElfLayout. */
module ElfFile {
  import opened Words
  import opened ElfOrder
  import opened ElfLayout
  import Laws = ElfLayoutLaws

  class ElfFile {
    const tableOffset: Word
    const tableSize: Word
    var sections: seq<Section>
    var segments: seq<Segment>
    var currentFilePos: Word
    var sectionsOffset: Word
    /** Whether the position ever passed 2^64. */
    ghost var wrapped: bool

    ghost function At(gen: seq<bool>): Cursor
      reads this
    {
      Cursor(sections, gen, currentFilePos, wrapped)
    }

    constructor (sections: seq<Section>, segments: seq<Segment>, headerSize: Word, tableOffset: Word, tableSize: Word)
      requires headerSize + tableSize < TWO64
      ensures this.sections == sections && this.segments == segments && !wrapped
      ensures currentFilePos == headerSize + tableSize
      ensures this.tableOffset == tableOffset && this.tableSize == tableSize
    {
      this.sections, this.segments, this.tableOffset, this.tableSize := sections, segments, tableOffset, tableSize;
      currentFilePos, sectionsOffset, wrapped := headerSize + tableSize, 0, false;
    }

    method Move(gap: Word, ghost gen: seq<bool>)
      modifies `currentFilePos, `wrapped
      ensures At(gen) == Advance(old(At(gen)), gap)
    {
      wrapped := wrapped || currentFilePos + gap >= TWO64;
      currentFilePos := Wrap(currentFilePos + gap);
    }

    /** Raises each segment's alignment to the largest of its sections'. */
    method CalcSegmentAlignment()
      requires InFile(segments, |sections|)
      modifies `segments
      ensures segments == AlignAll(sections, old(segments))
    {
      ghost var was := segments;
      for i := 0 to |segments|
        invariant |segments| == |was|
        invariant forall h | 0 <= h < |was| :: segments[h] == if h < i then AlignAll(sections, was)[h] else was[h]
      {
        var ks := segments[i].sections;
        var align: Word := segments[i].align;
        for j := 0 to |ks|
          invariant AllBelow(ks, |sections|) && align == MaxAlign(sections, ks[..j], segments[i].align)
        {
          assert ks[..j + 1][..j] == ks[..j];
          if sections[ks[j]].addrAlign > align {
            align := sections[ks[j]].addrAlign;
          }
        }
        assert ks[..|ks|] == ks;
        segments := segments[i := segments[i].(align := align)];
      }
      assert segments == AlignAll(sections, was);
    }

    /** The padding before a section that is not yet generated, or what separates one that is. */
    method Padding(seg: Segment, start: Word, fileSize: Word, k: nat, generated: array<bool>)
      returns (gap: Option<Word>)
      requires k < |sections| == generated.Length
      ensures gap == Gap(Open(At(generated[..]), start, fileSize, 0), seg, k)
    {
      var sec := sections[k];
      if !generated[k] && sec.addressSet && sec.typ != SHT_NOBITS && sec.size != 0 {
        var reqOffset := Wrap(sec.address - seg.vaddr);
        var curOffset := Wrap(currentFilePos - start);
        if reqOffset < curOffset {
          return None;
        }
        return Some(reqOffset - curOffset);
      } else if !generated[k] && !sec.addressSet {
        var align: Word := sec.addrAlign;
        if align == 0 {
          align := 1;
        }
        var error := currentFilePos % align;
        return Some((align - error) % align);
      } else if generated[k] {
        return Some(Wrap(sec.offset - start - fileSize));
      }
      return Some(0);
    }

    /** The section gets the current position, unless it is the first, and its bytes follow. */
    method PutSection(k: nat, ghost gen: seq<bool>)
      requires k < |sections|
      modifies `sections, `currentFilePos, `wrapped
      ensures At(gen) == Put(old(At(gen)), k)
    {
      var sec := sections[k];
      if k != 0 {
        sections := sections[k := sec.(offset := currentFilePos)];
      }
      if sec.typ != SHT_NOBITS && sec.typ != SHT_NULL {
        Move(sec.size, gen);
      }
    }

    method GenerateSection(seg: Segment, start: Word, gap: Word, k: nat, generated: array<bool>)
      requires k < |sections| == generated.Length
      modifies `sections, `currentFilePos, `wrapped, generated
      ensures At(generated[..]) == Generate(old(At(generated[..])), start, seg, k, gap)
    {
      ghost var gen := generated[..];
      Move(gap, gen);
      var sec := sections[k];
      if !sec.addressSet {
        sections := sections[k := sec.(address := Wrap(seg.vaddr + currentFilePos - start), addressSet := true)];
      } else {
        assert sections[k := sec] == sections;
      }
      PutSection(k, gen);
      generated[k] := true;
    }

    /** One section of the segment under construction. */
    method PlaceSection(seg: Segment, start: Word, fileSize: Word, memSize: Word, k: nat, generated: array<bool>)
      returns (ok: bool, fileSize': Word, memSize': Word)
      requires k < |sections| == generated.Length
      modifies `sections, `currentFilePos, `wrapped, generated
      ensures |sections| == generated.Length
      ensures var p := Place(Open(old(At(generated[..])), start, fileSize, memSize), seg, k);
        ok == p.Some? && (ok ==> p.value == Open(At(generated[..]), start, fileSize', memSize'))
    {
      ok, fileSize', memSize' := true, fileSize, memSize;
      var sec := sections[k];
      if sec.typ == SHT_NULL {
        generated[k] := true;
        return;
      }
      var gap := Padding(seg, start, fileSize, k, generated);
      if gap.None? {
        ok := false;
        return;
      }
      if InMemory(sec, seg) {
        memSize' := Wrap(memSize' + sec.size + gap.value);
      }
      if sec.typ != SHT_NOBITS {
        fileSize' := Wrap(fileSize' + sec.size + gap.value);
      }
      if generated[k] {
        return;
      }
      GenerateSection(seg, start, gap.value, k, generated);
    }

    /** Where the segment starts, by the engine's special cases. */
    method StartSegment(seg: Segment, generated: array<bool>) returns (start: Word, fileSize: Word, memSize: Word)
      requires |sections| == generated.Length && SectionsInFile(seg, |sections|)
      modifies `currentFilePos, `wrapped
      ensures Open(At(generated[..]), start, fileSize, memSize)
        == OpenSegment(old(At(generated[..])), seg, tableOffset, tableSize)
    {
      start, fileSize, memSize := currentFilePos, 0, 0;
      if seg.typ == PT_PHDR && |seg.sections| == 0 {
        start, fileSize, memSize := tableOffset, tableSize, tableSize;
      } else if |seg.sections| > 1 && sections[seg.sections[0]].typ == SHT_NULL {
        start, fileSize, memSize := 0, currentFilePos, currentFilePos;
      } else if |seg.sections| > 0 && !generated[seg.sections[0]] {
        var align: Word := if seg.align > 0 then seg.align else 1;
        var error := Wrap(seg.vaddr % align - currentFilePos % align);
        Move(Wrap(seg.align + error) % align, generated[..]);
        start := currentFilePos;
      } else if |seg.sections| > 0 {
        start := sections[seg.sections[0]].offset;
      }
    }

    method LayoutSegment(i: nat, generated: array<bool>) returns (ok: bool)
      requires i < |segments| && |sections| == generated.Length && InFile(segments, |sections|)
      modifies `sections, `segments, `currentFilePos, `wrapped, generated
      ensures var r := LaySegment(Layout(old(At(generated[..])), old(segments)), i, tableOffset, tableSize);
        ok == r.Some? && (ok ==> r.value == Layout(At(generated[..]), segments))
    {
      var seg := segments[i];
      ghost var ks := seg.sections;
      var start: Word, fileSize: Word, memSize: Word := StartSegment(seg, generated);
      ghost var o := Open(At(generated[..]), start, fileSize, memSize);
      assert ks[..|ks|] == ks;
      for j := 0 to |seg.sections|
        invariant |sections| == generated.Length == |o.c.secs| && segments == old(segments)
        invariant AllBelow(ks[..j], |sections|)
        invariant PlaceAll(o, seg, ks[..j]) == Some(Open(At(generated[..]), start, fileSize, memSize))
      {
        assert ks[..j + 1][..j] == ks[..j];
        ok, fileSize, memSize := PlaceSection(seg, start, fileSize, memSize, seg.sections[j], generated);
        if !ok {
          StopsAt(o, seg, ks, j + 1);
          return;
        }
      }
      segments := segments[i := seg.(fileSize := fileSize,
                                     memSize := if seg.memSize < memSize then memSize else seg.memSize,
                                     offset := start, offsetSet := true)];
      return true;
    }

    /** All segments, in an order the worklist finds. */
    method LayoutSegments(generated: array<bool>) returns (ok: bool, ghost order: seq<nat>)
      requires |sections| == generated.Length && InFile(segments, |sections|)
      modifies `sections, `segments, `currentFilePos, `wrapped, generated
      ensures Permutes(order, |old(segments)|) && InRange(old(segments), order) && Ordered(old(segments), order)
      ensures var r := LaySegments(Layout(old(At(generated[..])), old(segments)), order, tableOffset, tableSize);
        ok == r.Some? && (ok ==> r.value == Layout(At(generated[..]), segments))
    {
      var worklist := GetOrderedSegments(segments);
      order := worklist;
      ghost var l := Layout(At(generated[..]), segments);
      assert worklist[..|worklist|] == worklist;
      for i := 0 to |worklist|
        invariant |sections| == generated.Length && |segments| == |old(segments)|
        invariant LaySegments(l, order[..i], tableOffset, tableSize) == Some(Layout(At(generated[..]), segments))
      {
        assert order[..i + 1][..i] == order[..i];
        ok := LayoutSegment(worklist[i], generated);
        if !ok {
          LayingStopsAt(l, order, tableOffset, tableSize, i + 1);
          return;
        }
      }
      return true, order;
    }

    method IsSectionWithoutSegment(k: nat) returns (b: bool)
      ensures b <==> Loose(segments, k)
    {
      for j := 0 to |segments|
        invariant Loose(segments[..j], k)
      {
        var ks := segments[j].sections;
        for i := 0 to |ks|
          invariant k !in ks[..i]
        {
          if ks[i] == k {
            assert k in segments[j].sections;
            return false;
          }
        }
        assert ks[..|ks|] == ks;
      }
      assert segments[..|segments|] == segments;
      return true;
    }

    method LayoutLooseSection(i: nat, ghost gen: seq<bool>)
      requires i < |sections|
      modifies `sections, `currentFilePos, `wrapped
      ensures At(gen) == LayLoose(old(At(gen)), i)
    {
      var align := sections[i].addrAlign;
      if align > 1 && currentFilePos % align != 0 {
        Move(align - currentFilePos % align, gen);
      } else {
        assert At(gen) == Advance(At(gen), LooseGap(currentFilePos, align));
      }
      PutSection(i, gen);
    }

    method LayoutSectionsWithoutSegments(ghost gen: seq<bool>)
      modifies `sections, `currentFilePos, `wrapped
      ensures At(gen) == LayRest(old(At(gen)), segments, |old(sections)|)
    {
      for i := 0 to |sections|
        invariant |sections| == |old(sections)| && At(gen) == LayRest(old(At(gen)), segments, i)
      {
        var without := IsSectionWithoutSegment(i);
        if without {
          LayoutLooseSection(i, gen);
        }
      }
    }

    method LayoutSectionTable(ghost gen: seq<bool>)
      modifies `currentFilePos, `wrapped, `sectionsOffset
      ensures At(gen) == Advance(old(At(gen)), TableGap(old(currentFilePos))) && sectionsOffset == currentFilePos
    {
      Move((4 - currentFilePos % 4) % 4, gen);
      sectionsOffset := currentFilePos;
    }

    function NoneGenerated(): seq<bool>
      reads `sections
    {
      seq(|sections|, _ => false)
    }

    /** Alignment and the passes together. If the first one does not fail and the position never wraps, the
        sections with bytes in the file do not overlap, and lie between the segment table and
        the section table, provided section 0 is the null section. */
    method LayoutFile() returns (ok: bool, ghost order: seq<nat>)
      requires InFile(segments, |sections|) && !wrapped
      modifies `sections, `segments, `currentFilePos, `wrapped, `sectionsOffset
      ensures var segs := AlignAll(old(sections), old(segments));
        && Permutes(order, |segs|) && InRange(segs, order) && Ordered(segs, order)
      ensures var segs := AlignAll(old(sections), old(segments));
        var r := LayFile(Layout(old(At(NoneGenerated())), segs), order, tableOffset, tableSize);
        && ok == r.Some?
        && (ok ==> r.value == Layout(At(r.value.c.gen), segments) && sectionsOffset == currentFilePos)
      ensures ok && !wrapped && Laws.NullFirst(old(sections)) ==>
        && Laws.ShapesKept(old(sections), sections) && sectionsOffset % 4 == 0
        && Laws.OverlapFree(sections, old(currentFilePos), sectionsOffset)
      ensures ok && !wrapped && Laws.NullFirst(old(sections)) && Laws.NullsEmpty(old(sections)) ==>
        forall i, j | 0 <= i < j < |sections| :: !Clash(sections[i], sections[j])
    {
      CalcSegmentAlignment();
      var generated := new bool[|sections|](_ => false);
      assert generated[..] == NoneGenerated();
      ghost var l := Layout(At(generated[..]), segments);
      ok, order := LayoutSegments(generated);
      if ok {
        LayoutSectionsWithoutSegments(generated[..]);
        LayoutSectionTable(generated[..]);
        ghost var f := Layout(At(generated[..]), segments);
        assert LayFile(l, order, tableOffset, tableSize) == Some(f);
        if !wrapped && Laws.NullFirst(old(sections)) {
          Laws.LayoutIsClean(l, order, tableOffset, tableSize);
          if Laws.NullsEmpty(old(sections)) {
            forall i, j | 0 <= i < j < |sections|
              ensures !Clash(sections[i], sections[j])
            {
              Laws.CleanValidates(l, f, i, j);
            }
          }
        }
      }
    }

    /** None for the empty string; otherwise the first pair it names. */
    method Validate() returns (r: Option<(nat, nat)>)
      ensures r.None? ==> forall i, j | 0 <= i < j < |sections| :: !Clash(sections[i], sections[j])
      ensures r.Some? ==>
        && r.value.0 < r.value.1 < |sections| && Clash(sections[r.value.0], sections[r.value.1])
        && (forall i, j | 0 <= i < r.value.0 && i < j < |sections| :: !Clash(sections[i], sections[j]))
        && (forall j | r.value.0 < j < r.value.1 :: !Clash(sections[r.value.0], sections[j]))
    {
      for i := 0 to |sections|
        invariant forall h, j | 0 <= h < i && h < j < |sections| :: !Clash(sections[h], sections[j])
      {
        for j := i + 1 to |sections|
          invariant forall h | i < h < j :: !Clash(sections[i], sections[h])
        {
          if Clash(sections[i], sections[j]) {
            return Some((i, j));
          }
        }
      }
      return None;
    }
  }

  /** A segment that fails at a section fails. */
  lemma {:induction false} StopsAt(o: Open, seg: Segment, ks: seq<nat>, j: nat)
    requires Sized(o.c, |o.c.secs|) && AllBelow(ks, |o.c.secs|) && j <= |ks| && PlaceAll(o, seg, ks[..j]).None?
    ensures PlaceAll(o, seg, ks).None?
    decreases |ks| - j
  {
    if j == |ks| {
      assert ks[..j] == ks;
    } else {
      assert ks[..j + 1][..j] == ks[..j];
      StopsAt(o, seg, ks, j + 1);
    }
  }

  lemma {:induction false} LayingStopsAt(l: Layout, order: seq<nat>, tableOffset: Word, tableSize: Word, j: nat)
    requires Ok(l) && InRange(l.segs, order) && j <= |order| && LaySegments(l, order[..j], tableOffset, tableSize).None?
    ensures LaySegments(l, order, tableOffset, tableSize).None?
    decreases |order| - j
  {
    if j == |order| {
      assert order[..j] == order;
    } else {
      assert order[..j + 1][..j] == order[..j];
      LayingStopsAt(l, order, tableOffset, tableSize, j + 1);
    }
  }
}
