/** Where the layout engine puts an ELF file's sections: segment by segment, then the sections
    in no segment, then the section table.

    Positions are 64-bit words that wrap around. A Cursor also records whether an addition to
    the position ever did: the overlap theorem is about layouts where none did. */
module ElfLayout {
  import opened Words
  import opened ElfOrder

  const SHT_NULL := 0
  const SHT_NOBITS := 8
  const PT_PHDR := 6
  const PT_TLS := 7
  const SHF_ALLOC := 0x2
  const SHF_TLS := 0x400

  datatype Section = Section(typ: nat, flags: nat, size: Word, addrAlign: Word,
                             address: Word, addressSet: bool, offset: Word)

  predicate HasFlag(flags: nat, weight: nat)
    requires weight > 0
  {
    flags / weight % 2 == 1
  }

  /** Sections, which of them have been generated, and the current file position. */
  datatype Cursor = Cursor(secs: seq<Section>, gen: seq<bool>, pos: Word, wrapped: bool)

  predicate Sized(c: Cursor, n: nat) {
    |c.secs| == n && |c.gen| == n
  }

  predicate InFile(segs: seq<Segment>, n: nat) {
    forall i | 0 <= i < |segs| :: SectionsInFile(segs[i], n)
  }

  predicate SectionsInFile(seg: Segment, n: nat) {
    AllBelow(seg.sections, n)
  }

  predicate AllBelow(ks: seq<nat>, n: nat) {
    forall j | 0 <= j < |ks| :: ks[j] < n
  }

  function Advance(c: Cursor, gap: Word): Cursor {
    c.(pos := Wrap(c.pos + gap), wrapped := c.wrapped || c.pos + gap >= TWO64)
  }

  /** The position right after a section, if it has bytes in the file. */
  function FileBytes(s: Section): Word {
    if s.typ != SHT_NOBITS && s.typ != SHT_NULL then s.size else 0
  }

  /** Section 0 never gets an offset. */
  function Put(c: Cursor, k: nat): (r: Cursor)
    requires k < |c.secs|
    ensures |r.secs| == |c.secs| && r.gen == c.gen
  {
    var s := c.secs[k];
    Advance(c.(secs := c.secs[k := if k != 0 then s.(offset := c.pos) else s]), FileBytes(s))
  }

  // ----- the alignment of a segment -----

  /** The largest of a segment's own alignment and those of the listed sections. */
  function MaxAlign(secs: seq<Section>, ks: seq<nat>, own: Word): (a: Word)
    requires AllBelow(ks, |secs|)
    ensures own <= a && forall j | 0 <= j < |ks| :: secs[ks[j]].addrAlign <= a
    ensures a == own || exists j :: 0 <= j < |ks| && secs[ks[j]].addrAlign == a
  {
    if ks == [] then own else
      var a := MaxAlign(secs, ks[..|ks| - 1], own);
      var k := ks[|ks| - 1];
      if secs[k].addrAlign > a then secs[k].addrAlign else a
  }

  function AlignAll(secs: seq<Section>, segs: seq<Segment>): (r: seq<Segment>)
    requires InFile(segs, |secs|)
    ensures |r| == |segs| && InFile(r, |secs|)
  {
    seq(|segs|, i requires 0 <= i < |segs| =>
      segs[i].(align := MaxAlign(secs, segs[i].sections, segs[i].align)))
  }

  // ----- the sections of a segment -----

  /** A segment under construction. */
  datatype Open = Open(c: Cursor, start: Word, fileSize: Word, memSize: Word)

  function AlignOf(seg: Segment): Word {
    if seg.align > 0 then seg.align else 1
  }

  /** The gap that brings the position to the segment's address, modulo its alignment. */
  function StartGap(pos: Word, seg: Segment): Word {
    var error := Wrap(seg.vaddr % AlignOf(seg) - pos % AlignOf(seg));
    Wrap(seg.align + error) % AlignOf(seg)
  }

  /** tableOffset and tableSize locate the segment table itself. */
  function OpenSegment(c: Cursor, seg: Segment, tableOffset: Word, tableSize: Word): (o: Open)
    requires Sized(c, |c.secs|) && SectionsInFile(seg, |c.secs|)
    ensures o.c.secs == c.secs && o.c.gen == c.gen
  {
    var ks := seg.sections;
    if seg.typ == PT_PHDR && ks == [] then Open(c, tableOffset, tableSize, tableSize)
    else if |ks| > 1 && c.secs[ks[0]].typ == SHT_NULL then Open(c, 0, c.pos, c.pos)
    else if ks != [] && !c.gen[ks[0]] then
      var d := Advance(c, StartGap(c.pos, seg));
      Open(d, d.pos, 0, 0)
    else if ks != [] then Open(c, c.secs[ks[0]].offset, 0, 0)
    else Open(c, c.pos, 0, 0)
  }

  /** The padding before a section; None where the section's address lies behind the position. */
  function Gap(o: Open, seg: Segment, k: nat): Option<Word>
    requires Sized(o.c, |o.c.secs|) && k < |o.c.secs|
  {
    var s := o.c.secs[k];
    if o.c.gen[k] then Some(Wrap(s.offset - o.start - o.fileSize))
    else if s.addressSet && s.typ != SHT_NOBITS && s.size != 0 then
      var req, cur := Wrap(s.address - seg.vaddr), Wrap(o.c.pos - o.start);
      if req < cur then None else Some(req - cur)
    else if !s.addressSet then
      var align: Word := if s.addrAlign == 0 then 1 else s.addrAlign;
      Some((align - o.c.pos % align) % align)
    else Some(0)
  }

  /** Generates one section, at the position after its padding, with an address if it had none. */
  function Generate(c: Cursor, start: Word, seg: Segment, k: nat, gap: Word): (r: Cursor)
    requires Sized(c, |c.secs|) && k < |c.secs|
    ensures Sized(r, |c.secs|)
  {
    var d := Advance(c, gap);
    var s := d.secs[k];
    var named := if s.addressSet then s else s.(address := Wrap(seg.vaddr + d.pos - start), addressSet := true);
    var e := Put(d.(secs := d.secs[k := named]), k);
    e.(gen := e.gen[k := true])
  }

  predicate InMemory(s: Section, seg: Segment) {
    HasFlag(s.flags, SHF_ALLOC) && !(HasFlag(s.flags, SHF_TLS) && seg.typ != PT_TLS && s.typ == SHT_NOBITS)
  }

  function Place(o: Open, seg: Segment, k: nat): (r: Option<Open>)
    requires Sized(o.c, |o.c.secs|) && k < |o.c.secs|
    ensures r.Some? ==> Sized(r.value.c, |o.c.secs|) && r.value.start == o.start
  {
    var s := o.c.secs[k];
    if s.typ == SHT_NULL then Some(o.(c := o.c.(gen := o.c.gen[k := true]))) else
      match Gap(o, seg, k)
      case None => None
      case Some(gap) =>
        Some(Open(if o.c.gen[k] then o.c else Generate(o.c, o.start, seg, k, gap), o.start,
                  if s.typ != SHT_NOBITS then Wrap(o.fileSize + s.size + gap) else o.fileSize,
                  if InMemory(s, seg) then Wrap(o.memSize + s.size + gap) else o.memSize))
  }

  function PlaceAll(o: Open, seg: Segment, ks: seq<nat>): (r: Option<Open>)
    requires Sized(o.c, |o.c.secs|) && AllBelow(ks, |o.c.secs|)
    ensures r.Some? ==> Sized(r.value.c, |o.c.secs|) && r.value.start == o.start
  {
    if ks == [] then Some(o) else
      match PlaceAll(o, seg, ks[..|ks| - 1])
      case None => None
      case Some(p) => Place(p, seg, ks[|ks| - 1])
  }

  // ----- the file -----

  /** A memory size read from a file never shrinks. */
  function CloseSegment(seg: Segment, o: Open): Segment {
    seg.(fileSize := o.fileSize, memSize := if seg.memSize < o.memSize then o.memSize else seg.memSize,
         offset := o.start, offsetSet := true)
  }

  datatype Layout = Layout(c: Cursor, segs: seq<Segment>)

  predicate Ok(l: Layout) {
    Sized(l.c, |l.c.secs|) && InFile(l.segs, |l.c.secs|)
  }

  function LaySegment(l: Layout, i: nat, tableOffset: Word, tableSize: Word): (r: Option<Layout>)
    requires Ok(l) && i < |l.segs|
    ensures r.Some? ==> Ok(r.value) && |r.value.segs| == |l.segs| && |r.value.c.secs| == |l.c.secs|
    ensures r.Some? ==> forall j | 0 <= j < |l.segs| :: r.value.segs[j].sections == l.segs[j].sections
  {
    var seg := l.segs[i];
    match PlaceAll(OpenSegment(l.c, seg, tableOffset, tableSize), seg, seg.sections)
    case None => None
    case Some(o) => Some(Layout(o.c, l.segs[i := CloseSegment(seg, o)]))
  }

  function LaySegments(l: Layout, order: seq<nat>, tableOffset: Word, tableSize: Word): (r: Option<Layout>)
    requires Ok(l) && InRange(l.segs, order)
    ensures r.Some? ==> Ok(r.value) && |r.value.segs| == |l.segs| && |r.value.c.secs| == |l.c.secs|
    ensures r.Some? ==> forall j | 0 <= j < |l.segs| :: r.value.segs[j].sections == l.segs[j].sections
  {
    if order == [] then Some(l) else
      match LaySegments(l, order[..|order| - 1], tableOffset, tableSize)
      case None => None
      case Some(m) => LaySegment(m, order[|order| - 1], tableOffset, tableSize)
  }

  predicate Loose(segs: seq<Segment>, k: nat) {
    forall i | 0 <= i < |segs| :: k !in segs[i].sections
  }

  function LooseGap(pos: Word, align: Word): Word {
    if align > 1 && pos % align != 0 then align - pos % align else 0
  }

  /** A section in no segment goes to the next position that suits its alignment. */
  function LayLoose(c: Cursor, k: nat): (r: Cursor)
    requires k < |c.secs|
    ensures |r.secs| == |c.secs| && r.gen == c.gen
  {
    Put(Advance(c, LooseGap(c.pos, c.secs[k].addrAlign)), k)
  }

  /** The first n sections looked at. */
  function LayRest(c: Cursor, segs: seq<Segment>, n: nat): (r: Cursor)
    requires n <= |c.secs|
    ensures |r.secs| == |c.secs| && r.gen == c.gen
  {
    if n == 0 then c else
      var d := LayRest(c, segs, n - 1);
      if Loose(segs, n - 1) then LayLoose(d, n - 1) else d
  }

  /** The section table goes to the next multiple of four. */
  function TableGap(pos: Word): Word {
    (4 - pos % 4) % 4
  }

  /** The passes after the segments: the other sections, then the section table. */
  function FinishFile(m: Layout): (r: Layout)
    ensures |r.c.secs| == |m.c.secs| && r.segs == m.segs
  {
    var c := LayRest(m.c, m.segs, |m.c.secs|);
    Layout(Advance(c, TableGap(c.pos)), m.segs)
  }

  /** The three passes in the order a file is saved; None where the first one fails. */
  function LayFile(l: Layout, order: seq<nat>, tableOffset: Word, tableSize: Word): (r: Option<Layout>)
    requires Ok(l) && InRange(l.segs, order)
    ensures r.Some? ==> |r.value.c.secs| == |l.c.secs| && |r.value.segs| == |l.segs|
  {
    match LaySegments(l, order, tableOffset, tableSize)
    case None => None
    case Some(m) => Some(FinishFile(m))
  }

  // ----- the validator -----

  predicate Considered(s: Section) {
    !HasFlag(s.typ, SHT_NOBITS) && s.size > 0 && s.offset > 0
  }

  predicate OffsetIn(offset: Word, s: Section) {
    s.offset <= offset < Wrap(s.offset + s.size)
  }

  predicate Clash(a: Section, b: Section) {
    && Considered(a) && Considered(b)
    && (|| OffsetIn(a.offset, b) || OffsetIn(Wrap(a.offset + a.size - 1), b)
        || OffsetIn(b.offset, a) || OffsetIn(Wrap(b.offset + b.size - 1), a))
  }
}
