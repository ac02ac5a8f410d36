/** The growable buffer of a section and the note accessor over it, as objects. */
module ElfNoteObjects {
  import opened Words
  import opened ElfNotes

  /** A section's data: a buffer of dataSize bytes of which the first `size` are in use. A
      NOBITS section has no buffer. */
  class SectionData {
    const noBits: bool
    var data: array?<Byte>
    var dataSize: nat
    var size: nat

    ghost predicate Valid()
      reads this
    {
      && (noBits ==> data == null)
      && (!noBits ==> size <= dataSize && if data == null then dataSize == 0 else dataSize == data.Length)
    }

    function Contents(): seq<Byte>
      reads this, data
      requires Valid() && !noBits
    {
      if data == null then [] else data[..size]
    }

    constructor (noBits: bool)
      ensures Valid() && this.noBits == noBits && size == 0 && data == null
      ensures !noBits ==> Contents() == []
    {
      this.noBits, data, dataSize, size := noBits, null, 0, 0;
    }

    lemma SizeIsUsed()
      requires Valid() && !noBits
      ensures |Contents()| == size
    {
    }

    method CopyInto(raw: seq<Byte>, to: array<Byte>, at: nat)
      requires at + |raw| <= to.Length
      modifies to
      ensures to[..] == old(to[..at]) + raw + old(to[at + |raw|..])
    {
      for i := 0 to |raw|
        invariant to[..] == old(to[..at]) + raw[..i] + old(to[at + i..])
      {
        to[at + i] := raw[i];
      }
      assert raw[..|raw|] == raw;
    }

    method SetData(raw: seq<Byte>)
      requires Valid()
      modifies this, data
      ensures Valid() && size == |raw| && (!noBits ==> Contents() == raw && fresh(data))
    {
      if !noBits {
        var buffer := new Byte[|raw|](_ => 0);
        dataSize := |raw|;
        CopyInto(raw, buffer, 0);
        data := buffer;
      }
      size := |raw|;
    }

    /** Whether so many more bytes have a place: in the buffer, or in the capacity of the next one,
        which the program computes in 32 bits. */
    predicate Holds(more: nat)
      reads this
    {
      size + more < dataSize || size + more <= 2 * (dataSize + more) % TWO32
    }

    /** Up to 2^30 bytes that is never in question. */
    lemma HoldsBelow(more: nat)
      requires Valid() && !noBits && size + more < TWO32 / 4
      ensures Holds(more)
    {
    }

    /** When the next buffer is needed, it is large enough up to half of the 32-bit range, and from there
        on exactly if what remains of twice the bytes after wrapping around is. */
    lemma HoldsExact(more: nat)
      requires Valid() && !noBits && dataSize <= size + more && dataSize + more < 0x1_0000_0000
      ensures Holds(more) <==>
        dataSize + more < 0x8000_0000 || size + more <= 2 * (dataSize + more) - 0x1_0000_0000
    {
    }

    /** Appends in place while there is room to spare, and otherwise moves everything to a buffer
        twice the old capacity and the new bytes together, in 32 bits. */
    method AppendData(raw: seq<Byte>)
      requires Valid() && (!noBits ==> Holds(|raw|))
      modifies this, data
      ensures Valid() && (noBits ==> size == old(size))
      ensures !noBits ==> Contents() == old(Contents()) + raw && size == old(size) + |raw|
      ensures data == old(data) || fresh(data)
      ensures data == old(data) ==> dataSize == old(dataSize)
      ensures data != old(data) ==> dataSize == 2 * (old(dataSize) + |raw|) % TWO32
    {
      if !noBits {
        if size + |raw| < dataSize {
          ghost var before := data[..];
          CopyInto(raw, data, size);
          assert data[..size + |raw|] == before[..size] + raw;
        } else {
          var used := Contents();
          dataSize := 2 * (dataSize + |raw|) % TWO32;
          var buffer := new Byte[dataSize](_ => 0);
          CopyInto(used, buffer, 0);
          assert buffer[..size] == used;
          CopyInto(raw, buffer, size);
          assert buffer[..size + |raw|] == used + raw;
          data := buffer;
        }
        size := size + |raw|;
      }
    }
  }

  lemma {:induction false} FlatAppend(blocks: seq<seq<Byte>>, b: seq<Byte>)
    ensures Flat(blocks + [b]) == Flat(blocks) + b
    decreases |blocks|
  {
    if blocks == [] {
      assert blocks + [b] == [b];
    } else {
      assert (blocks + [b])[1..] == blocks[1..] + [b];
      FlatAppend(blocks[1..], b);
    }
  }

  lemma {:induction false} PositionsAppend(ds: seq<Stride>, d: Stride, at: nat, blocks: seq<seq<Byte>>)
    requires SizesMatch(blocks, ds)
    ensures Positions(ds + [d], at) == Positions(ds, at) + [at + |Flat(blocks)|]
    decreases |ds|
  {
    if ds == [] {
      assert ds + [d] == [d];
    } else {
      assert (ds + [d])[1..] == ds[1..] + [d];
      PositionsAppend(ds[1..], d, at + ds[0].size, blocks[1..]);
    }
  }

  lemma BlocksAppend(notes: seq<Added>, a: Added, big: bool)
    requires AllOk(notes) && AddedOk(a)
    ensures Blocks(notes + [a], big) == Blocks(notes, big) + [NoteBytes(a, big)]
  {
  }

  lemma StridesAppend(notes: seq<Added>, a: Added)
    ensures Strides(notes + [a]) == Strides(notes) + [StrideOf(a)]
  {
  }

  lemma StartsAppend(notes: seq<Added>, a: Added, big: bool)
    requires AllOk(notes)
    ensures Starts(notes + [a]) == Starts(notes) + [|Concat(notes, big)|]
  {
    StridesAppend(notes, a);
    SizesOfNotes(notes, big);
    PositionsAppend(Strides(notes), StrideOf(a), 0, Blocks(notes, big));
  }

  /** One more note: its bytes at the end of the section, its position the size before. */
  lemma OneMoreNote(notes: seq<Added>, a: Added, big: bool)
    requires AllOk(notes) && AddedOk(a)
    ensures Concat(notes + [a], big) == Concat(notes, big) + NoteBytes(a, big)
    ensures Starts(notes + [a]) == Starts(notes) + [|Concat(notes, big)|]
  {
    BlocksAppend(notes, a, big);
    FlatAppend(Blocks(notes, big), NoteBytes(a, big));
    StartsAppend(notes, a, big);
  }

  predicate Delivers(r: Outcome, a: Added) {
    r == Note(a.typ, a.name, Given(a))
  }

  /** The accessor: it parses the section once, then keeps its index up to date by itself. */
  class NoteSection {
    const big: bool
    const section: SectionData
    var positions: seq<nat>

    ghost predicate Valid()
      reads section
    {
      section.Valid() && !section.noBits
    }

    /** The section and the index are those of a sequence of additions to an empty section. */
    ghost predicate Tracks(notes: seq<Added>)
      reads this, section, section.data
      requires Valid()
    {
      AllOk(notes) && section.Contents() == Concat(notes, big) && positions == Starts(notes)
    }

    constructor (section: SectionData, big: bool)
      requires section.Valid() && !section.noBits
      ensures Valid() && this.section == section && this.big == big
      ensures positions == Parse(section.Contents(), big, 0)
    {
      this.section, this.big, positions := section, big, [];
      new;
      ProcessSection();
    }

    method ProcessSection()
      requires Valid()
      modifies this
      ensures positions == Parse(section.Contents(), big, 0)
    {
      positions := [];
      var data := section.Contents();
      if |data| == 0 {
        return;
      }
      positions := FindNotes(data);
    }

    method FindNotes(data: seq<Byte>) returns (found: seq<nat>)
      ensures found == Parse(data, big, 0)
    {
      found := [];
      var current := 0;
      while current + 12 <= |data|
        invariant found + Parse(data, big, current) == Parse(data, big, 0)
        decreases |data| - current
      {
        var nameSize, descSize := ReadWord(data, current, big), ReadWord(data, current + 4, big);
        ParseRound(data, big, current, nameSize, descSize);
        ghost var rest := Parse(data, big, After(current, nameSize, descSize));
        assert found + ([current] + rest) == (found + [current]) + rest;
        found := found + [current];
        current := current + 12 + Align4(nameSize) + Align4(descSize);
      }
    }

    method WriteNamed(a: Added) returns (buffer: seq<Byte>)
      requires AddedOk(a)
      ensures buffer == Header(a, big) + Named(a)
    {
      var nameLen := |a.name| + 1;
      buffer := Encode(nameLen, big);
      buffer := buffer + Encode(a.descSize, big);
      buffer := buffer + Encode(a.typ, big);
      ghost var header := buffer;
      buffer := buffer + a.name;
      buffer := buffer + [0];
      if nameLen % 4 != 0 {
        buffer := buffer + seq<Byte>(4 - nameLen % 4, _ => 0);
      }
      assert header == Header(a, big);
      assert buffer == header + (a.name + [0] + Padding(nameLen));
    }

    method WriteNote(a: Added) returns (buffer: seq<Byte>)
      requires AddedOk(a)
      ensures buffer == NoteBytes(a, big)
    {
      buffer := WriteNamed(a);
      ghost var named := buffer;
      if a.desc.Some? && a.descSize != 0 {
        buffer := buffer + a.desc.value;
        if a.descSize % 4 != 0 {
          buffer := buffer + seq<Byte>(4 - a.descSize % 4, _ => 0);
        }
      }
      assert buffer == named + Body(a);
    }

    /** Builds the note's bytes and appends them. */
    method AddNote(a: Added)
      requires Valid() && AddedOk(a) && section.Holds(|NoteBytes(a, big)|)
      modifies this, section, section.data
      ensures Valid() && section.Contents() == old(section.Contents()) + NoteBytes(a, big)
      ensures positions == old(positions) + [old(section.size)]
      ensures forall notes: seq<Added> :: old(Tracks(notes)) ==> Tracks(notes + [a])
    {
      var buffer := WriteNote(a);
      assert |section.Contents()| == section.size by {
        section.SizeIsUsed();
      }
      positions := positions + [section.size];
      section.AppendData(buffer);
      forall notes: seq<Added> | old(Tracks(notes))
        ensures Tracks(notes + [a])
      {
        OneMoreNote(notes, a, big);
      }
    }

    /** The guard compares the index with the section's size in bytes, not with the number of
        notes: an index between the two takes a position from outside the index. */
    method GetNote(index: nat) returns (r: Outcome)
      requires Valid()
      ensures r == OutsideIndex <==> |positions| <= index < section.size
      ensures index >= section.size ==> r == Rejected
      ensures index < |positions| && index < section.size ==> r == ReadNote(section.Contents(), big, positions[index])
      ensures forall notes: seq<Added> ::
        Tracks(notes) && section.size < TWO32 && index < |notes| && Sound(notes[index]) ==>
        Delivers(r, notes[index])
    {
      forall notes: seq<Added> | Tracks(notes) && section.size < TWO32 && index < |notes|
        ensures index < section.size
        ensures Sound(notes[index]) ==> Delivers(ReadNote(section.Contents(), big, positions[index]), notes[index])
      {
        NotesTakeRoom(notes, big);
        NotesRoundTrip(notes, big, index);
      }
      if index >= section.size {
        return Rejected;
      }
      if index >= |positions| {
        return OutsideIndex;
      }
      return ReadNote(section.Contents(), big, positions[index]);
    }
  }

  lemma {:induction false} AtLeast(blocks: seq<seq<Byte>>, ds: seq<Stride>)
    requires SizesMatch(blocks, ds) && forall i | 0 <= i < |ds| :: ds[i].size >= 12
    ensures |Flat(blocks)| >= 12 * |blocks|
    decreases |blocks|
  {
    if blocks != [] {
      AtLeast(blocks[1..], ds[1..]);
    }
  }

  lemma NotesTakeRoom(notes: seq<Added>, big: bool)
    requires AllOk(notes)
    ensures |Concat(notes, big)| >= 12 * |notes|
  {
    SizesOfNotes(notes, big);
    AtLeast(Blocks(notes, big), Strides(notes));
  }

  /** Every section with a note in it has an index that the guard lets through although there is
      no such note: the number of notes itself. */
  lemma GuardTooWeak(notes: seq<Added>, big: bool)
    requires AllOk(notes)
    ensures |Starts(notes)| <= |notes| < |Concat(notes, big)| <==> notes != []
  {
    NotesTakeRoom(notes, big);
    assert notes == [] ==> Concat(notes, big) == [];
  }
}
