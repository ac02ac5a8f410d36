/** Notes in an ELF section: what add_note writes, what a fresh parse finds, and what get_note
    reads back. */
module ElfNotes {
  import opened Words

  /** A note as passed to add_note; a descriptor may be missing whatever its size says. */
  datatype Added = Added(typ: Word32, name: seq<Byte>, desc: Option<seq<Byte>>, descSize: Word32)

  predicate AddedOk(a: Added) {
    |a.name| + 1 < TWO32 - 3 && (a.desc.Some? ==> |a.desc.value| == a.descSize)
  }

  // ----- words in the file's byte order -----

  function Encode(v: Word32, big: bool): (r: seq<Byte>)
    ensures |r| == 4
  {
    var w := v / 0x100;
    var x := w / 0x100;
    var a: Byte, b: Byte, c: Byte, d: Byte := v % 0x100, w % 0x100, x % 0x100, x / 0x100;
    if big then [d, c, b, a] else [a, b, c, d]
  }

  function Mix(a: int, b: int, c: int, d: int): int {
    a + 0x100 * (b + 0x100 * (c + 0x100 * d))
  }

  function Decode(s: seq<Byte>, big: bool): Word32
    requires |s| == 4
  {
    if big then Mix(s[3], s[2], s[1], s[0]) else Mix(s[0], s[1], s[2], s[3])
  }

  function ReadWord(data: seq<Byte>, at: nat, big: bool): Word32
    requires at + 4 <= |data|
  {
    Decode(data[at..at + 4], big)
  }

  lemma EncodeDecode(v: Word32, big: bool)
    ensures Decode(Encode(v, big), big) == v
  {
  }

  // ----- parts of a buffer -----

  /** s lies in data at a position. */
  predicate Has(data: seq<Byte>, at: nat, s: seq<Byte>) {
    at + |s| <= |data| && data[at..at + |s|] == s
  }

  lemma HasSplit(data: seq<Byte>, at: nat, s: seq<Byte>, t: seq<Byte>)
    requires Has(data, at, s + t)
    ensures Has(data, at, s) && Has(data, at + |s|, t)
  {
    var whole := data[at..at + |s + t|];
    assert data[at..at + |s|] == whole[..|s|];
    assert data[at + |s|..at + |s| + |t|] == whole[|s|..];
  }

  // ----- writing -----

  function Padding(n: nat): (r: seq<Byte>)
    ensures (n + |r|) % 4 == 0 && |r| < 4
  {
    if n % 4 != 0 then seq<Byte>(4 - n % 4, _ => 0) else []
  }

  function Body(a: Added): seq<Byte> {
    if a.desc.Some? && a.descSize != 0 then a.desc.value + Padding(a.descSize) else []
  }

  function Header(a: Added, big: bool): (r: seq<Byte>)
    requires AddedOk(a)
    ensures |r| == 12
  {
    Encode(|a.name| + 1, big) + Encode(a.descSize, big) + Encode(a.typ, big)
  }

  function Named(a: Added): seq<Byte> {
    a.name + [0] + Padding(|a.name| + 1)
  }

  function NoteBytes(a: Added, big: bool): seq<Byte>
    requires AddedOk(a)
  {
    Header(a, big) + Named(a) + Body(a)
  }

  function RoundUp(n: nat): nat {
    (n + 3) / 4 * 4
  }

  function NoteSize(a: Added): nat {
    12 + RoundUp(|a.name| + 1) + if a.desc.Some? then RoundUp(|a.desc.value|) else 0
  }

  predicate AllOk(notes: seq<Added>) {
    forall i | 0 <= i < |notes| :: AddedOk(notes[i])
  }

  /** A word's bytes: the lowest first, or last in a big-endian file. */
  lemma WordBytes(v: Word32, big: bool)
    ensures var s := Encode(v, big);
      var a: int, b: int, c: int, d: int := s[if big then 3 else 0], s[if big then 2 else 1],
                                            s[if big then 1 else 2], s[if big then 0 else 3];
      v == a + 0x100 * b + 0x1_0000 * c + 0x100_0000 * d
  {
  }

  // ----- a section as blocks one after the other -----

  function Flat(blocks: seq<seq<Byte>>): seq<Byte> {
    if blocks == [] then [] else blocks[0] + Flat(blocks[1..])
  }

  function Blocks(notes: seq<Added>, big: bool): seq<seq<Byte>>
    requires AllOk(notes)
  {
    seq(|notes|, i requires 0 <= i < |notes| => NoteBytes(notes[i], big))
  }

  /** The section after a sequence of add_note calls on an empty one. */
  function Concat(notes: seq<Added>, big: bool): seq<Byte>
    requires AllOk(notes)
  {
    Flat(Blocks(notes, big))
  }

  /** How far a note reaches, and whether the parser moves on by just that. */
  datatype Stride = Stride(size: nat, kept: bool)

  /** The parser moves on by what add_note wrote. */
  predicate KeepsPace(a: Added) {
    a.desc.Some? || Align4(a.descSize) == 0
  }

  function StrideOf(a: Added): Stride {
    Stride(NoteSize(a), KeepsPace(a))
  }

  function Strides(notes: seq<Added>): seq<Stride> {
    seq(|notes|, i requires 0 <= i < |notes| => StrideOf(notes[i]))
  }

  function Positions(ds: seq<Stride>, at: nat): (r: seq<nat>)
    ensures |r| == |ds|
  {
    if ds == [] then [] else [at] + Positions(ds[1..], at + ds[0].size)
  }

  /** The positions of notes that follow one another from the start of a section. */
  function Starts(notes: seq<Added>): (r: seq<nat>)
    ensures |r| == |notes|
  {
    Positions(Strides(notes), 0)
  }

  // ----- reading -----

  /** Rounding up to a multiple of four in 32 bits. */
  function Align4(n: Word32): Word32 {
    (n + 3) % TWO32 / 4 * 4
  }

  /** Where the parser goes from a note with these two sizes. */
  function After(at: nat, nameSize: Word32, descSize: Word32): nat {
    at + 12 + Align4(nameSize) + Align4(descSize)
  }

  /** The positions process_section finds from one position on. */
  function Parse(data: seq<Byte>, big: bool, current: nat): seq<nat>
    decreases |data| - current
  {
    if current + 12 > |data| then [] else
      [current] + Parse(data, big, After(current, ReadWord(data, current, big), ReadWord(data, current + 4, big)))
  }

  /** What get_note does: deliver, report failure, read outside the section, or take a position
      from outside its index. */
  datatype Outcome = Note(typ: Word32, name: seq<Byte>, desc: seq<Byte>) | Rejected | OutOfBounds | OutsideIndex

  function ReadNote(data: seq<Byte>, big: bool, at: nat): Outcome {
    if at + 12 > |data| then OutOfBounds else
      var nameSize, descSize, typ := ReadWord(data, at, big), ReadWord(data, at + 4, big), ReadWord(data, at + 8, big);
      var max := |data| - at;
      if nameSize > max || (nameSize + descSize) % TWO32 > max then Rejected else
        var from := at + 12 + Align4(nameSize);
        if nameSize == 0 || at + 12 + nameSize - 1 > |data|
          || (descSize != 0 && from + descSize > |data|) then OutOfBounds
        else Note(typ, data[at + 12..at + 12 + nameSize - 1], if descSize == 0 then [] else data[from..from + descSize])
  }

  /** The guard on the sizes of a note adds them in 32 bits: with a sum that wraps around to a small
      number it passes, and the read goes beyond the section. */
  lemma GuardWraps(data: seq<Byte>, big: bool, at: nat, nameSize: Word32, descSize: Word32)
    requires at + 12 <= |data| < 0x8000_0000
    requires ReadWord(data, at, big) == nameSize && ReadWord(data, at + 4, big) == descSize
    ensures ReadNote(data, big, at).Rejected? <==>
      || nameSize > |data| - at
      || |data| - at < nameSize + descSize < 0x1_0000_0000
      || |data| - at < nameSize + descSize - 0x1_0000_0000
    ensures nameSize <= |data| - at && 0x1_0000_0000 <= nameSize + descSize <= 0x1_0000_0000 + |data| - at
      ==> ReadNote(data, big, at).OutOfBounds?
  {
    SumWraps(nameSize, descSize);
    ReadRejects(data, big, at, nameSize, descSize);
  }

  lemma ReadRejects(data: seq<Byte>, big: bool, at: nat, nameSize: Word32, descSize: Word32)
    requires at + 12 <= |data|
    requires ReadWord(data, at, big) == nameSize && ReadWord(data, at + 4, big) == descSize
    ensures ReadNote(data, big, at).Rejected? <==>
      nameSize > |data| - at || (nameSize + descSize) % TWO32 > |data| - at
    ensures descSize > |data| ==> ReadNote(data, big, at).Rejected? || ReadNote(data, big, at).OutOfBounds?
  {
  }

  lemma SumWraps(x: Word32, y: Word32)
    ensures (x + y) % TWO32 == if x + y < 0x1_0000_0000 then x + y else x + y - 0x1_0000_0000
  {
  }

  // ----- one note at its place -----

  lemma Align4Pads(n: nat)
    requires n < TWO32 - 3
    ensures Align4(n) == RoundUp(n) == n + |Padding(n)|
  {
    assert (n + 3) % TWO32 == n + 3;
    assert n == n / 4 * 4 + n % 4;
  }

  lemma HeaderPlaced(data: seq<Byte>, big: bool, at: nat, a: Added)
    requires AddedOk(a) && Has(data, at, Header(a, big))
    ensures at + 12 <= |data| && ReadWord(data, at, big) == |a.name| + 1
    ensures ReadWord(data, at + 4, big) == a.descSize && ReadWord(data, at + 8, big) == a.typ
  {
    var n, d, t := Encode(|a.name| + 1, big), Encode(a.descSize, big), Encode(a.typ, big);
    HasSplit(data, at, n + d, t);
    HasSplit(data, at, n, d);
    EncodeDecode(|a.name| + 1, big);
    EncodeDecode(a.descSize, big);
    EncodeDecode(a.typ, big);
  }

  /** A descriptor was given, or there is none to give. */
  predicate Sound(a: Added) {
    a.desc.Some? || a.descSize == 0
  }

  function Given(a: Added): seq<Byte> {
    match a.desc case Some(d) => d case None => []
  }

  lemma BodyPlaced(data: seq<Byte>, at: nat, a: Added)
    requires AddedOk(a) && Has(data, at, Named(a) + Body(a))
    ensures Has(data, at, a.name) && Has(data, at, Named(a))
    ensures Sound(a) ==> Has(data, at + |Named(a)|, Given(a))
  {
    HasSplit(data, at, Named(a), Body(a));
    HasSplit(data, at, a.name + [0], Padding(|a.name| + 1));
    HasSplit(data, at, a.name, [0]);
    if a.desc.Some? && a.descSize != 0 {
      HasSplit(data, at + |Named(a)|, a.desc.value, Padding(a.descSize));
    }
  }

  lemma NoteParts(data: seq<Byte>, big: bool, at: nat, a: Added)
    requires AddedOk(a) && Has(data, at, NoteBytes(a, big))
    ensures Has(data, at, Header(a, big)) && Has(data, at + 12, Named(a) + Body(a))
  {
    assert NoteBytes(a, big) == Header(a, big) + (Named(a) + Body(a));
    HasSplit(data, at, Header(a, big), Named(a) + Body(a));
  }

  /** Where everything stands in a note: three words, for the size of the name with its final zero,
      the size of the descriptor and the type; the name; the descriptor at a multiple of four. */
  lemma NoteLayout(a: Added, big: bool)
    requires AddedOk(a)
    ensures var s, n := NoteBytes(a, big), |a.name|;
      && Has(s, 0, Encode(n + 1, big)) && Has(s, 4, Encode(a.descSize, big)) && Has(s, 8, Encode(a.typ, big))
      && Has(s, 12, a.name) && Has(s, 12 + n, [0])
      && (a.desc.Some? && a.descSize != 0 ==> Has(s, 12 + (n + 4) / 4 * 4, a.desc.value))
  {
    var s := NoteBytes(a, big);
    WholeNote(a, big);
    HeaderWords(s, big, a);
    NamePlace(s, a);
    if a.desc.Some? && a.descSize != 0 {
      DescPlace(s, a, a.desc.value);
    }
  }

  lemma WholeNote(a: Added, big: bool)
    requires AddedOk(a)
    ensures Has(NoteBytes(a, big), 0, Header(a, big)) && Has(NoteBytes(a, big), 12, Named(a) + Body(a))
  {
    var s := NoteBytes(a, big);
    assert Has(s, 0, s);
    NoteParts(s, big, 0, a);
  }

  lemma NamePlace(s: seq<Byte>, a: Added)
    requires Has(s, 12, Named(a) + Body(a))
    ensures Has(s, 12, a.name) && Has(s, 12 + |a.name|, [0])
  {
    HasSplit(s, 12, Named(a), Body(a));
    HasSplit(s, 12, a.name + [0], Padding(|a.name| + 1));
    HasSplit(s, 12, a.name, [0]);
  }

  lemma DescPlace(s: seq<Byte>, a: Added, desc: seq<Byte>)
    requires AddedOk(a) && Has(s, 12, Named(a) + Body(a)) && a.desc == Some(desc) && a.descSize != 0
    ensures Has(s, 12 + (|a.name| + 4) / 4 * 4, desc)
  {
    NameSize(a);
    HasSplit(s, 12, Named(a), Body(a));
    HasSplit(s, 12 + |Named(a)|, desc, Padding(a.descSize));
  }

  lemma NoteLength(a: Added, big: bool)
    requires AddedOk(a)
    ensures |NoteBytes(a, big)|
            == 12 + (|a.name| + 4) / 4 * 4 + if a.desc.Some? then (a.descSize + 3) / 4 * 4 else 0
  {
    NameSize(a);
    PaddingRounds(a.descSize);
  }

  lemma PaddingRounds(n: nat)
    ensures n + |Padding(n)| == (n + 3) / 4 * 4
  {
  }

  lemma HeaderWords(s: seq<Byte>, big: bool, a: Added)
    requires AddedOk(a) && Has(s, 0, Header(a, big))
    ensures Has(s, 0, Encode(|a.name| + 1, big)) && Has(s, 4, Encode(a.descSize, big)) && Has(s, 8, Encode(a.typ, big))
  {
    var n, d, t := Encode(|a.name| + 1, big), Encode(a.descSize, big), Encode(a.typ, big);
    HasSplit(s, 0, n + d, t);
    HasSplit(s, 0, n, d);
  }

  lemma SumFits(x: nat, y: nat, max: nat)
    requires x + y <= max < TWO32
    ensures (x + y) % TWO32 <= max
  {
  }

  lemma ReadDelivers(data: seq<Byte>, big: bool, at: nat, nameSize: Word32, descSize: Word32, from: nat)
    requires at + 12 <= |data| && from == at + 12 + Align4(nameSize) && !ReadNote(data, big, at).Rejected?
    requires ReadWord(data, at, big) == nameSize && ReadWord(data, at + 4, big) == descSize
    requires 0 < nameSize && at + 12 + nameSize - 1 <= |data| && from + descSize <= |data|
    ensures ReadNote(data, big, at)
            == Note(ReadWord(data, at + 8, big), data[at + 12..at + 12 + nameSize - 1],
                    if descSize == 0 then [] else data[from..from + descSize])
  {
  }

  lemma SoundReads(data: seq<Byte>, big: bool, at: nat, nameSize: Word32, desc: seq<Byte>)
    requires at + 12 + Align4(nameSize) + |desc| <= |data| < TWO32 && 0 < nameSize <= Align4(nameSize)
    requires ReadWord(data, at, big) == nameSize && ReadWord(data, at + 4, big) == |desc|
    requires Has(data, at + 12 + Align4(nameSize), desc)
    ensures ReadNote(data, big, at) == Note(ReadWord(data, at + 8, big), data[at + 12..at + 12 + nameSize - 1], desc)
  {
    SumFits(nameSize, |desc|, |data| - at);
    ReadRejects(data, big, at, nameSize, |desc|);
    ReadDelivers(data, big, at, nameSize, |desc|, at + 12 + Align4(nameSize));
  }

  lemma UnsoundReads(data: seq<Byte>, big: bool, at: nat, descSize: Word32)
    requires at + 12 <= |data| && ReadWord(data, at + 4, big) == descSize > 0
    ensures ReadNote(data, big, at).Note? ==> ReadNote(data, big, at).desc != []
  {
  }

  lemma SoundPart(data: seq<Byte>, big: bool, at: nat, a: Added)
    requires AddedOk(a) && Sound(a) && Has(data, at + 12, Named(a) + Body(a)) && |data| < TWO32
    requires ReadWord(data, at, big) == |a.name| + 1 && ReadWord(data, at + 4, big) == a.descSize
    ensures ReadNote(data, big, at) == Note(ReadWord(data, at + 8, big), a.name, Given(a))
  {
    BodyPlaced(data, at + 12, a);
    NameSize(a);
    SoundReads(data, big, at, |a.name| + 1, Given(a));
  }

  lemma PartsReadBack(data: seq<Byte>, big: bool, at: nat, a: Added)
    requires AddedOk(a) && Has(data, at, Header(a, big)) && Has(data, at + 12, Named(a) + Body(a)) && |data| < TWO32
    ensures ReadNote(data, big, at) == Note(a.typ, a.name, Given(a)) <==> Sound(a)
  {
    HeaderPlaced(data, big, at, a);
    if Sound(a) {
      SoundPart(data, big, at, a);
    } else {
      UnsoundReads(data, big, at, a.descSize);
    }
  }

  /** A note reads back as it was added exactly when its descriptor was given or is empty. */
  lemma NoteReadsBack(data: seq<Byte>, big: bool, at: nat, a: Added)
    requires AddedOk(a) && Has(data, at, NoteBytes(a, big)) && |data| < TWO32
    ensures ReadNote(data, big, at) == Note(a.typ, a.name, Given(a)) <==> Sound(a)
  {
    NoteParts(data, big, at, a);
    PartsReadBack(data, big, at, a);
  }

  // ----- the index -----

  /** One round of a parser, given as a function of the position. */
  ghost predicate Moves(parse: nat -> seq<nat>, at: nat, d: Stride) {
    exists next: nat :: MovesTo(parse, at, d, next)
  }

  ghost predicate MovesTo(parse: nat -> seq<nat>, at: nat, d: Stride, next: nat) {
    parse(at) == [at] + parse(next) && next >= at + d.size && (next == at + d.size <==> d.kept)
  }

  ghost predicate Parses(parse: nat -> seq<nat>, data: seq<Byte>, big: bool) {
    forall at: nat :: parse(at) == Parse(data, big, at)
  }

  /** What is found from a position on starts there, and nothing is found at the end. */
  ghost predicate Anchored(parse: nat -> seq<nat>, end: nat) {
    forall at: nat :: (parse(at) == [] || parse(at)[0] == at) && (at >= end ==> parse(at) == [])
  }

  /** A parser that moves from block to block finds their positions exactly when every move but
      the last is by the block's size. */
  lemma {:induction false} PositionsAgree(parse: nat -> seq<nat>, data: seq<Byte>, pre: seq<Byte>,
                                          blocks: seq<seq<Byte>>, ds: seq<Stride>)
    requires |blocks| == |ds| && data == pre + Flat(blocks) && Anchored(parse, |data|)
    requires AllMove(parse, data, blocks, ds)
    ensures parse(|pre|) == Positions(ds, |pre|) <==> AllButLastKept(ds)
    decreases |ds|
  {
    if ds != [] {
      var rest, after := ds[1..], |pre| + ds[0].size;
      Middle(pre, blocks[0], Flat(blocks[1..]));
      assert BlockMoves(parse, data, blocks[0], ds[0]);
      var next: nat :| MovesTo(parse, |pre|, ds[0], next);
      SameTail(|pre|, parse(next), Positions(rest, after));
      KeptTail(ds);
      if next == after {
        RestMoves(parse, data, blocks, ds);
        PositionsAgree(parse, data, pre + blocks[0], blocks[1..], rest);
      } else if rest != [] {
        assert Positions(rest, after)[0] == after;
      }
    }
  }

  ghost predicate AllMove(parse: nat -> seq<nat>, data: seq<Byte>, blocks: seq<seq<Byte>>, ds: seq<Stride>)
    requires |blocks| == |ds|
  {
    forall i | 0 <= i < |ds| :: BlockMoves(parse, data, blocks[i], ds[i])
  }

  lemma RestMoves(parse: nat -> seq<nat>, data: seq<Byte>, blocks: seq<seq<Byte>>, ds: seq<Stride>)
    requires |blocks| == |ds| > 0 && AllMove(parse, data, blocks, ds)
    ensures AllMove(parse, data, blocks[1..], ds[1..])
  {
    forall i | 0 <= i < |ds| - 1
      ensures BlockMoves(parse, data, blocks[1..][i], ds[1..][i])
    {
      assert BlockMoves(parse, data, blocks[i + 1], ds[i + 1]);
    }
  }

  ghost predicate BlockMoves(parse: nat -> seq<nat>, data: seq<Byte>, block: seq<Byte>, d: Stride) {
    |block| == d.size && forall at: nat :: Has(data, at, block) ==> Moves(parse, at, d)
  }

  predicate AllButLastKept(ds: seq<Stride>) {
    forall i | 0 <= i < |ds| - 1 :: ds[i].kept
  }

  lemma KeptTail(ds: seq<Stride>)
    requires ds != []
    ensures AllButLastKept(ds) <==> |ds| == 1 || (ds[0].kept && AllButLastKept(ds[1..]))
  {
    if |ds| > 1 && ds[0].kept && AllButLastKept(ds[1..]) {
      assert forall i | 0 < i < |ds| - 1 :: ds[i] == ds[1..][i - 1];
    }
  }

  lemma SameTail(x: nat, s: seq<nat>, t: seq<nat>)
    ensures [x] + s == [x] + t <==> s == t
  {
    assert ([x] + s)[1..] == s && ([x] + t)[1..] == t;
  }

  lemma Middle(pre: seq<Byte>, s: seq<Byte>, post: seq<Byte>)
    ensures pre + (s + post) == (pre + s) + post && Has(pre + (s + post), |pre|, s)
  {
  }

  lemma NameSize(a: Added)
    requires AddedOk(a)
    ensures Align4(|a.name| + 1) == RoundUp(|a.name| + 1) == |Named(a)|
  {
    Align4Pads(|a.name| + 1);
  }

  lemma BodySize(a: Added)
    requires AddedOk(a)
    ensures |Body(a)| == (if a.desc.Some? then RoundUp(|a.desc.value|) else 0)
    ensures a.desc.Some? && |Body(a)| < TWO32 - 4 ==> Align4(a.descSize) == |Body(a)|
  {
    if a.desc.Some? && |a.desc.value| < TWO32 - 3 {
      Align4Pads(a.descSize);
    }
  }

  lemma ParseRound(data: seq<Byte>, big: bool, at: nat, nameSize: Word32, descSize: Word32)
    requires at + 12 <= |data| && ReadWord(data, at, big) == nameSize && ReadWord(data, at + 4, big) == descSize
    ensures Parse(data, big, at) == [at] + Parse(data, big, After(at, nameSize, descSize))
  {
  }

  lemma StrideMatches(a: Added)
    requires AddedOk(a) && (a.desc.Some? ==> a.descSize < TWO32 - 4)
    ensures var moved := After(0, |a.name| + 1, a.descSize);
      moved >= NoteSize(a) && (moved == NoteSize(a) <==> KeepsPace(a))
  {
    Align4Pads(|a.name| + 1);
    if a.desc.Some? {
      Align4Pads(a.descSize);
    }
  }

  lemma StrideAt(at: nat, a: Added) returns (next: nat)
    requires AddedOk(a) && (a.desc.Some? ==> a.descSize < TWO32 - 4)
    ensures next == After(at, |a.name| + 1, a.descSize)
    ensures var d := StrideOf(a); next >= at + d.size && (next == at + d.size <==> d.kept)
  {
    StrideMatches(a);
    next := After(at, |a.name| + 1, a.descSize);
  }

  lemma DescFits(data: seq<Byte>, at: nat, a: Added)
    requires AddedOk(a) && Has(data, at, Named(a) + Body(a))
    ensures a.desc.Some? ==> a.descSize <= |data|
  {
  }

  lemma NoteMoves(parse: nat -> seq<nat>, data: seq<Byte>, big: bool, at: nat, a: Added)
    requires Parses(parse, data, big) && AddedOk(a) && |data| < TWO32 - 4
    requires Has(data, at, Header(a, big)) && Has(data, at + 12, Named(a) + Body(a))
    ensures Moves(parse, at, StrideOf(a))
  {
    HeaderPlaced(data, big, at, a);
    DescFits(data, at + 12, a);
    var next := StrideAt(at, a);
    ParseRound(data, big, at, |a.name| + 1, a.descSize);
    assert parse(at) == Parse(data, big, at) && parse(next) == Parse(data, big, next);
    assert MovesTo(parse, at, StrideOf(a), next);
  }

  predicate AllButLastKeepPace(notes: seq<Added>) {
    forall i | 0 <= i < |notes| - 1 :: KeepsPace(notes[i])
  }

  lemma ParseAnchored(data: seq<Byte>, big: bool, at: nat)
    ensures Parse(data, big, at) == [] || Parse(data, big, at)[0] == at
    ensures at >= |data| ==> Parse(data, big, at) == []
  {
  }

  /** A fresh parse finds the positions add_note kept exactly when every note but the last was
      added with its descriptor, or with none to speak of. */
  lemma IndexAgrees(notes: seq<Added>, big: bool)
    requires AllOk(notes) && |Concat(notes, big)| < TWO32 - 4
    ensures Parse(Concat(notes, big), big, 0) == Starts(notes) <==> AllButLastKeepPace(notes)
  {
    var data, blocks, ds := Concat(notes, big), Blocks(notes, big), Strides(notes);
    var parse := (at: nat) => Parse(data, big, at);
    assert Anchored(parse, |data|) by {
      forall at: nat
        ensures (parse(at) == [] || parse(at)[0] == at) && (at >= |data| ==> parse(at) == [])
      {
        ParseAnchored(data, big, at);
      }
    }
    forall i | 0 <= i < |ds|
      ensures BlockMoves(parse, data, blocks[i], ds[i])
    {
      NoteIsBlock(parse, data, notes[i], big);
    }
    assert [] + data == data;
    PositionsAgree(parse, data, [], blocks, ds);
    assert AllButLastKept(ds) <==> AllButLastKeepPace(notes) by {
      assert forall i | 0 <= i < |ds| :: ds[i].kept == KeepsPace(notes[i]);
    }
  }

  lemma NoteIsBlock(parse: nat -> seq<nat>, data: seq<Byte>, a: Added, big: bool)
    requires Parses(parse, data, big) && AddedOk(a) && |data| < TWO32 - 4
    ensures BlockMoves(parse, data, NoteBytes(a, big), StrideOf(a))
  {
    NameSize(a);
    BodySize(a);
    forall at: nat | Has(data, at, NoteBytes(a, big))
      ensures Moves(parse, at, StrideOf(a))
    {
      NoteParts(data, big, at, a);
      NoteMoves(parse, data, big, at, a);
    }
  }

  // ----- the round trip -----

  predicate SizesMatch(blocks: seq<seq<Byte>>, ds: seq<Stride>) {
    |blocks| == |ds| && forall i | 0 <= i < |ds| :: |blocks[i]| == ds[i].size
  }

  lemma {:induction false} BlockAtPosition(pre: seq<Byte>, blocks: seq<seq<Byte>>, ds: seq<Stride>, i: nat)
    requires SizesMatch(blocks, ds) && i < |ds|
    ensures Has(pre + Flat(blocks), Positions(ds, |pre|)[i], blocks[i])
    decreases |ds|
  {
    Middle(pre, blocks[0], Flat(blocks[1..]));
    if i > 0 {
      BlockAtPosition(pre + blocks[0], blocks[1..], ds[1..], i - 1);
    }
  }

  lemma SizesOfNotes(notes: seq<Added>, big: bool)
    requires AllOk(notes)
    ensures SizesMatch(Blocks(notes, big), Strides(notes))
  {
    forall i | 0 <= i < |notes|
      ensures |Blocks(notes, big)[i]| == Strides(notes)[i].size
    {
      NameSize(notes[i]);
      BodySize(notes[i]);
    }
  }

  /** The round trip, for every sequence of additions to an empty section: a note comes back with
      its type, name and descriptor exactly when its descriptor was given or is empty. */
  lemma NotesRoundTrip(notes: seq<Added>, big: bool, i: nat)
    requires AllOk(notes) && i < |notes| && |Concat(notes, big)| < TWO32
    ensures var a := notes[i];
      ReadNote(Concat(notes, big), big, Starts(notes)[i]) == Note(a.typ, a.name, Given(a)) <==> Sound(a)
  {
    SizesOfNotes(notes, big);
    BlockAtPosition([], Blocks(notes, big), Strides(notes), i);
    assert [] + Concat(notes, big) == Concat(notes, big);
    NoteReadsBack(Concat(notes, big), big, Starts(notes)[i], notes[i]);
  }
}
