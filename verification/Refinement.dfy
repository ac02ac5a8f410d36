/** The pipeline refines the sequential interpreter.

    Matches(r, p) relates a pipeline state to the sequential run r: with `Retired(p)`
    instructions written back, every instruction in W, M, E and (unless about to be squashed)
    D is the next one of the sequential run and carries its values (in E: operands that come
    to the same result, stored bytes and next address), the registers are those after the
    retired instructions, and memory is one stage ahead of them. */
module Refinement {
  import opened Words
  import opened Isa
  import opened Sequential
  import opened Pipeline

  // ----- which sequential instruction each latch holds -----

  function Retired(p: Pipe): nat { p.stats.instrCnt + p.stats.ecallNum }

  function IndexM(p: Pipe): nat { Retired(p) + Bit(p.wl.WFull?) }

  function IndexE(p: Pipe): nat { IndexM(p) + Bit(p.ml.MFull?) }

  function IndexD(p: Pipe): nat { IndexE(p) + Bit(p.el.EFull?) }

  function IndexF(p: Pipe): nat { IndexD(p) + Bit(p.dl.DFull?) }

  // ----- what the code needs of a program -----

  /** The word of instruction k is the same in memory after j instructions as after k. */
  predicate FetchSame(r: Run, j: nat, k: nat) {
    FetchWord(r.at(j).mem, r.at(k).pc) == FetchWord(r.at(k).mem, r.at(k).pc)
  }

  /** An instruction word is not overwritten by one of the three instructions before it,
      when it may already have been fetched. */
  ghost predicate FetchStable(r: Run, k: nat) {
    forall j: nat :: j <= k <= j + 3 ==> FetchSame(r, j, k)
  }

  ghost predicate FetchStableBelow(r: Run, n: nat) {
    forall k: nat :: k < n ==> FetchStable(r, k)
  }

  lemma FetchStableFewer(r: Run, m: nat, n: nat)
    requires FetchStableBelow(r, n) && m <= n
    ensures FetchStableBelow(r, m)
  {
  }

  /** Instruction k loads register x, k + 1 overwrites x without reading it and does not
      redirect the fetch, k + 2 reads x, and the two values of x differ. */
  predicate StaleRead(r: Run, k: nat) {
    var d0, d1, d2 := DecodeAt(r.isa, r.at(k)), DecodeAt(r.isa, r.at(k + 1)), DecodeAt(r.isa, r.at(k + 2));
    var x := d0.dstM;
    && x != 0 && d1.dstE == x && !Reads(d1, x) && !d1.name.Jalr? && !d1.name.Ecall?
    && Reads(d2, x)
    && ValM(r.isa, r.at(k)) != ValE(r.isa, r.at(k + 1))
  }

  /** Two pairs of operands make an instruction write, access and store the same. */
  predicate SameValues(isa: Isa, d: Decoded, addr: Word, a: Word, b: Word, a': Word, b': Word) {
    && Delivered(d, Compute(isa, d, addr, a', b')) == Delivered(d, Compute(isa, d, addr, a, b))
    && StoredBytes(d, b') == StoredBytes(d, b)
  }

  predicate SameTarget(isa: Isa, d: Decoded, addr: Word, a: Word, b: Word, a': Word, b': Word) {
    Successor(isa, d, addr, a', b') == Successor(isa, d, addr, a, b)
  }

  /** What the reader of a stale-read triple gets of register x. */
  function StaleOperand(r: Run, k: nat, x: Reg): Word {
    if x == DecodeAt(r.isa, r.at(k)).dstM then ValM(r.isa, r.at(k)) else r.at(k + 2).regs[x]
  }

  /** A stale read whose reader, with the loaded value, writes, accesses or stores something else. */
  predicate WrongRead(r: Run, k: nat) {
    var s := r.at(k + 2);
    var d := DecodeAt(r.isa, s);
    StaleRead(r, k) && !SameValues(r.isa, d, s.pc, s.regs[d.srcA], s.regs[d.srcB],
                                   StaleOperand(r, k, d.srcA), StaleOperand(r, k, d.srcB))
  }

  /** A stale read whose reader, with the loaded value, goes somewhere else. */
  predicate StrayRead(r: Run, k: nat) {
    var s := r.at(k + 2);
    var d := DecodeAt(r.isa, s);
    StaleRead(r, k) && !SameTarget(r.isa, d, s.pc, s.regs[d.srcA], s.regs[d.srcB],
                                   StaleOperand(r, k, d.srcA), StaleOperand(r, k, d.srcB))
  }

  predicate VisibleRead(r: Run, k: nat) {
    WrongRead(r, k) || StrayRead(r, k)
  }

  /** A reader that writes nothing and goes to the next word does no harm. */
  lemma HarmlessReader(r: Run, k: nat)
    requires var d := DecodeAt(r.isa, r.at(k + 2));
      && (d.dstE == 0 || d.name.Ecall?) && !IsLoad(d.name) && !IsStore(d.name)
      && !d.name.Jalr? && !d.kind.SBType?
    ensures !VisibleRead(r, k)
  {
  }

  function Visible(r: Run): nat -> bool {
    (k: nat) => VisibleRead(r, k)
  }

  /** No triple among the first n instructions is bad. */
  ghost predicate NoneBefore(bad: nat -> bool, n: nat) {
    forall k: nat :: k + 2 < n ==> !bad(k)
  }

  /** None of the first n instructions completes a visible stale read. */
  ghost predicate NoVisibleBefore(r: Run, n: nat) {
    NoneBefore(Visible(r), n)
  }

  lemma NotVisible(r: Run, n: nat, k: nat)
    requires NoVisibleBefore(r, n) && k + 2 < n
    ensures !VisibleRead(r, k)
  {
    assert !Visible(r)(k);
  }

  lemma NoneFewer(bad: nat -> bool, m: nat, n: nat)
    requires NoneBefore(bad, n) && m <= n
    ensures NoneBefore(bad, m)
  {
  }

  lemma NoneMore(bad: nat -> bool, m: nat, n: nat)
    requires NoneBefore(bad, m) && m <= n <= m + 1 && (2 <= m < n ==> !bad(m - 2))
    ensures NoneBefore(bad, n)
  {
  }

  // ----- the simulation relation -----

  predicate MatchW(r: Run, p: Pipe) {
    p.wl.WFull? ==>
      var s := r.at(Retired(p));
      var d := DecodeAt(r.isa, s);
      && Sound(r.isa, s)
      && p.wl == WFull(s.pc, d, p.wl.valB, p.wl.valE, ValM(r.isa, s))
      && Delivered(d, p.wl.valE) == Delivered(d, ValE(r.isa, s))
      && StoredBytes(d, p.wl.valB) == StoredBytes(d, s.regs[d.srcB])
  }

  /** Fetched and decoded as the sequential run does it; the memory access is still to come. */
  predicate Underway(r: Run, s: Seq) {
    CanAccess(s.mem, s.pc, 4) && r.isa.decode(FetchWord(s.mem, s.pc)).Some?
  }

  predicate MatchM(r: Run, p: Pipe) {
    p.ml.MFull? ==>
      var s := r.at(IndexM(p));
      var d := DecodeAt(r.isa, s);
      && Underway(r, s)
      && p.ml == MFull(s.pc, d, p.ml.valB, p.ml.valE)
      && Delivered(d, p.ml.valE) == Delivered(d, ValE(r.isa, s))
      && StoredBytes(d, p.ml.valB) == StoredBytes(d, s.regs[d.srcB])
  }

  /** Operands in E may differ from the sequential ones as long as they come to the same. */
  predicate ValuesE(r: Run, p: Pipe) {
    p.el.EFull? ==>
      var s := r.at(IndexE(p));
      var d := DecodeAt(r.isa, s);
      && Underway(r, s)
      && p.el == EFull(s.pc, d, p.el.valA, p.el.valB, p.el.predJ)
      && SameValues(r.isa, d, s.pc, s.regs[d.srcA], s.regs[d.srcB], p.el.valA, p.el.valB)
  }

  predicate TargetE(r: Run, p: Pipe) {
    p.el.EFull? ==>
      var s := r.at(IndexE(p));
      var d := DecodeAt(r.isa, s);
      SameTarget(r.isa, d, s.pc, s.regs[d.srcA], s.regs[d.srcB], p.el.valA, p.el.valB)
  }

  predicate MatchE(r: Run, p: Pipe) {
    ValuesE(r, p) && TargetE(r, p)
  }

  predicate MatchD(r: Run, p: Pipe) {
    p.dl.DFull? && !Squash(r.isa, p) ==>
      var s := r.at(IndexD(p));
      && CanAccess(s.mem, s.pc, 4)
      && p.dl == DFull(s.pc, FetchWord(s.mem, s.pc), p.dl.predJ)
  }

  /** With nothing in D to guess from, the fetch is at the next instruction. */
  predicate MatchPC(r: Run, p: Pipe) {
    p.dl.DEmpty? && !Squash(r.isa, p) ==> p.pc == r.at(IndexF(p)).pc
  }

  predicate MatchState(r: Run, p: Pipe) {
    && p.regs == r.at(Retired(p)).regs
    && p.stats.ecallNum == r.at(Retired(p)).ecalls
    && p.mem == r.at(IndexM(p)).mem
  }

  predicate Matches(r: Run, p: Pipe) {
    && Shape(p)
    && MatchState(r, p) && MatchW(r, p) && MatchM(r, p) && MatchE(r, p) && MatchD(r, p) && MatchPC(r, p)
  }

  // ----- one cycle -----

  predicate Steps(r: Run, p: Pipe, q: Pipe) {
    Step(r.isa, r.env, p) == Next(q)
  }

  /** Every latch hands its instruction on. */
  lemma StepIndices(isa: Isa, env: Env, p: Pipe, q: Pipe)
    requires Step(isa, env, p) == Next(q)
    ensures Retired(q) == IndexM(p) && IndexM(q) == IndexE(p) && IndexE(q) == IndexD(p)
    ensures IndexD(q) == IndexD(p) + Bit(q.el.EFull?)
  {
  }

  lemma Indices(r: Run, p: Pipe, q: Pipe)
    requires Matches(r, p) && Steps(r, p, q)
    ensures Retired(q) == IndexM(p) && IndexM(q) == IndexE(p) && IndexE(q) == IndexD(p)
    ensures IndexF(p) <= IndexM(p) + 3
    ensures IndexD(q) == IndexD(p) + Bit(q.el.EFull?)
  {
    StepIndices(r.isa, r.env, p, q);
  }

  lemma RegsKept(r: Run, p: Pipe)
    requires IsRun(r)
    requires MatchState(r, p) && MatchW(r, p)
    ensures NextRegs(r.env, p) == r.at(IndexM(p)).regs
    ensures p.stats.ecallNum + Bit(EcallInW(p)) == r.at(IndexM(p)).ecalls
  {
    SeqRegs(r, Retired(p));
  }

  lemma MemKept(r: Run, p: Pipe)
    requires IsRun(r)
    requires MatchState(r, p) && MatchM(r, p)
    ensures NextMem(p) == r.at(IndexE(p)).mem
  {
    if p.ml.MFull? {
      SeqMem(r, IndexM(p));
      assert p.ml.d == DecodeAt(r.isa, r.at(IndexM(p)));
      assert IsStore(p.ml.d.name) ==> p.ml.valE == ValE(r.isa, r.at(IndexM(p)));
      var s := r.at(IndexM(p));
      SameStored(p.ml.d, p.mem, p.ml.valE, p.ml.valB, s.regs[p.ml.d.srcB]);
    }
  }

  lemma WKept(r: Run, p: Pipe, q: Pipe)
    requires MatchState(r, p) && MatchM(r, p) && Steps(r, p, q)
    ensures MatchW(r, q)
  {
    StepIndices(r.isa, r.env, p, q);
  }

  lemma MKept(r: Run, p: Pipe, q: Pipe)
    requires ValuesE(r, p) && Steps(r, p, q)
    ensures MatchM(r, q)
  {
    StepIndices(r.isa, r.env, p, q);
  }

  /** Register x after an instruction that writes valE and valM. */
  function RegAfter(d: Decoded, valE: Word, valM: Word, x: Reg, before: Word): Word {
    if d.dstE != 0 && d.dstE == x then valE else if d.dstM != 0 && d.dstM == x then valM else before
  }

  lemma RegNext(r: Run, k: nat, x: Reg)
    requires IsRun(r)
    ensures var s := r.at(k); var d := DecodeAt(r.isa, s);
            !d.name.Ecall? ==> r.at(k + 1).regs[x] == RegAfter(d, ValE(r.isa, s), ValM(r.isa, s), x, s.regs[x])
  {
    SeqRegs(r, k);
  }

  /** Whether the unguarded load forwarding picks a value a younger instruction replaced. */
  predicate StaleForward(isa: Isa, p: Pipe, x: Reg) {
    && p.ml.MFull? && p.ml.d.dstM != 0 && p.ml.d.dstM == x
    && p.el.EFull? && p.el.d.dstE == x
    && LoadedM(p) != ComputedE(isa, p)
  }

  /** The value register x will have once everything ahead of D has been written back. */
  function Pending(isa: Isa, p: Pipe, x: Reg): Word {
    var afterW := if p.wl.WFull? then RegAfter(p.wl.d, p.wl.valE, p.wl.valM, x, p.regs[x]) else p.regs[x];
    var afterM := if p.ml.MFull? then RegAfter(p.ml.d, p.ml.valE, LoadedM(p), x, afterW) else afterW;
    if p.el.EFull? then RegAfter(p.el.d, ComputedE(isa, p), 0, x, afterM) else afterM
  }

  lemma PendingMatches(r: Run, p: Pipe, x: Reg)
    requires IsRun(r)
    requires MatchState(r, p) && MatchW(r, p) && MatchM(r, p) && MatchE(r, p) && Shape(p)
    requires p.dl.DFull? && !(p.el.EFull? && p.el.d.dstM != 0 && p.el.d.dstM == x)
    ensures Pending(r.isa, p, x) == r.at(IndexD(p)).regs[x]
  {
    PendingAfterW(r, p, x);
    PendingAfterM(r, p, x);
    RegNext(r, IndexE(p), x);
  }

  lemma PendingAfterW(r: Run, p: Pipe, x: Reg)
    requires IsRun(r) && MatchState(r, p) && MatchW(r, p) && !EcallInW(p)
    ensures r.at(IndexM(p)).regs[x]
            == if p.wl.WFull? then RegAfter(p.wl.d, p.wl.valE, p.wl.valM, x, p.regs[x]) else p.regs[x]
  {
    RegNext(r, Retired(p), x);
  }

  lemma PendingAfterM(r: Run, p: Pipe, x: Reg)
    requires IsRun(r) && MatchState(r, p) && MatchM(r, p) && !EcallInM(p)
    ensures r.at(IndexE(p)).regs[x]
            == if p.ml.MFull? then RegAfter(p.ml.d, p.ml.valE, LoadedM(p), x, r.at(IndexM(p)).regs[x])
               else r.at(IndexM(p)).regs[x]
  {
    RegNext(r, IndexM(p), x);
  }

  /** When the value leaving Decode is the architectural one: unless the guard missing from
      the load forwarding makes it stale. */
  lemma ForwardingExact(isa: Isa, p: Pipe, x: Reg)
    requires Shape(p) && p.dl.DFull? && !(p.el.EFull? && p.el.d.dstM != 0 && p.el.d.dstM == x)
    ensures Forwarded(isa, p, x, p.regs[x]) == Pending(isa, p, x) <==> !StaleForward(isa, p, x)
  {
  }

  /** An instruction leaves Decode in this cycle. */
  predicate Leaving(isa: Isa, p: Pipe) {
    DecodedD(isa, p).Some? && !Squash(isa, p) && !LoadUse(isa, p)
  }

  /** The instruction leaving Decode takes a stale operand. */
  predicate StaleNow(isa: Isa, p: Pipe) {
    && Leaving(isa, p)
    && (StaleForward(isa, p, DecodedD(isa, p).value.srcA) || StaleForward(isa, p, DecodedD(isa, p).value.srcB))
  }

  /** With its forwarded operands it writes, accesses or stores something else than with the pending ones. */
  predicate WrongNow(isa: Isa, p: Pipe) {
    Leaving(isa, p) &&
    var d := DecodedD(isa, p).value;
    !SameValues(isa, d, p.dl.addr, Pending(isa, p, d.srcA), Pending(isa, p, d.srcB),
                Forwarded(isa, p, d.srcA, SourceA(p.regs, d)), Forwarded(isa, p, d.srcB, SourceB(p.regs, d)))
  }

  /** With its forwarded operands it goes somewhere else than with the pending ones. */
  predicate StrayNow(isa: Isa, p: Pipe) {
    Leaving(isa, p) &&
    var d := DecodedD(isa, p).value;
    !SameTarget(isa, d, p.dl.addr, Pending(isa, p, d.srcA), Pending(isa, p, d.srcB),
                Forwarded(isa, p, d.srcA, SourceA(p.regs, d)), Forwarded(isa, p, d.srcB, SourceB(p.regs, d)))
  }

  predicate VisibleNow(isa: Isa, p: Pipe) {
    WrongNow(isa, p) || StrayNow(isa, p)
  }

  lemma OperandExact(isa: Isa, p: Pipe, d: Decoded)
    requires WellFormed(isa) && Shape(p) && DecodedD(isa, p) == Some(d) && !LoadUse(isa, p)
    ensures Forwarded(isa, p, d.srcA, SourceA(p.regs, d)) == Pending(isa, p, d.srcA) <==> !StaleForward(isa, p, d.srcA)
    ensures Forwarded(isa, p, d.srcB, SourceB(p.regs, d)) == Pending(isa, p, d.srcB) <==> !StaleForward(isa, p, d.srcB)
  {
    assert DecodesOk(isa, p.dl.ival);
    ForwardingExact(isa, p, d.srcA);
    ForwardingExact(isa, p, d.srcB);
  }

  /** The D latch, unless squashed, holds the sequential run's next instruction. */
  lemma DecodedInD(r: Run, p: Pipe)
    requires IsRun(r) && MatchD(r, p) && p.dl.DFull? && !Squash(r.isa, p) && DecodedD(r.isa, p).Some?
    ensures DecodedD(r.isa, p).value == DecodeAt(r.isa, r.at(IndexD(p)))
    ensures Underway(r, r.at(IndexD(p))) && p.dl.addr == r.at(IndexD(p)).pc
  {
  }

  /** The operands pending for the instruction in D are the sequential ones. */
  lemma PendingOperands(r: Run, p: Pipe)
    requires IsRun(r) && WellFormed(r.isa) && Matches(r, p) && Leaving(r.isa, p)
    ensures var d := DecodedD(r.isa, p).value; var s := r.at(IndexD(p));
      Pending(r.isa, p, d.srcA) == s.regs[d.srcA] && Pending(r.isa, p, d.srcB) == s.regs[d.srcB]
  {
    var d := DecodedD(r.isa, p).value;
    PendingMatches(r, p, d.srcA);
    PendingMatches(r, p, d.srcB);
  }

  /** The next E latch matches, in values and in target, exactly when the stale operand, if
      there is one, makes no difference to them. */
  lemma EExact(r: Run, p: Pipe, q: Pipe)
    requires IsRun(r) && WellFormed(r.isa) && Matches(r, p) && Steps(r, p, q)
    ensures ValuesE(r, q) <==> !WrongNow(r.isa, p)
    ensures TargetE(r, q) <==> !StrayNow(r.isa, p)
  {
    Indices(r, p, q);
    if q.el.EFull? {
      DecodedInD(r, p);
      PendingOperands(r, p);
    }
  }

  lemma VisibleIsStale(isa: Isa, p: Pipe)
    requires WellFormed(isa) && Shape(p) && VisibleNow(isa, p)
    ensures StaleNow(isa, p)
  {
    OperandExact(isa, p, DecodedD(isa, p).value);
  }

  /** A stale operand in the pipeline is a stale read of the program. */
  lemma StaleIsStaleRead(r: Run, p: Pipe)
    requires IsRun(r) && WellFormed(r.isa) && Matches(r, p) && StaleNow(r.isa, p)
    ensures IndexD(p) == IndexM(p) + 2 && StaleRead(r, IndexM(p))
  {
    DecodedInD(r, p);
    assert IndexE(p) == IndexM(p) + 1 && IndexD(p) == IndexM(p) + 2;
    assert LoadedM(p) == ValM(r.isa, r.at(IndexM(p)));
    assert ComputedE(r.isa, p) == ValE(r.isa, r.at(IndexE(p)));
  }

  /** What is forwarded then is what the reader of the triple gets. */
  lemma StaleOperands(r: Run, p: Pipe)
    requires IsRun(r) && WellFormed(r.isa) && Matches(r, p) && StaleNow(r.isa, p)
    ensures var d := DecodedD(r.isa, p).value; var s := r.at(IndexD(p)); var k := IndexM(p);
      && d == DecodeAt(r.isa, s) && p.dl.addr == s.pc
      && Pending(r.isa, p, d.srcA) == s.regs[d.srcA] && Pending(r.isa, p, d.srcB) == s.regs[d.srcB]
      && Forwarded(r.isa, p, d.srcA, SourceA(p.regs, d)) == StaleOperand(r, k, d.srcA)
      && Forwarded(r.isa, p, d.srcB, SourceB(p.regs, d)) == StaleOperand(r, k, d.srcB)
  {
    var d := DecodedD(r.isa, p).value;
    DecodedInD(r, p);
    PendingOperands(r, p);
    OperandExact(r.isa, p, d);
    StaleIsStaleRead(r, p);
    assert LoadedM(p) == ValM(r.isa, r.at(IndexM(p)));
    assert ComputedE(r.isa, p) == ValE(r.isa, r.at(IndexE(p)));
    assert p.ml.d == DecodeAt(r.isa, r.at(IndexM(p)));
  }

  /** A visible difference in the pipeline comes from a stale operand, and that from a load,
      overwrite, read triple of the program that makes the same difference there; and the
      other way round. */
  lemma VisibleIsVisibleRead(r: Run, p: Pipe)
    requires IsRun(r) && WellFormed(r.isa) && Matches(r, p) && StaleNow(r.isa, p)
    ensures IndexD(p) == IndexM(p) + 2
    ensures WrongNow(r.isa, p) <==> WrongRead(r, IndexM(p))
    ensures StrayNow(r.isa, p) <==> StrayRead(r, IndexM(p))
  {
    StaleIsStaleRead(r, p);
    StaleOperands(r, p);
  }

  /** Fetch read the word the sequential run reads. */
  lemma FetchMatches(r: Run, p: Pipe)
    requires IsRun(r) && Matches(r, p) && FetchStable(r, IndexF(p))
    requires CanAccess(p.mem, p.pc, 4) && p.pc == r.at(IndexF(p)).pc
    ensures FetchedWord(p) == FetchWord(r.at(IndexF(p)).mem, p.pc) && CanAccess(r.at(IndexF(p)).mem, p.pc, 4)
  {
    assert FetchSame(r, IndexM(p), IndexF(p));
    KeysKept(r, IndexF(p));
    KeysKept(r, IndexM(p));
    var m := r.at(IndexF(p)).mem;
    assert m.Keys == p.mem.Keys;
    forall x | p.pc <= x < p.pc + 4
      ensures x in m
    {
      assert x in p.mem.Keys;
    }
  }

  lemma DKept(r: Run, p: Pipe, q: Pipe)
    requires IsRun(r) && WellFormed(r.isa) && Matches(r, p) && Steps(r, p, q) && MatchE(r, q)
    requires Fetches(r.isa, p) ==> FetchStable(r, IndexF(p))
    ensures MatchD(r, q)
  {
    Indices(r, p, q);
    if Stall(r.isa, p) {
      StallHoldsFetch(r.isa, r.env, p, q);
    } else if q.dl.DFull? && !Squash(r.isa, q) {
      FetchedInOrder(r, p, q);
      FetchMatches(r, p);
    }
  }

  lemma EnteredE(isa: Isa, env: Env, p: Pipe, q: Pipe)
    requires Step(isa, env, p) == Next(q) && q.el.EFull?
    ensures p.dl.DFull? && isa.decode(p.dl.ival) == Some(q.el.d) && q.el.addr == p.dl.addr && q.el.predJ == p.dl.predJ
  {
  }

  /** An instruction that does not redirect was guessed to go where it goes. */
  lemma GuessedRight(r: Run, p: Pipe, q: Pipe)
    requires IsRun(r) && WellFormed(r.isa) && Shape(p) && Steps(r, p, q) && ValuesE(r, q) && TargetE(r, q)
    requires q.el.EFull? && !Squash(r.isa, q)
    ensures p.pc == r.at(IndexE(q) + 1).pc
  {
    var e := q.el;
    EnteredE(r.isa, r.env, p, q);
    GuessIsSuccessor(r.isa, e.d, p.dl.ival, e.addr, e.valA, e.valB, e.predJ);
    SuccessorInE(r, q);
  }

  /** The instruction in E goes where the sequential run goes. */
  lemma SuccessorInE(r: Run, q: Pipe)
    requires IsRun(r) && ValuesE(r, q) && TargetE(r, q) && q.el.EFull?
    ensures Successor(r.isa, q.el.d, q.el.addr, q.el.valA, q.el.valB) == r.at(IndexE(q) + 1).pc
  {
    SeqPC(r, IndexE(q));
  }

  /** The instruction fetched, unless about to be squashed, is the sequential run's next one. */
  lemma FetchedInOrder(r: Run, p: Pipe, q: Pipe)
    requires IsRun(r) && WellFormed(r.isa) && Matches(r, p) && Steps(r, p, q) && MatchE(r, q)
    requires Fetches(r.isa, p) && !Squash(r.isa, q)
    ensures q.dl == DFull(p.pc, FetchedWord(p), FetchedPrediction(p)) && IndexD(q) == IndexF(p)
    ensures p.pc == r.at(IndexF(p)).pc && CanAccess(p.mem, p.pc, 4)
  {
    Indices(r, p, q);
    if q.el.EFull? {
      GuessedRight(r, p, q);
    }
  }

  /** After a squash the fetch is at the successor of the instruction that caused it. */
  lemma PCAfterSquash(r: Run, p: Pipe, q: Pipe)
    requires IsRun(r) && Matches(r, p) && Steps(r, p, q) && Squash(r.isa, p)
    ensures q.pc == r.at(IndexF(q)).pc
  {
    SeqPC(r, IndexE(p));
  }

  /** A stall keeps the fetch address, and what is in D unless that moves on. */
  lemma StallHoldsFetch(isa: Isa, env: Env, p: Pipe, q: Pipe)
    requires Step(isa, env, p) == Next(q) && Shape(p) && Stall(isa, p)
    ensures q.pc == p.pc && IndexF(q) == IndexF(p)
    ensures if q.el.EFull? then p.dl.DFull? && q.dl.DEmpty? && EcallInD(isa, p) else q.dl == p.dl
  {
    StepIndices(isa, env, p, q);
  }

  lemma PCAfterStall(r: Run, p: Pipe, q: Pipe)
    requires IsRun(r) && WellFormed(r.isa) && Matches(r, p) && Steps(r, p, q) && MatchE(r, q) && Stall(r.isa, p)
    ensures MatchPC(r, q)
  {
    StallHoldsFetch(r.isa, r.env, p, q);
    if q.el.EFull? && !Squash(r.isa, q) {
      GuessedRight(r, p, q);
    }
  }

  lemma PCKept(r: Run, p: Pipe, q: Pipe)
    requires IsRun(r) && WellFormed(r.isa) && Matches(r, p) && Steps(r, p, q) && MatchE(r, q)
    ensures MatchPC(r, q)
  {
    if Squash(r.isa, p) {
      PCAfterSquash(r, p, q);
    } else if Stall(r.isa, p) {
      PCAfterStall(r, p, q);
    }
  }

  /** One cycle keeps the relation exactly when no stale operand leaving Decode matters. */
  lemma StepExact(r: Run, p: Pipe, q: Pipe)
    requires IsRun(r) && WellFormed(r.isa) && Matches(r, p) && Steps(r, p, q)
    requires Fetches(r.isa, p) ==> FetchStable(r, IndexF(p))
    ensures Matches(r, q) <==> !VisibleNow(r.isa, p)
  {
    EExact(r, p, q);
    if MatchE(r, q) {
      ShapeKept(r.isa, r.env, p);
      Indices(r, p, q);
      RegsKept(r, p);
      MemKept(r, p);
      WKept(r, p, q);
      MKept(r, p, q);
      DKept(r, p, q);
      PCKept(r, p, q);
    }
  }

  // ----- whole runs -----

  /** A pipeline run t of n cycles from the state in which the sequential run r starts. */
  ghost predicate RunsFrom(r: Run, t: nat -> Pipe, n: nat) {
    && IsRun(r) && WellFormed(r.isa) && Runs(r.isa, r.env, t, n)
    && t(0).pc == r.at(0).pc && t(0).regs == r.at(0).regs && t(0).mem == r.at(0).mem && r.at(0).ecalls == 0
  }

  lemma RunsFewer(r: Run, t: nat -> Pipe, m: nat, n: nat)
    requires RunsFrom(r, t, n) && m <= n
    ensures RunsFrom(r, t, m)
  {
  }

  lemma IndexStep(isa: Isa, env: Env, p: Pipe)
    requires Shape(p) && Step(isa, env, p).Next?
    ensures var q := Step(isa, env, p).p;
            IndexM(q) == IndexE(p) && IndexD(p) <= IndexD(q) <= IndexD(p) + 1 && IndexF(q) <= IndexF(p) + 1
  {
  }

  /** At most one instruction is fetched per cycle. */
  lemma {:induction false} FetchBound(r: Run, t: nat -> Pipe, n: nat)
    requires RunsFrom(r, t, n)
    ensures IndexF(t(n)) <= n
  {
    if n > 0 {
      FetchBound(r, t, n - 1);
      ShapeAlways(r.isa, r.env, t, n - 1);
      assert Stepped(r.isa, r.env, t, n - 1);
      IndexStep(r.isa, r.env, t(n - 1));
    }
  }

  lemma NextExact(r: Run, t: nat -> Pipe, n: nat)
    requires RunsFrom(r, t, n + 1) && Matches(r, t(n)) && FetchStableBelow(r, n + 1)
    ensures Matches(r, t(n + 1)) <==> !VisibleNow(r.isa, t(n))
  {
    FetchBound(r, t, n);
    assert Stepped(r.isa, r.env, t, n);
    StepExact(r, t(n), t(n + 1));
  }

  /** A visible difference completes a visible stale read among the first n + 1 instructions. */
  lemma VisibleWithin(r: Run, t: nat -> Pipe, n: nat)
    requires RunsFrom(r, t, n) && Matches(r, t(n)) && NoVisibleBefore(r, n + 1)
    ensures !VisibleNow(r.isa, t(n))
  {
    FetchBound(r, t, n);
    if VisibleNow(r.isa, t(n)) {
      VisibleIsStale(r.isa, t(n));
      VisibleIsVisibleRead(r, t(n));
      NotVisible(r, n + 1, IndexM(t(n)));
    }
  }

  /** Main theorem. Under any prediction scheme, for every program whose instruction words
      are fetch-stable and which has no visible stale read, every state of a pipeline run that has
      not stopped matches the sequential run. */
  lemma {:induction false} PipelineRefines(r: Run, t: nat -> Pipe, n: nat)
    requires RunsFrom(r, t, n) && FetchStableBelow(r, n) && NoVisibleBefore(r, n)
    ensures Matches(r, t(n))
  {
    if n > 0 {
      RunsFewer(r, t, n - 1, n);
      FetchStableFewer(r, n - 1, n);
      NoneFewer(Visible(r), n - 1, n);
      PipelineRefines(r, t, n - 1);
      VisibleWithin(r, t, n - 1);
      NextExact(r, t, n - 1);
    } else {
      StartMatches(r, t);
    }
  }

  lemma StartMatches(r: Run, t: nat -> Pipe)
    requires RunsFrom(r, t, 0)
    ensures Matches(r, t(0))
  {
  }
}
