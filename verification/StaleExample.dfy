/** A three-instruction program with a visible stale read:

        lw   x5, 64(x0)
        addi x5, x0, 7
        add  x6, x5, x0

    The interpreter leaves 7 in x6; the pipeline, in a run of seven cycles that exists for every
    prediction scheme, leaves the loaded 0. */
module StaleExample {
  import opened Words
  import opened Isa
  import opened Sequential
  import opened Pipeline
  import opened Refinement
  import opened Observed
  import P = Predictor

  const LW: nat := 0x04002283
  const ADDI: nat := 0x00700293
  const ADD: nat := 0x00028333

  const CODE: seq<Byte> := [0x83, 0x22, 0x00, 0x04, 0x93, 0x02, 0x70, 0x00, 0x33, 0x83, 0x02, 0x00]

  /** One page: the program at 0, zeros after it. */
  function Image(): Mem {
    map a: int | 0 <= a < 4096 :: if a < |CODE| then CODE[a] else 0
  }

  const ZERO_REGS: Regs :=
    [0, 0, 0, 0, 0, 0, 0, 0, 0, 0, 0, 0, 0, 0, 0, 0, 0, 0, 0, 0, 0, 0, 0, 0, 0, 0, 0, 0, 0, 0, 0, 0]

  lemma LoadFour(mem: Mem, a: int, b0: Byte, b1: Byte, b2: Byte, b3: Byte)
    requires a in mem && a + 1 in mem && a + 2 in mem && a + 3 in mem
    requires mem[a] == b0 && mem[a + 1] == b1 && mem[a + 2] == b2 && mem[a + 3] == b3
    ensures LoadBytes(mem, a, 4) == b0 as int + 0x100 * b1 as int + 0x10000 * b2 as int + 0x1000000 * b3 as int
  {
    assert LoadBytes(mem, a + 3, 1) == b3 as int;
    assert LoadBytes(mem, a + 2, 2) == b2 as int + 0x100 * b3 as int;
    assert LoadBytes(mem, a + 1, 3) == b1 as int + 0x100 * b2 as int + 0x10000 * b3 as int;
  }

  /** The words of the program in the image, little-endian. */
  lemma LwInImage()
    ensures FetchWord(Image(), 0) == LW
  {
    LoadFour(Image(), 0, 0x83, 0x22, 0x00, 0x04);
  }

  lemma AddiInImage()
    ensures FetchWord(Image(), 4) == ADDI
  {
    LoadFour(Image(), 4, 0x93, 0x02, 0x70, 0x00);
  }

  lemma AddInImage()
    ensures FetchWord(Image(), 8) == ADD
  {
    LoadFour(Image(), 8, 0x33, 0x83, 0x02, 0x00);
  }

  lemma DataInImage()
    ensures LoadBytes(Image(), 64, 4) == 0
  {
    LoadFour(Image(), 64, 0, 0, 0, 0);
  }

  lemma DecodeLw()
    ensures Decode(LW) == Some(D0)
  {
  }

  lemma DecodeAddi()
    ensures Decode(ADDI) == Some(D1)
  {
  }

  lemma DecodeAdd()
    ensures Decode(ADD) == Some(D2)
  {
  }

  /** The simulator's decoder and addition; the rest of the arithmetic unit is arbitrary. */
  ghost predicate Riscv(isa: Isa) {
    && (forall w: nat :: DecodesAs(isa, w))
    && (forall addr: Word, a: Word, b: Word, imm: int :: isa.alu(Addi, addr, a, b, imm) == Wrap(a + imm))
    && (forall addr: Word, a: Word, b: Word, imm: int :: isa.alu(Add, addr, a, b, imm) == Wrap(a + b))
  }

  predicate DecodesAs(isa: Isa, w: nat) {
    isa.decode(w) == Decode(w)
  }

  const D0 := Decoded(Lw, IType, 0, 0, 64, 0, 5)
  const D1 := Decoded(Addi, IType, 0, 0, 7, 5, 0)
  const D2 := Decoded(Add, RType, 5, 0, 0, 6, 0)

  predicate StartsProgram(r: Run) {
    r.at(0) == Seq(0, ZERO_REGS, Image(), 0)
  }

  lemma FirstDecoded(r: Run)
    requires StartsProgram(r) && Riscv(r.isa)
    ensures DecodeAt(r.isa, r.at(0)) == D0
  {
    DecodeLw();
    LwInImage();
    assert DecodesAs(r.isa, LW);
  }

  lemma FirstLoads(r: Run)
    requires StartsProgram(r) && DecodeAt(r.isa, r.at(0)) == D0
    ensures ValE(r.isa, r.at(0)) == 64 && ValM(r.isa, r.at(0)) == 0
  {
    LoadsZero();
    AddressOfLoad(r.isa, 0);
  }

  lemma AddressOfLoad(isa: Isa, valB: Word)
    ensures Compute(isa, D0, 0, 0, valB) == 64
  {
  }

  lemma LoadsZero()
    ensures MemRead(D0, Image(), 64) == 0
  {
    DataInImage();
  }

  lemma First(r: Run)
    requires IsRun(r) && StartsProgram(r) && DecodeAt(r.isa, r.at(0)) == D0
    ensures r.at(1).pc == 4 && r.at(1).mem == Image()
  {
    SeqPC(r, 0);
    SeqMem(r, 0);
  }

  lemma Second(r: Run)
    requires IsRun(r) && r.at(1).pc == 4 && r.at(1).mem == Image() && Riscv(r.isa)
    ensures DecodeAt(r.isa, r.at(1)) == D1 && ValE(r.isa, r.at(1)) == 7
    ensures r.at(2).pc == 8 && r.at(2).mem == Image() && r.at(2).regs[5] == 7 && r.at(2).regs[0] == 0
  {
    DecodeAddi();
    AddiInImage();
    assert DecodesAs(r.isa, ADDI);
    ZeroStaysZero(r, 1);
    ZeroStaysZero(r, 2);
    SeqPC(r, 1);
    SeqMem(r, 1);
    SeqRegs(r, 1);
  }

  lemma Third(r: Run)
    requires IsRun(r) && r.at(2).pc == 8 && r.at(2).mem == Image() && r.at(2).regs[5] == 7 && r.at(2).regs[0] == 0
    requires Riscv(r.isa)
    ensures DecodeAt(r.isa, r.at(2)) == D2 && ValE(r.isa, r.at(2)) == 7 && r.at(3).regs[6] == 7
  {
    DecodeAdd();
    AddInImage();
    assert DecodesAs(r.isa, ADD);
    SeqRegs(r, 2);
  }

  /** The triple is a stale read, and its reader computes something else for it: the
      interpreter's x6 is 7. */
  lemma StaleProgram(r: Run)
    requires IsRun(r) && StartsProgram(r) && Riscv(r.isa)
    ensures StaleRead(r, 0) && WrongRead(r, 0) && r.at(3).regs[6] == 7
  {
    FirstDecoded(r);
    FirstLoads(r);
    First(r);
    Second(r);
    Third(r);
  }

  // ----- the pipeline, cycle by cycle -----

  /** The state in which the pipeline starts the program, under any predictor. */
  function Start(pred: P.PredState): Pipe {
    Pipe(0, DEmpty, EEmpty, MEmpty, WEmpty, ZERO_REGS, Image(), pred, NO_STATS)
  }

  const D3 := Decoded(Nop, RType, 0, 0, 0, 0, 0)

  lemma NopInImage()
    ensures FetchWord(Image(), 12) == 0 && FetchWord(Image(), 16) == 0 && FetchWord(Image(), 20) == 0
      && FetchWord(Image(), 24) == 0
  {
    LoadFour(Image(), 12, 0, 0, 0, 0);
    LoadFour(Image(), 16, 0, 0, 0, 0);
    LoadFour(Image(), 20, 0, 0, 0, 0);
    LoadFour(Image(), 24, 0, 0, 0, 0);
  }

  lemma DecodeNop()
    ensures Decode(0) == Some(D3)
  {
  }

  /** What the latches and the three registers of the program hold after k cycles. */
  predicate After(p: Pipe, k: nat)
    requires k <= 7
  {
    && p.mem == Image() && p.pc == 4 * k && p.regs[0] == 0
    && p.regs[5] == (if k >= 6 then 7 else 0) && (k == 7 ==> p.regs[6] == 0)
    && Retired(p) == (if k <= 4 then 0 else k - 4)
    && (if k == 0 then p.dl.DEmpty? else p.dl == DFull(4 * (k - 1), Code(k - 1), false))
    && (if k <= 1 then p.el.EEmpty? else InE(p.el, k - 2))
    && (if k <= 2 then p.ml.MEmpty? else InM(p.ml, k - 3))
    && (if k <= 3 then p.wl.WEmpty? else InW(p.wl, k - 4))
  }

  function Code(i: nat): nat {
    if i == 0 then LW else if i == 1 then ADDI else if i == 2 then ADD else 0
  }

  function Instr(i: nat): Decoded {
    if i == 0 then D0 else if i == 1 then D1 else if i == 2 then D2 else D3
  }

  predicate InE(l: ELatch, i: nat) {
    l.EFull? && l.addr == 4 * i && l.d == Instr(i) && (i <= 2 ==> l.valA == 0 && l.valB == 0)
  }

  predicate InM(l: MLatch, i: nat) {
    l.MFull? && l.addr == 4 * i && l.d == Instr(i) && (i <= 2 ==> l.valE == [64, 7, 0][i])
  }

  predicate InW(l: WLatch, i: nat) {
    l.WFull? && l.addr == 4 * i && l.d == Instr(i) && (i <= 2 ==> l.valE == [64, 7, 0][i] && l.valM == 0)
  }

  lemma CodeInImage(k: nat)
    requires k < 7
    ensures FetchWord(Image(), 4 * k) == Code(k)
  {
    if k == 0 {
      LwInImage();
    } else if k == 1 {
      AddiInImage();
    } else if k == 2 {
      AddInImage();
    } else {
      NopInImage();
    }
  }

  lemma CodeFetchable(k: nat)
    requires k < 7
    ensures CanAccess(Image(), 4 * k, 4) && Opcode(Code(k)) != 0x63 && Opcode(Code(k)) != 0x6f
  {
  }

  lemma CodeDecodes(isa: Isa, k: nat)
    requires Riscv(isa)
    ensures isa.decode(Code(k)) == Some(Instr(k))
  {
    assert DecodesAs(isa, Code(k));
    DecodeLw();
    DecodeAddi();
    DecodeAdd();
    DecodeNop();
  }

  lemma Computes(isa: Isa, l: ELatch, i: nat)
    requires Riscv(isa) && InE(l, i) && i <= 2
    ensures Compute(isa, l.d, l.addr, l.valA, l.valB) == [64, 7, 0][i]
  {
  }

  /** What E is handed: in cycle 3 the reader gets the loaded 0 for x5, not the 7 being computed. */
  lemma Operands(isa: Isa, p: Pipe, k: nat)
    requires Riscv(isa) && 1 <= k < 7 && After(p, k)
    ensures InE(NextE(isa, p), k - 1)
  {
    CodeDecodes(isa, k - 1);
    if k == 3 {
      DataInImage();
    }
  }

  lemma NotStopped(isa: Isa, env: Env, p: Pipe, k: nat)
    requires Riscv(isa) && k < 7 && After(p, k)
    ensures Step(isa, env, p).Next? && !Squash(isa, p) && !Stall(isa, p)
  {
    CodeFetchable(k);
    if k > 0 {
      CodeDecodes(isa, k - 1);
    }
  }

  lemma FetchOf(isa: Isa, p: Pipe, k: nat)
    requires Riscv(isa) && k < 7 && After(p, k) && !Squash(isa, p) && !Stall(isa, p)
    ensures NextPC(isa, p) == 4 * (k + 1) && NextD(isa, p) == DFull(4 * k, Code(k), false)
  {
    CodeInImage(k);
    CodeFetchable(k);
  }

  lemma BackOf(isa: Isa, env: Env, p: Pipe, k: nat)
    requires Riscv(isa) && k < 7 && After(p, k)
    ensures if k <= 1 then NextM(isa, p).MEmpty? else InM(NextM(isa, p), k - 2)
    ensures if k <= 2 then NextW(p).WEmpty? else InW(NextW(p), k - 3)
    ensures NextMem(p) == Image()
  {
    if 2 <= k <= 4 {
      Computes(isa, p.el, k - 2);
    }
    if k == 3 {
      DataInImage();
    }
  }

  lemma CycleOf(isa: Isa, env: Env, p: Pipe, k: nat)
    requires Riscv(isa) && k < 7 && After(p, k)
    ensures Step(isa, env, p).Next? && After(Step(isa, env, p).p, k + 1)
  {
    NotStopped(isa, env, p, k);
    FetchOf(isa, p, k);
    if k >= 1 {
      Operands(isa, p, k);
    }
    BackOf(isa, env, p, k);
  }

  function TraceFrom(isa: Isa, env: Env, p: Pipe, k: nat): Pipe {
    if k == 0 then p else
      match Step(isa, env, TraceFrom(isa, env, p, k - 1))
      case Next(q) => q
      case Abort => p
      case Exit => p
  }

  lemma TraceOn(isa: Isa, env: Env, p: Pipe, k: nat)
    requires Riscv(isa) && k < 7 && After(TraceFrom(isa, env, p, k), k)
    ensures After(TraceFrom(isa, env, p, k + 1), k + 1)
    ensures Step(isa, env, TraceFrom(isa, env, p, k)) == Next(TraceFrom(isa, env, p, k + 1))
  {
    CycleOf(isa, env, TraceFrom(isa, env, p, k), k);
  }

  lemma StartsAfter(pred: P.PredState)
    ensures After(Start(pred), 0) && Initial(Start(pred))
  {
  }

  lemma TraceAfter(isa: Isa, env: Env, p: Pipe, k: nat)
    requires Riscv(isa) && k <= 7 && After(p, 0)
    ensures After(TraceFrom(isa, env, p, k), k)
  {
    for m := 0 to k
      invariant After(TraceFrom(isa, env, p, m), m)
    {
      TraceOn(isa, env, p, m);
    }
  }

  /** The run of seven cycles that the pipeline makes of the program. */
  lemma SevenCycles(isa: Isa, env: Env, p: Pipe) returns (t: nat -> Pipe)
    requires Riscv(isa) && After(p, 0) && Initial(p)
    ensures Runs(isa, env, t, 7) && t(0) == p && After(t(7), 7)
  {
    t := (k: nat) => TraceFrom(isa, env, p, k);
    forall k: nat | k < 7
      ensures Stepped(isa, env, t, k)
    {
      TraceAfter(isa, env, p, k);
      TraceOn(isa, env, p, k);
    }
    TraceAfter(isa, env, p, 7);
  }

  lemma AfterSeven(p: Pipe)
    requires After(p, 7)
    ensures p.regs[6] == 0 && Retired(p) == 3
  {
  }

  lemma FromStart(r: Run, t: nat -> Pipe, pred: P.PredState)
    requires IsRun(r) && WellFormed(r.isa) && StartsProgram(r) && t(0) == Start(pred) && Runs(r.isa, r.env, t, 7)
    ensures RunsFrom(r, t, 7)
  {
  }

  lemma RegistersDiffer(r: Run, t: nat -> Pipe)
    requires t(7).regs[6] == 0 && Retired(t(7)) == 3 && r.at(3).regs[6] == 7
    ensures !ObservedAt(r, t, 7)
  {
  }

  lemma SevenIsWrong(r: Run, pred: P.PredState) returns (t: nat -> Pipe)
    requires IsRun(r) && WellFormed(r.isa) && StartsProgram(r) && Riscv(r.isa) && r.at(3).regs[6] == 7
    ensures RunsFrom(r, t, 7) && t(0) == Start(pred) && t(7).regs[6] == 0 && Retired(t(7)) == 3 && !ObservedAt(r, t, 7)
  {
    StartsAfter(pred);
    t := SevenCycles(r.isa, r.env, Start(pred));
    AfterSeven(t(7));
    FromStart(r, t, pred);
    RegistersDiffer(r, t);
  }

  /** Under every prediction scheme the pipeline runs the program, and after seven cycles x6 is 0
      where the interpreter has 7. */
  lemma StaleProgramGoesWrong(isa: Isa, env: Env, pred: P.PredState) returns (r: Run, t: nat -> Pipe)
    requires WellFormed(isa) && Riscv(isa)
    ensures IsRun(r) && r.isa == isa && StartsProgram(r) && RunsFrom(r, t, 7) && t(0) == Start(pred)
    ensures Retired(t(7)) == 3 && t(7).regs[6] == 0 && r.at(3).regs[6] == 7 && !ObservedAt(r, t, 7)
  {
    RunExists(isa, env, Seq(0, ZERO_REGS, Image(), 0));
    r :| IsRun(r) && r.isa == isa && r.env == env && r.at(0) == Seq(0, ZERO_REGS, Image(), 0);
    StaleProgram(r);
    t := SevenIsWrong(r, pred);
  }

  function Adder(name: Name, addr: Word, a: Word, b: Word, imm: int): Word {
    if name == Add then Wrap(a + b) else Wrap(a + imm)
  }

  predicate Never(name: Name, a: Word, b: Word) {
    false
  }

  /** Such instruction sets exist: the simulator's decoder with any arithmetic unit that adds. */
  lemma RiscvExists()
    ensures exists isa: Isa :: WellFormed(isa) && Riscv(isa)
  {
    var isa := Isa((w: nat) => Decode(w), Adder, Never);
    RiscvIsWellFormed(Adder, Never);
    assert forall w: nat :: DecodesAs(isa, w);
    assert Riscv(isa);
  }
}
