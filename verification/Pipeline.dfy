/** One clock cycle of the five-stage pipeline as a function of its latched state.

    The program keeps bubble and stall flags and output registers that a cycle sets, clears
    and overrides in stage order; here a latch is either empty or full and a cycle says in
    one expression what each latch holds next. Class Machine (Machine.dfy) is the flag-level
    program, proved to compute exactly this function. */
module Pipeline {
  import opened Words
  import opened Isa
  import P = Predictor

  datatype DLatch = DEmpty | DFull(addr: Word, ival: nat, predJ: bool)

  datatype ELatch = EEmpty | EFull(addr: Word, d: Decoded, valA: Word, valB: Word, predJ: bool)

  datatype MLatch = MEmpty | MFull(addr: Word, d: Decoded, valB: Word, valE: Word)

  datatype WLatch = WEmpty | WFull(addr: Word, d: Decoded, valB: Word, valE: Word, valM: Word)

  datatype Stats = Stats(cycles: nat, instrCnt: nat, ecallNum: nat, controlHazard: nat, loadUseHazard: nat,
                         misPrediction: nat, sucPrediction: nat, fstall: nat)

  datatype Pipe = Pipe(pc: Word, dl: DLatch, el: ELatch, ml: MLatch, wl: WLatch,
                       regs: Regs, mem: Mem, pred: P.PredState, stats: Stats)

  /** How a cycle can end: a failed assertion aborts the program, the exit call halts it. */
  datatype Outcome = Next(p: Pipe) | Abort | Exit

  // ----- Fetch -----

  function FetchedWord(p: Pipe): nat {
    FetchWord(p.mem, p.pc)
  }

  predicate FetchedPrediction(p: Pipe) {
    Opcode(FetchedWord(p)) == 0x63 && P.Predict(p.pred, p.pc)
  }

  /** The next fetch address as Fetch guesses it: jumps are followed, branches predicted. */
  function Guess(w: nat, pc: Word, predJ: bool): Word {
    if Opcode(w) == 0x6f then Wrap(pc + ImmUJ(w))
    else if Opcode(w) == 0x63 && predJ then Wrap(pc + ImmSB(w))
    else Wrap(pc + 4)
  }

  function PredictedPC(p: Pipe): Word {
    Guess(FetchedWord(p), p.pc, P.Predict(p.pred, p.pc))
  }

  // ----- Decode -----

  function DecodedD(isa: Isa, p: Pipe): Option<Decoded> {
    if p.dl.DFull? then isa.decode(p.dl.ival) else None
  }

  predicate EcallInD(isa: Isa, p: Pipe) {
    DecodedD(isa, p).Some? && DecodedD(isa, p).value.name.Ecall?
  }

  // ----- Execute -----

  predicate EcallInE(p: Pipe) { p.el.EFull? && p.el.d.name.Ecall? }

  function ComputedE(isa: Isa, p: Pipe): Word
    requires p.el.EFull?
  {
    Compute(isa, p.el.d, p.el.addr, p.el.valA, p.el.valB)
  }

  /** A jump through a register always redirects the fetch; a branch does when mispredicted. */
  predicate Redirects(isa: Isa, d: Decoded, a: Word, b: Word, predJ: bool) {
    d.name.Jalr? || (d.kind.SBType? && predJ != isa.taken(d.name, a, b))
  }

  predicate Squash(isa: Isa, p: Pipe) {
    p.el.EFull? && Redirects(isa, p.el.d, p.el.valA, p.el.valB, p.el.predJ)
  }

  predicate Reads(d: Decoded, x: Reg) {
    d.srcA == x || d.srcB == x
  }

  predicate LoadUse(isa: Isa, p: Pipe) {
    p.el.EFull? && p.el.d.dstM != 0 && DecodedD(isa, p).Some? && Reads(DecodedD(isa, p).value, p.el.d.dstM)
  }

  // ----- MemStage -----

  predicate EcallInM(p: Pipe) { p.ml.MFull? && p.ml.d.name.Ecall? }

  function LoadedM(p: Pipe): Word
    requires p.ml.MFull?
  {
    MemRead(p.ml.d, p.mem, p.ml.valE)
  }

  predicate EcallInW(p: Pipe) { p.wl.WFull? && p.wl.d.name.Ecall? }

  // ----- forwarding -----

  /** The value of register x that leaves Decode: base from the register file unless a newer
      one is in flight. The load case of the memory stage does not ask whether a younger
      instruction has already supplied the value. */
  function Forwarded(isa: Isa, p: Pipe, x: Reg, base: Word): Word {
    var fromE := p.el.EFull? && p.el.d.dstE != 0 && p.el.d.dstE == x;
    var fromM := p.ml.MFull? && p.ml.d.dstE != 0 && p.ml.d.dstE == x;
    var fromL := p.ml.MFull? && p.ml.d.dstM != 0 && p.ml.d.dstM == x;
    if fromL then LoadedM(p)
    else if fromE then ComputedE(isa, p)
    else if fromM then p.ml.valE
    else if p.wl.WFull? && !p.wl.d.name.Ecall? && p.wl.d.dstM != 0 && p.wl.d.dstM == x then p.wl.valM
    else if p.wl.WFull? && !p.wl.d.name.Ecall? && p.wl.d.dstE != 0 && p.wl.d.dstE == x then p.wl.valE
    else base
  }

  /** The operands Decode reads from the register file. */
  function SourceA(regs: Regs, d: Decoded): Word {
    if d.kind.UType? || d.kind.UJType? then 0 else regs[d.srcA]
  }

  function SourceB(regs: Regs, d: Decoded): Word {
    if d.kind.RType? || d.kind.SType? || d.kind.SBType? then regs[d.srcB] else 0
  }

  // ----- the cycle -----

  /** The fetch stage repeats itself: its address is put back at the end of the cycle. */
  predicate Stall(isa: Isa, p: Pipe) {
    !Squash(isa, p) && (EcallInD(isa, p) || LoadUse(isa, p) || EcallInE(p) || EcallInM(p))
  }

  /** A word fetched in this cycle goes on to D. */
  predicate Fetches(isa: Isa, p: Pipe) {
    !Squash(isa, p) && !Stall(isa, p)
  }

  function NextPC(isa: Isa, p: Pipe): Word {
    if Squash(isa, p) then Successor(isa, p.el.d, p.el.addr, p.el.valA, p.el.valB)
    else if Stall(isa, p) then p.pc
    else PredictedPC(p)
  }

  function NextD(isa: Isa, p: Pipe): DLatch {
    if Squash(isa, p) then DEmpty
    else if LoadUse(isa, p) || EcallInE(p) || EcallInM(p) then p.dl
    else if EcallInD(isa, p) then DEmpty
    else DFull(p.pc, FetchedWord(p), FetchedPrediction(p))
  }

  function NextE(isa: Isa, p: Pipe): ELatch {
    if Squash(isa, p) || LoadUse(isa, p) || DecodedD(isa, p).None? then EEmpty
    else
      var d := DecodedD(isa, p).value;
      EFull(p.dl.addr, d, Forwarded(isa, p, d.srcA, SourceA(p.regs, d)), Forwarded(isa, p, d.srcB, SourceB(p.regs, d)),
            p.dl.predJ)
  }

  function NextM(isa: Isa, p: Pipe): MLatch {
    if p.el.EFull? then MFull(p.el.addr, p.el.d, p.el.valB, ComputedE(isa, p)) else MEmpty
  }

  function NextW(p: Pipe): WLatch {
    if p.ml.MFull? then WFull(p.ml.addr, p.ml.d, p.ml.valB, p.ml.valE, LoadedM(p)) else WEmpty
  }

  function NextRegs(env: Env, p: Pipe): Regs {
    if p.wl.WEmpty? then p.regs
    else if p.wl.d.name.Ecall? then SysRegs(env, p.regs, p.stats.ecallNum)
    else WriteRegs(p.regs, p.wl.d, p.wl.valE, p.wl.valM)
  }

  function NextMem(p: Pipe): Mem {
    if p.ml.MFull? then MemWrite(p.ml.d, p.mem, p.ml.valE, p.ml.valB) else p.mem
  }

  function NextPred(isa: Isa, p: Pipe): P.PredState {
    if p.el.EFull? && p.el.d.kind.SBType?
    then P.Update(p.pred, p.el.predJ == isa.taken(p.el.d.name, p.el.valA, p.el.valB), p.el.addr)
    else p.pred
  }

  function NextStats(isa: Isa, p: Pipe): Stats {
    var branch := p.el.EFull? && p.el.d.kind.SBType?;
    var s := p.stats;
    Stats(s.cycles + 1,
          s.instrCnt + Bit(p.wl.WFull? && !EcallInW(p)),
          s.ecallNum + Bit(EcallInW(p)),
          s.controlHazard + Bit(Squash(isa, p)),
          s.loadUseHazard + Bit(LoadUse(isa, p)),
          s.misPrediction + Bit(branch && Squash(isa, p)),
          s.sucPrediction + Bit(branch && !Squash(isa, p)),
          s.fstall + Bit(Stall(isa, p)))
  }

  /** An assertion of the simulator fails: unmapped or line-crossing fetch, unknown opcode
      (even on a path about to be squashed), or a faulting load or store. */
  predicate Aborts(isa: Isa, p: Pipe) {
    || !CanAccess(p.mem, p.pc, 4)
    || (p.dl.DFull? && isa.decode(p.dl.ival).None?)
    || (p.ml.MFull? && !MemOk(p.ml.d, p.mem, p.ml.valE))
    || (EcallInW(p) && SysUndefined(p.regs))
  }

  function Step(isa: Isa, env: Env, p: Pipe): Outcome {
    if Aborts(isa, p) then Abort
    else if EcallInW(p) && SysExits(p.regs) then Exit
    else Next(Pipe(NextPC(isa, p), NextD(isa, p), NextE(isa, p), NextM(isa, p), NextW(p),
                   NextRegs(env, p), NextMem(p), NextPred(isa, p), NextStats(isa, p)))
  }

  const NO_STATS := Stats(0, 0, 0, 0, 0, 0, 0, 0)

  /** The state in which Run enters its loop: empty latches, cleared counters; the predictor
      may hold anything. */
  predicate Initial(p: Pipe) {
    && p.dl.DEmpty? && p.el.EEmpty? && p.ml.MEmpty? && p.wl.WEmpty?
    && p.stats == NO_STATS && p.regs[0] == 0
  }

  /** t records the state at the start of each cycle; cycle k went through without stopping. */
  predicate Stepped(isa: Isa, env: Env, t: nat -> Pipe, k: nat) {
    Step(isa, env, t(k)) == Next(t(k + 1))
  }

  /** The machine starts in t(0) and is still going after n cycles. */
  ghost predicate Runs(isa: Isa, env: Env, t: nat -> Pipe, n: nat) {
    Initial(t(0)) && forall k: nat :: k < n ==> Stepped(isa, env, t, k)
  }

  /** A run and one more cycle. */
  lemma Extend(isa: Isa, env: Env, t: nat -> Pipe, n: nat, q: Pipe) returns (u: nat -> Pipe)
    requires Runs(isa, env, t, n) && Step(isa, env, t(n)) == Next(q)
    ensures Runs(isa, env, u, n + 1) && u(n + 1) == q && u(0) == t(0)
  {
    u := (j: nat) => if j == n + 1 then q else t(j);
    forall k: nat | k < n + 1
      ensures Stepped(isa, env, u, k)
    {
      if k < n {
        assert Stepped(isa, env, t, k);
      }
    }
  }

  // ----- the structural invariant -----

  /** What the latches of a reachable state have in common, whatever program runs:
      decoded fields are well formed, an empty D latch means E is empty or an ecall, an
      ecall drains the stages behind it, a load is never directly followed in the pipeline by
      an instruction that reads its target, and the fetch is where the instruction in D was
      guessed to go. */
  predicate Shape(p: Pipe) {
    && (p.el.EFull? ==> FieldsOk(p.el.d)) && (p.ml.MFull? ==> FieldsOk(p.ml.d)) && (p.wl.WFull? ==> FieldsOk(p.wl.d))
    && (p.dl.DEmpty? ==> p.el.EEmpty? || EcallInE(p))
    && (EcallInE(p) ==> p.dl.DEmpty?)
    && (EcallInM(p) ==> p.dl.DEmpty? && p.el.EEmpty?)
    && (EcallInW(p) ==> p.dl.DEmpty? && p.el.EEmpty? && p.ml.MEmpty?)
    && (p.el.EFull? && p.ml.MFull? && p.ml.d.dstM != 0 ==> !Reads(p.el.d, p.ml.d.dstM))
    && (p.dl.DFull? ==> p.pc == Guess(p.dl.ival, p.dl.addr, p.dl.predJ))
    && p.regs[0] == 0
  }

  predicate FieldsOk(d: Decoded) {
    && (d.kind.SBType? ==> d.dstE == 0 && !d.name.Jal? && !d.name.Jalr? && !d.name.Ecall? && !IsLoad(d.name))
    && (if IsLoad(d.name) then d.dstE == 0 else d.dstM == 0)
  }

  /** A guess that needs no correction is right. */
  lemma GuessIsSuccessor(isa: Isa, d: Decoded, w: nat, addr: Word, a: Word, b: Word, predJ: bool)
    requires WellFormed(isa) && isa.decode(w) == Some(d) && !Redirects(isa, d, a, b, predJ)
    ensures Guess(w, addr, predJ) == Successor(isa, d, addr, a, b)
  {
    assert DecodesOk(isa, w);
  }

  lemma ShapeKept(isa: Isa, env: Env, p: Pipe)
    requires WellFormed(isa) && Shape(p) && Step(isa, env, p).Next?
    ensures Shape(Step(isa, env, p).p)
  {
    var q := Step(isa, env, p).p;
    if p.dl.DFull? && isa.decode(p.dl.ival).Some? {
      assert DecodesOk(isa, p.dl.ival);
    }
    assert q.regs[0] == 0;
  }

  lemma {:induction false} ShapeAlways(isa: Isa, env: Env, t: nat -> Pipe, n: nat)
    requires WellFormed(isa) && Runs(isa, env, t, n)
    ensures Shape(t(n))
  {
    if n != 0 {
      ShapeAlways(isa, env, t, n - 1);
      assert Stepped(isa, env, t, n - 1);
      ShapeKept(isa, env, t(n - 1));
    }
  }
}
