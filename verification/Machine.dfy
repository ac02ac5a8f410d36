/** The simulator's machine object: pipeline registers with bubble and stall flags, output
    registers, forwarding flags and counters, mutated stage by stage within a cycle.

    Cycle is proved to compute Pipeline.Step. Fields the program never initialises (the decoded
    part of an empty decode register) are arbitrary here too. */
module Machine {
  import opened Words
  import opened Isa
  import opened Pipeline
  import P = Predictor

  /** A pipeline register. The decoded fields srcA, srcB, imm, dstE and dstM are those of d. */
  datatype PipReg = PipReg(addr: Word, ival: nat, d: Decoded, valA: Word, valB: Word, valE: Word, valM: Word,
                           predJ: bool, bubble: bool, stall: bool)

  datatype CycleEnd = Running | Aborted | Halted

  class Machine {
    const isa: Isa
    const env: Env
    const registers: array<Word>
    const pred: P.BranchPredictor
    var mem: Mem
    var pc: Word
    var predPC: Word
    var forwardA: bool
    var forwardB: bool
    var FReg: PipReg
    var DReg: PipReg
    var DRegO: PipReg
    var EReg: PipReg
    var ERegO: PipReg
    var MReg: PipReg
    var MRegO: PipReg
    var WReg: PipReg
    var WRegO: PipReg
    var stats: Stats

    ghost predicate Separate()
    {
      && pred.Valid() && registers.Length == 32
      && registers as object != pred.bitBuf && registers as object != pred.saHis
      && pred.bitBuf as object != pred.saHis
    }

    ghost function Regs(): Regs
      reads this, registers
      requires registers.Length == 32
    {
      registers[..]
    }

    /** The latched state at the start of a cycle, without the flags. */
    ghost function Latched(): Pipe
      reads this, registers, pred, pred.bitBuf, pred.saBuf, pred.saHis
      requires Separate()
    {
      Pipe(predPC, DOf(DReg), EOf(EReg), MOf(MReg), WOf(WReg),
           Regs(), mem, pred.State(), stats)
    }

    /** The fetch address and the registers whose flags steer the cycle. */
    ghost function Controls(): Controls
      reads this
    {
      Ctl(pc, predPC, FReg, DReg, DRegO, EReg, MReg, MRegO, WReg)
    }

    /** No stall, no empty fetch, nothing forwarded yet. */
    ghost predicate Unflagged()
      reads this
    {
      && !FReg.bubble && !FReg.stall && !DReg.stall && !EReg.stall && !MReg.stall && !WReg.stall
      && !forwardA && !forwardB
    }

    /** Holds between cycles. */
    ghost predicate Valid()
      reads this, registers, pred, pred.bitBuf, pred.saBuf, pred.saHis
    {
      && Separate() && WellFormed(isa)
      && Unflagged()
      && (!EReg.bubble ==> isa.decode(EReg.ival) == Some(EReg.d))
      && Shape(Latched())
    }

    /** The machine as Run enters its loop: a loaded image, the entry address, the stack
        pointer at the top of the stack, a prediction scheme, and pipeline registers whose fields hold anything. */
    constructor (isa: Isa, env: Env, mem: Mem, entry: Word, scheme: P.Scheme, junk: PipReg)
      requires WellFormed(isa)
      ensures Valid() && fresh(registers) && fresh(pred) && fresh(pred.bitBuf) && fresh(pred.saBuf) && fresh(pred.saHis)
      ensures this.isa == isa && this.env == env && Initial(Latched())
      ensures Latched().pc == entry && Latched().mem == mem && Latched().pred == P.Fresh(scheme)
      ensures forall i | 0 <= i < 32 :: Latched().regs[i] == if i == 2 then 0x8000_0000 else 0
    {
      this.isa, this.env, this.mem := isa, env, mem;
      registers := new Word[32](_ => 0);
      pred := new P.BranchPredictor();
      pc, predPC := entry, entry;
      forwardA, forwardB := false, false;
      FReg := junk.(bubble := false, stall := false);
      var empty := junk.(bubble := true, stall := false);
      DReg, EReg, MReg, WReg := empty, empty, empty, empty;
      DRegO, ERegO, MRegO, WRegO := junk, junk, junk, junk;
      stats := NO_STATS;
      new;
      registers[SP] := STACK_TOP;
      pred.SetScheme(scheme);
    }

    /** Moves the fetch on: along a jump, along a branch as predicted, or to the next word. */
    method AdvancePC(ival: nat)
      requires Separate() && predPC == pc
      modifies this`DRegO, this`predPC
      ensures predPC == Guess(ival, pc, P.Predict(pred.State(), pc))
      ensures DRegO
        == old(DRegO).(predJ := if Opcode(ival) == 0x63 then P.Predict(pred.State(), pc) else old(DRegO.predJ))
    {
      if Opcode(ival) == 0x6f {
        predPC := Wrap(predPC + ImmUJ(ival));
      } else if Opcode(ival) == 0x63 {
        var taken := pred.PredictAt(pc);
        if taken {
          predPC := Wrap(pc + ImmSB(ival));
          DRegO := DRegO.(predJ := true);
        } else {
          predPC := Wrap(predPC + 4);
          DRegO := DRegO.(predJ := false);
        }
      } else {
        predPC := Wrap(predPC + 4);
      }
    }

    /** The fetch address is translated and read through the cache, or an assertion fails. */
    method Fetch() returns (ok: bool)
      requires Separate()
      modifies this`DRegO, this`predPC, this`pc
      ensures FReg.bubble ==>
        ok && DRegO == old(DRegO).(bubble := true, stall := false) && predPC == old(predPC) && pc == old(pc)
      ensures !FReg.bubble ==> (ok <==> CanAccess(mem, old(predPC), 4))
      ensures ok && !FReg.bubble ==>
        var w := FetchWord(mem, old(predPC));
        && pc == old(predPC) && predPC == Guess(w, pc, P.Predict(pred.State(), pc))
        && DRegO == old(DRegO).(addr := pc, ival := w, bubble := false, stall := false, predJ := DRegO.predJ)
        && (Opcode(w) == 0x63 ==> DRegO.predJ == P.Predict(pred.State(), pc))
    {
      if FReg.bubble {
        DRegO := DRegO.(bubble := true, stall := false);
        return true;
      }
      if !CanAccess(mem, predPC, 4) {
        return false;
      }
      var ival := FetchWord(mem, predPC);
      pc := predPC;
      AdvancePC(ival);
      DRegO := DRegO.(addr := pc, ival := ival, bubble := false, stall := false);
      return true;
    }

    /** Reads registers and drains the fetch behind an ecall. */
    method Decode() returns (ok: bool)
      requires Separate()
      modifies this`ERegO, this`FReg, this`DRegO
      ensures ok <==> DReg.bubble || DReg.stall || isa.decode(DReg.ival).Some?
      ensures ok ==> ERegO == FromDecode(isa, DReg, Regs())
      ensures ok ==> FReg == HeldBack(old(FReg), false, EcallIn(isa, DReg))
      ensures ok ==> DRegO == Blocked(old(DRegO), false, EcallIn(isa, DReg))
    {
      ERegO := DReg.(bubble := false, stall := false);
      if DReg.bubble {
        ERegO := ERegO.(stall := false, bubble := true);
        return true;
      }
      if DReg.stall {
        ERegO := ERegO.(stall := false, bubble := true);
        return true;
      }
      var decoded := isa.decode(DReg.ival);
      if decoded.None? {
        return false;
      }
      var d := decoded.value;
      var vA, vB: Word := 0, 0;
      match d.kind {
        case RType => vA := registers[d.srcA]; vB := registers[d.srcB];
        case IType => vA := registers[d.srcA];
        case SType => vA := registers[d.srcA]; vB := registers[d.srcB];
        case SBType => vA := registers[d.srcA]; vB := registers[d.srcB];
        case UType =>
        case UJType =>
      }
      if d.name.Ecall? {
        FReg := FReg.(stall := true);
        DRegO := DRegO.(bubble := true);
      }
      ERegO := ERegO.(d := d, valA := vA, valB := vB, stall := false, bubble := false);
      return true;
    }

    /** Restarts the fetch at target and empties the two younger stages. */
    method Redirect(target: Word)
      modifies this`predPC, this`FReg, this`DRegO, this`DReg, this`ERegO, this`stats
      ensures predPC == target && FReg == Emptied(old(FReg), false, true)
      ensures DRegO == Emptied(old(DRegO), true, true) && DReg == Emptied(old(DReg), true, true)
      ensures ERegO == Emptied(old(ERegO), true, true)
      ensures stats == old(stats).(controlHazard := old(stats).controlHazard + 1)
    {
      predPC := target;
      FReg := FReg.(stall := false, bubble := false);
      DRegO := DRegO.(bubble := true, stall := false);
      DReg := DReg.(bubble := true, stall := false);
      ERegO := ERegO.(bubble := true, stall := false);
      stats := stats.(controlHazard := stats.controlHazard + 1);
    }

    /** Resolves the jump or branch in E against the fetch's guess. */
    method Resolve(vE: Word)
      requires Separate() && Live(EReg) && FieldsOk(EReg.d)
        && vE == Compute(isa, EReg.d, EReg.addr, EReg.valA, EReg.valB)
      modifies this`predPC, this`FReg, this`DRegO, this`DReg, this`ERegO, this`stats,
               pred.bitBuf, pred.saBuf, pred.saHis
      ensures predPC == if Squashes(isa, EReg) then Successor(isa, EReg.d, EReg.addr, EReg.valA, EReg.valB)
                        else old(predPC)
      ensures FReg == Emptied(old(FReg), false, Squashes(isa, EReg))
        && DRegO == Emptied(old(DRegO), true, Squashes(isa, EReg))
      ensures DReg == Emptied(old(DReg), true, Squashes(isa, EReg))
        && ERegO == Emptied(old(ERegO), true, Squashes(isa, EReg))
      ensures stats == Resolved(isa, EReg, old(stats)) && pred.State() == Trained(isa, EReg, old(pred.State()))
    {
      var d := EReg.d;
      if d.name.Jalr? {
        var target := Wrap(EReg.valA + d.imm);
        Redirect(target - target % 2);
      }
      if d.kind.SBType? {
        var taken := vE != 0;
        if EReg.predJ != taken {
          Redirect(if taken then Wrap(EReg.addr + d.imm) else Wrap(EReg.addr + 4));
          stats := stats.(misPrediction := stats.misPrediction + 1);
        } else {
          stats := stats.(sucPrediction := stats.sucPrediction + 1);
        }
        pred.UpdateAt(EReg.predJ == taken, EReg.addr);
      }
    }

    /** Forwards the result of the instruction in E to the one leaving Decode. */
    method ForwardE(vE: Word)
      modifies this`ERegO, this`forwardA, this`forwardB
      ensures ERegO == Supplied(old(ERegO), EReg.d.dstE, vE, false, false)
      ensures forwardA == (old(forwardA) || Wanted(EReg.d.dstE, old(ERegO).d.srcA))
      ensures forwardB == (old(forwardB) || Wanted(EReg.d.dstE, old(ERegO).d.srcB))
    {
      if EReg.d.dstE != 0 {
        if EReg.d.dstE == ERegO.d.srcA {
          ERegO := ERegO.(valA := vE);
          forwardA := true;
        }
        if EReg.d.dstE == ERegO.d.srcB {
          ERegO := ERegO.(valB := vE);
          forwardB := true;
        }
      }
    }

    /** Holds Fetch and Decode back behind a load whose value is not there yet, or an ecall. */
    method Interlock()
      requires Live(EReg)
      modifies this`FReg, this`DReg, this`ERegO, this`stats
      ensures FReg == HeldBack(old(FReg), Uses(EReg, old(ERegO).d), Drains(EReg))
      ensures DReg == HeldBack(old(DReg), Uses(EReg, old(ERegO).d), Drains(EReg))
      ensures ERegO == Blocked(old(ERegO), Uses(EReg, old(ERegO).d), Drains(EReg))
      ensures stats == old(stats).(loadUseHazard := old(stats).loadUseHazard + Bit(Uses(EReg, old(ERegO).d)))
    {
      if EReg.d.dstM != 0 {
        if ERegO.d.srcA == EReg.d.dstM || ERegO.d.srcB == EReg.d.dstM {
          FReg := FReg.(stall := true, bubble := false);
          DReg := DReg.(stall := true, bubble := false);
          ERegO := ERegO.(bubble := true, stall := false);
          stats := stats.(loadUseHazard := stats.loadUseHazard + 1);
        }
      }
      if EReg.d.name.Ecall? {
        FReg := FReg.(stall := true);
        DReg := DReg.(stall := true);
        ERegO := ERegO.(bubble := true);
      }
    }

    /** What Execute does to everything but the predictor. */
    twostate predicate Executed()
      reads this
    {
      var e, eo := EReg, old(ERegO);
      && MRegO == Operated(isa, e, old(MRegO))
      && predPC == (if Squashes(isa, e) then Successor(isa, e.d, e.addr, e.valA, e.valB) else old(predPC))
      && FReg == HeldBack(Emptied(old(FReg), false, Squashes(isa, e)), Uses(e, eo.d), Drains(e))
      && DRegO == Emptied(old(DRegO), true, Squashes(isa, e))
      && DReg == HeldBack(Emptied(old(DReg), true, Squashes(isa, e)), Uses(e, eo.d), Drains(e))
      && ERegO == FromExecute(isa, e, eo)
      && forwardA == (old(forwardA) || GivesE(e, eo.d.srcA))
      && forwardB == (old(forwardB) || GivesE(e, eo.d.srcB))
      && stats == Resolved(isa, e, old(stats)).(loadUseHazard := old(stats).loadUseHazard + Bit(Uses(e, eo.d)))
    }

    /** The execute stage for an instruction: compute, resolve, forward, interlock. */
    method Operate()
      requires Separate() && Live(EReg) && FieldsOk(EReg.d)
      modifies this`MRegO, this`predPC, this`FReg, this`DRegO, this`DReg, this`ERegO, this`forwardA, this`forwardB,
               this`stats, pred.bitBuf, pred.saBuf, pred.saHis
      ensures Executed() && pred.State() == Trained(isa, EReg, old(pred.State()))
    {
      var vE := Compute(isa, EReg.d, EReg.addr, EReg.valA, EReg.valB);
      Resolve(vE);
      ForwardE(vE);
      Interlock();
      MRegO := EReg.(valE := vE);
    }

    /** Computes, resolves branches and jumps, forwards, and detects load-use and ecall; a
        bubble passes through. */
    method Execute()
      requires Separate() && (Live(EReg) ==> FieldsOk(EReg.d))
      modifies this`MRegO, this`predPC, this`FReg, this`DRegO, this`DReg, this`ERegO, this`forwardA, this`forwardB,
               this`stats, pred.bitBuf, pred.saBuf, pred.saHis
      ensures Executed() && pred.State() == Trained(isa, EReg, old(pred.State()))
    {
      if EReg.bubble || EReg.stall {
        MRegO := MRegO.(stall := false, bubble := true);
      } else {
        Operate();
      }
    }

    /** Forwards a computed result from M where E did not. */
    method ForwardM()
      modifies this`ERegO, this`forwardA, this`forwardB
      ensures ERegO == Supplied(old(ERegO), MReg.d.dstE, MReg.valE, old(forwardA), old(forwardB))
      ensures forwardA == (old(forwardA) || Wanted(MReg.d.dstE, old(ERegO).d.srcA))
      ensures forwardB == (old(forwardB) || Wanted(MReg.d.dstE, old(ERegO).d.srcB))
    {
      if MReg.d.dstE != 0 {
        if ERegO.d.srcA == MReg.d.dstE && !forwardA {
          ERegO := ERegO.(valA := MReg.valE);
          forwardA := true;
        }
        if ERegO.d.srcB == MReg.d.dstE && !forwardB {
          ERegO := ERegO.(valB := MReg.valE);
          forwardB := true;
        }
      }
    }

    /** Forwards a loaded value from M, whether or not E already supplied a newer one. */
    method ForwardLoad(vM: Word)
      modifies this`ERegO, this`forwardA, this`forwardB
      ensures ERegO == Supplied(old(ERegO), MReg.d.dstM, vM, false, false)
      ensures forwardA == (old(forwardA) || Wanted(MReg.d.dstM, old(ERegO).d.srcA))
      ensures forwardB == (old(forwardB) || Wanted(MReg.d.dstM, old(ERegO).d.srcB))
    {
      if MReg.d.dstM != 0 {
        if ERegO.d.srcA == MReg.d.dstM {
          ERegO := ERegO.(valA := vM);
          forwardA := true;
        }
        if ERegO.d.srcB == MReg.d.dstM {
          ERegO := ERegO.(valB := vM);
          forwardB := true;
        }
      }
    }

    /** Accesses memory, forwards, and drains the pipeline behind an ecall. */
    method MemStage() returns (ok: bool)
      modifies this`WRegO, this`mem, this`ERegO, this`forwardA, this`forwardB, this`FReg, this`DReg,
               this`EReg, this`MRegO
      ensures ok <==> (Live(MReg) ==> MemOk(MReg.d, old(mem), MReg.valE))
      ensures ok ==>
        var m, eo := MReg, old(ERegO);
        && WRegO == (if Live(m) then m.(valM := MemRead(m.d, old(mem), m.valE))
                     else old(WRegO).(bubble := true, stall := false))
        && mem == Stored(m, old(mem))
        && ERegO == FromMem(m, old(mem), eo, old(forwardA), old(forwardB))
        && forwardA == (old(forwardA) || GivesM(m, eo.d.srcA)) && forwardB == (old(forwardB) || GivesM(m, eo.d.srcB))
        && FReg == HeldBack(old(FReg), false, Drains(m)) && DReg == HeldBack(old(DReg), false, Drains(m))
        && EReg == HeldBack(old(EReg), false, Drains(m)) && MRegO == Blocked(old(MRegO), false, Drains(m))
    {
      WRegO := WRegO.(bubble := false, stall := false);
      if MReg.bubble || MReg.stall {
        WRegO := WRegO.(stall := false, bubble := true);
        return true;
      }
      if !MemOk(MReg.d, mem, MReg.valE) {
        return false;
      }
      var vM := MemRead(MReg.d, mem, MReg.valE);
      mem := MemWrite(MReg.d, mem, MReg.valE, MReg.valB);
      ForwardM();
      ForwardLoad(vM);
      if MReg.d.name.Ecall? {
        FReg := FReg.(stall := true);
        DReg := DReg.(stall := true);
        EReg := EReg.(stall := true);
        MRegO := MRegO.(bubble := true);
      }
      WRegO := MReg.(valM := vM);
      return true;
    }

    /** Forwards one of W's results to the sources nothing younger supplied. */
    method ForwardW(dst: Reg, value: Word)
      modifies this`ERegO
      ensures ERegO == Supplied(old(ERegO), dst, value, forwardA, forwardB)
    {
      if dst != 0 {
        if ERegO.d.srcA == dst && !forwardA {
          ERegO := ERegO.(valA := value);
        }
        if ERegO.d.srcB == dst && !forwardB {
          ERegO := ERegO.(valB := value);
        }
      }
    }

    /** Commits register results, serves system calls, and forwards where nothing younger did. */
    method Writeback() returns (end: CycleEnd)
      requires Separate()
      modifies registers, this`ERegO, this`stats
      ensures end == if !Drains(WReg) then Running else if SysUndefined(old(Regs())) then Aborted
                     else if SysExits(old(Regs())) then Halted else Running
      ensures end == Running ==>
        && Regs() == Committed(env, WReg, old(Regs()), old(stats).ecallNum)
        && ERegO == FromWriteback(WReg, old(ERegO), forwardA, forwardB)
        && stats == old(stats).(ecallNum := old(stats).ecallNum + Bit(Drains(WReg)),
                                instrCnt := old(stats).instrCnt + Bit(Live(WReg) && !Drains(WReg)))
    {
      if WReg.bubble || WReg.stall {
        return Running;
      }
      var d := WReg.d;
      if d.name.Ecall? {
        if registers[A7] == 91 {
          return Aborted;
        }
        if registers[A7] == 93 {
          return Halted;
        }
        if registers[A7] == 92 {
          registers[A0] := env.input(stats.ecallNum);
        }
        stats := stats.(ecallNum := stats.ecallNum + 1);
        return Running;
      }
      if d.dstM != 0 {
        registers[d.dstM] := WReg.valM;
      }
      if d.dstE != 0 {
        registers[d.dstE] := WReg.valE;
      }
      ForwardW(d.dstE, WReg.valE);
      ForwardW(d.dstM, WReg.valM);
      stats := stats.(instrCnt := stats.instrCnt + 1);
      return Running;
    }

    /** Clocks the four pipeline registers, except stalled ones. */
    method Clock()
      modifies this`DReg, this`EReg, this`MReg, this`WReg
      ensures DReg == (if old(DReg.stall) then old(DReg).(stall := false) else DRegO)
      ensures EReg == (if old(EReg.stall) then old(EReg).(stall := false) else ERegO)
      ensures MReg == (if old(MReg.stall) then old(MReg).(stall := false) else MRegO)
      ensures WReg == (if old(WReg.stall) then old(WReg).(stall := false) else WRegO)
    {
      DReg := if DReg.stall then DReg.(stall := false) else DRegO;
      EReg := if EReg.stall then EReg.(stall := false) else ERegO;
      MReg := if MReg.stall then MReg.(stall := false) else MRegO;
      WReg := if WReg.stall then WReg.(stall := false) else WRegO;
    }

    /** The end of a cycle: a stalled fetch goes back to its own address. */
    method Transfer()
      requires registers.Length == 32
      modifies this`FReg, this`predPC, this`stats, this`DReg, this`EReg, this`MReg, this`WReg,
               this`forwardA, this`forwardB,
               registers
      ensures FReg == old(FReg).(stall := false)
      ensures predPC == (if old(FReg.stall) then pc else old(predPC))
      ensures DReg == (if old(DReg.stall) then old(DReg).(stall := false) else DRegO)
      ensures EReg == (if old(EReg.stall) then old(EReg).(stall := false) else ERegO)
      ensures MReg == (if old(MReg.stall) then old(MReg).(stall := false) else MRegO)
      ensures WReg == (if old(WReg.stall) then old(WReg).(stall := false) else WRegO)
      ensures !forwardA && !forwardB
      ensures Regs() == old(Regs())[0 := 0]
      ensures stats == old(stats).(fstall := old(stats).fstall + Bit(old(FReg.stall)), cycles := old(stats).cycles + 1)
    {
      if FReg.stall {
        FReg := FReg.(stall := false);
        predPC := pc;
        stats := stats.(fstall := stats.fstall + 1);
      }
      Clock();
      forwardA := false;
      forwardB := false;
      registers[0] := 0;
      stats := stats.(cycles := stats.cycles + 1);
    }

    // ----- the stages in sequence, from the latched state p held in the registers l -----

    ghost function Now(): Snapshot
      reads this, registers
      requires registers.Length == 32
    {
      Snapshot(Controls(), ERegO, WRegO, mem, forwardA, forwardB, stats, Regs())
    }

    method FetchDecode(ghost p: Pipe, ghost l: Latches) returns (ok: bool)
      requires Valid() && p == Latched() && l == Latches(DReg, EReg, MReg, WReg)
      modifies this`DRegO, this`predPC, this`pc, this`ERegO, this`FReg
      ensures ok <==> CanAccess(p.mem, p.pc, 4) && (p.dl.DFull? ==> isa.decode(p.dl.ival).Some?)
      ensures ok ==> DecodeDone(isa, p, l, Now())
    {
      ok := Fetch();
      if ok {
        ok := Decode();
      }
    }

    method ExecuteNext(ghost p: Pipe, ghost l: Latches)
      requires Separate() && DecodeDone(isa, p, l, Now()) && (Live(l.e) ==> FieldsOk(l.e.d))
      modifies this`MRegO, this`predPC, this`FReg, this`DRegO, this`DReg, this`ERegO, this`forwardA, this`forwardB,
               this`stats, pred.bitBuf, pred.saBuf, pred.saHis
      ensures ExecuteDone(isa, p, l, Now()) && pred.State() == Trained(isa, l.e, old(pred.State()))
    {
      ghost var x := Now();
      ExecuteNow();
      ExecuteAdvances(isa, p, l, x);
    }

    method ExecuteNow()
      requires Separate() && (Live(EReg) ==> FieldsOk(EReg.d))
      modifies this`MRegO, this`predPC, this`FReg, this`DRegO, this`DReg, this`ERegO, this`forwardA, this`forwardB,
               this`stats, pred.bitBuf, pred.saBuf, pred.saHis
      ensures Now() == ExecuteEffect(isa, EReg, old(Now())) && pred.State() == Trained(isa, EReg, old(pred.State()))
    {
      Execute();
    }

    method MemNow() returns (ok: bool)
      requires registers.Length == 32
      modifies this`WRegO, this`mem, this`ERegO, this`forwardA, this`forwardB, this`FReg, this`DReg,
               this`EReg, this`MRegO
      ensures ok <==> (Live(MReg) ==> MemOk(MReg.d, old(mem), MReg.valE))
      ensures ok ==> Now() == MemEffect(MReg, old(Now()), WRegO) && WOf(WRegO) == Loaded(MReg, old(mem)) && !WRegO.stall
    {
      ok := MemStage();
    }

    method MemNext(ghost p: Pipe, ghost l: Latches) returns (ok: bool)
      requires Separate() && ExecuteDone(isa, p, l, Now())
      modifies this`WRegO, this`mem, this`ERegO, this`forwardA, this`forwardB, this`FReg, this`DReg,
               this`EReg, this`MRegO
      ensures ok <==> (Live(l.m) ==> MemOk(l.m.d, p.mem, l.m.valE))
      ensures ok ==> MemDone(isa, p, l, Now())
    {
      ghost var x := Now();
      ok := MemNow();
      if ok {
        MemAdvances(isa, p, l, x, WRegO);
      }
    }

    method WritebackNow() returns (end: CycleEnd)
      requires Separate()
      modifies registers, this`ERegO, this`stats
      ensures end == if !Drains(WReg) then Running else if SysUndefined(old(Regs())) then Aborted
                     else if SysExits(old(Regs())) then Halted else Running
      ensures end == Running ==> Now() == WritebackEffect(env, WReg, old(Now()))
    {
      end := Writeback();
    }

    method WritebackNext(ghost p: Pipe, ghost l: Latches) returns (end: CycleEnd)
      requires Separate() && MemDone(isa, p, l, Now()) && !l.w.stall
      modifies registers, this`ERegO, this`stats
      ensures end == if !Drains(l.w) then Running else if SysUndefined(p.regs) then Aborted
                     else if SysExits(p.regs) then Halted else Running
      ensures end == Running ==> WritebackDone(isa, env, p, l, Now())
    {
      ghost var x := Now();
      end := WritebackNow();
      if end == Running {
        WritebackAdvances(isa, env, p, l, x);
      }
    }

    method TransferNext()
      requires Separate()
      modifies this, registers
      ensures Latched() == AfterClock(old(Now()), old(pred.State())) && EReg == ClockedE(old(Now()))
      ensures Unflagged() <==> ClocksUnflagged(old(Now()))
    {
      Transfer();
    }

    /** The first three stages. */
    method FetchToExecute(ghost p: Pipe, ghost l: Latches) returns (ok: bool)
      requires Valid() && p == Latched() && l == Latches(DReg, EReg, MReg, WReg)
      modifies this, pred.bitBuf, pred.saBuf, pred.saHis
      ensures ok <==> CanAccess(p.mem, p.pc, 4) && (p.dl.DFull? ==> isa.decode(p.dl.ival).Some?)
      ensures ok ==> Separate() && Holds(isa, p, l) && ExecuteDone(isa, p, l, Now())
      ensures ok ==> pred.State() == Trained(isa, l.e, p.pred)
    {
      ok := FetchDecode(p, l);
      if ok {
        ExecuteNext(p, l);
      }
    }

    /** The five stages in the order the program calls them. */
    method Stages(ghost p: Pipe, ghost l: Latches) returns (end: CycleEnd)
      requires Valid() && p == Latched() && l == Latches(DReg, EReg, MReg, WReg)
      modifies this, registers, pred.bitBuf, pred.saBuf, pred.saHis
      ensures end == Running ==> Separate() && Holds(isa, p, l) && WritebackDone(isa, env, p, l, Now())
      ensures end == Running ==> pred.State() == Trained(isa, l.e, p.pred)
      ensures match Step(isa, env, p)
              case Next(_) => end == Running
              case Abort => end == Aborted
              case Exit => end == Halted
    {
      var ok := FetchToExecute(p, l);
      if ok {
        ok := MemNext(p, l);
      }
      if !ok {
        return Aborted;
      }
      end := WritebackNext(p, l);
    }

    /** One cycle: the stages, then the register transfer. */
    method Cycle() returns (end: CycleEnd)
      requires Valid()
      modifies this, registers, pred.bitBuf, pred.saBuf, pred.saHis
      ensures match Step(isa, env, old(Latched()))
              case Next(q) => end == Running && Valid() && Latched() == q
              case Abort => end == Aborted
              case Exit => end == Halted
    {
      ghost var p, l := Latched(), Latches(DReg, EReg, MReg, WReg);
      end := Stages(p, l);
      if end == Running {
        ghost var x := Now();
        TransferNext();
        CycleEnds(isa, env, p, l, x);
      }
    }

    /** One round of the cycle loop, extending the record of the run. */
    method Round(ghost t: nat -> Pipe, ghost k: nat) returns (end: CycleEnd, ghost u: nat -> Pipe)
      requires Valid() && Runs(isa, env, t, k) && Latched() == t(k)
      modifies this, registers, pred.bitBuf, pred.saBuf, pred.saHis
      ensures end == Running ==> Valid() && Runs(isa, env, u, k + 1) && Latched() == u(k + 1) && u(0) == t(0)
      ensures end == Aborted ==> Step(isa, env, t(k)).Abort?
      ensures end == Halted ==> Step(isa, env, t(k)).Exit?
    {
      end := Cycle();
      u := t;
      if end == Running {
        u := Extend(isa, env, t, k, Latched());
      }
    }

    /** The cycle loop, for at most n cycles; it reports how many went through. */
    method Run(n: nat) returns (end: CycleEnd, ghost k: nat, ghost t: nat -> Pipe)
      requires Valid() && Initial(Latched())
      modifies this, registers, pred.bitBuf, pred.saBuf, pred.saHis
      ensures k <= n && Runs(isa, env, t, k) && t(0) == old(Latched())
      ensures end == Running ==> k == n && Valid() && Latched() == t(k)
      ensures end == Aborted ==> Step(isa, env, t(k)).Abort?
      ensures end == Halted ==> Step(isa, env, t(k)).Exit?
    {
      k := 0;
      ghost var start := Latched();
      t := (j: nat) => start;
      end := Running;
      for i := 0 to n
        invariant end == Running && k == i
        invariant Valid() && Runs(isa, env, t, k) && Latched() == t(k) && t(0) == old(Latched())
      {
        ghost var u;
        end, u := Round(t, k);
        if end != Running {
          return;
        }
        t, k := u, k + 1;
      }
    }
  }

  /** Squash: the register becomes a bubble (or, for Fetch, a live stage) that does not stall. */
  function Emptied(r: PipReg, bubble: bool, squash: bool): PipReg {
    if squash then r.(bubble := bubble, stall := false) else r
  }

  /** Held in place for a cycle; a load-use stall keeps the instruction alive. */
  function HeldBack(r: PipReg, loadUse: bool, ecall: bool): PipReg {
    r.(stall := r.stall || loadUse || ecall, bubble := !loadUse && r.bubble)
  }

  /** Kept from moving on. */
  function Blocked(r: PipReg, loadUse: bool, ecall: bool): PipReg {
    r.(bubble := r.bubble || loadUse || ecall, stall := !loadUse && r.stall)
  }

  predicate Wanted(dst: Reg, src: Reg) {
    dst != 0 && src == dst
  }

  /** The sources that want dst and have not been supplied get the value. */
  function Supplied(r: PipReg, dst: Reg, value: Word, doneA: bool, doneB: bool): PipReg {
    r.(valA := if Wanted(dst, r.d.srcA) && !doneA then value else r.valA,
       valB := if Wanted(dst, r.d.srcB) && !doneB then value else r.valB)
  }

  predicate Live(r: PipReg) {
    !r.bubble && !r.stall
  }

  predicate Drains(r: PipReg) {
    Live(r) && r.d.name.Ecall?
  }

  predicate EcallIn(isa: Isa, d: PipReg) {
    Live(d) && isa.decode(d.ival).Some? && isa.decode(d.ival).value.name.Ecall?
  }

  predicate Uses(e: PipReg, d: Decoded) {
    Live(e) && e.d.dstM != 0 && Reads(d, e.d.dstM)
  }

  predicate Squashes(isa: Isa, e: PipReg) {
    Live(e) && Redirects(isa, e.d, e.valA, e.valB, e.predJ)
  }

  function Resolved(isa: Isa, e: PipReg, s: Stats): Stats {
    var branch := Live(e) && e.d.kind.SBType?;
    s.(controlHazard := s.controlHazard + Bit(Squashes(isa, e)),
       misPrediction := s.misPrediction + Bit(branch && Squashes(isa, e)),
       sucPrediction := s.sucPrediction + Bit(branch && !Squashes(isa, e)))
  }

  function Trained(isa: Isa, e: PipReg, p: P.PredState): P.PredState {
    if Live(e) && e.d.kind.SBType?
    then P.Update(p, e.predJ == isa.taken(e.d.name, e.valA, e.valB), e.addr) else p
  }

  /** The output register of Execute. */
  function Operated(isa: Isa, e: PipReg, mregO: PipReg): PipReg {
    if Live(e) then e.(valE := Compute(isa, e.d, e.addr, e.valA, e.valB)) else mregO.(bubble := true, stall := false)
  }

  function Computed(isa: Isa, e: PipReg): MLatch {
    if Live(e) then MFull(e.addr, e.d, e.valB, Compute(isa, e.d, e.addr, e.valA, e.valB)) else MEmpty
  }

  /** The fetch address and the registers whose flags steer a cycle. */
  datatype Controls = Ctl(pc: Word, predPC: Word, freg: PipReg, dreg: PipReg, dregO: PipReg, ereg: PipReg,
                          mreg: PipReg, mregO: PipReg, wreg: PipReg)

  /** What Execute does to the controls, eo being the register leaving Decode. */
  function ExecuteControls(isa: Isa, e: PipReg, eo: PipReg, c: Controls): Controls {
    var squash, loadUse := Squashes(isa, e), Uses(e, eo.d);
    c.(predPC := if squash then Successor(isa, e.d, e.addr, e.valA, e.valB) else c.predPC,
       freg := HeldBack(Emptied(c.freg, false, squash), loadUse, Drains(e)),
       dregO := Emptied(c.dregO, true, squash),
       dreg := HeldBack(Emptied(c.dreg, true, squash), loadUse, Drains(e)),
       mregO := Operated(isa, e, c.mregO))
  }

  // ----- the register leaving Decode, stage by stage -----

  function FromDecode(isa: Isa, d: PipReg, regs: Regs): PipReg {
    if !Live(d) || isa.decode(d.ival).None? then d.(bubble := true, stall := false)
    else
      var x := isa.decode(d.ival).value;
      d.(d := x, valA := SourceA(regs, x), valB := SourceB(regs, x), bubble := false, stall := false)
  }

  predicate GivesE(e: PipReg, src: Reg) {
    Live(e) && Wanted(e.d.dstE, src)
  }

  function FromExecute(isa: Isa, e: PipReg, eo: PipReg): PipReg {
    if !Live(e) then eo
    else Blocked(Supplied(Emptied(eo, true, Squashes(isa, e)), e.d.dstE, Compute(isa, e.d, e.addr, e.valA, e.valB),
      false, false),
                 Uses(e, eo.d), Drains(e))
  }

  predicate GivesM(m: PipReg, src: Reg) {
    Live(m) && (Wanted(m.d.dstE, src) || Wanted(m.d.dstM, src))
  }

  function FromMem(m: PipReg, mem: Mem, eo: PipReg, doneA: bool, doneB: bool): PipReg {
    if !Live(m) then eo
    else Supplied(Supplied(eo, m.d.dstE, m.valE, doneA, doneB), m.d.dstM, MemRead(m.d, mem, m.valE), false, false)
  }

  function FromWriteback(w: PipReg, eo: PipReg, doneA: bool, doneB: bool): PipReg {
    if !Live(w) || Drains(w) then eo
    else Supplied(Supplied(eo, w.d.dstE, w.valE, doneA, doneB), w.d.dstM, w.valM, doneA, doneB)
  }

  function Committed(env: Env, w: PipReg, regs: Regs, k: nat): Regs {
    if !Live(w) then regs else if Drains(w) then SysRegs(env, regs, k) else WriteRegs(regs, w.d, w.valE, w.valM)
  }

  function Stored(m: PipReg, mem: Mem): Mem {
    if Live(m) then MemWrite(m.d, mem, m.valE, m.valB) else mem
  }

  function Loaded(m: PipReg, mem: Mem): WLatch {
    if Live(m) then WFull(m.addr, m.d, m.valB, m.valE, MemRead(m.d, mem, m.valE)) else WEmpty
  }

  // ----- what the registers latch -----

  function DOf(r: PipReg): DLatch {
    if r.bubble then DEmpty else DFull(r.addr, r.ival, Opcode(r.ival) == 0x63 && r.predJ)
  }

  function EOf(r: PipReg): ELatch {
    if r.bubble then EEmpty else EFull(r.addr, r.d, r.valA, r.valB, Opcode(r.ival) == 0x63 && r.predJ)
  }

  function MOf(r: PipReg): MLatch {
    if r.bubble then MEmpty else MFull(r.addr, r.d, r.valB, r.valE)
  }

  function WOf(r: PipReg): WLatch {
    if r.bubble then WEmpty else WFull(r.addr, r.d, r.valB, r.valE, r.valM)
  }

  // ----- a cycle on values -----

  /** The pipeline registers at the start of a cycle. */
  datatype Latches = Latches(d: PipReg, e: PipReg, m: PipReg, w: PipReg)

  predicate Unstalled(l: Latches) {
    !l.d.stall && !l.e.stall && !l.m.stall && !l.w.stall
  }

  /** The registers l latch the state p. */
  predicate Latched4(isa: Isa, p: Pipe, l: Latches) {
    && p.dl == DOf(l.d) && p.el == EOf(l.e) && p.ml == MOf(l.m) && p.wl == WOf(l.w)
    && Unstalled(l)
    && (!l.e.bubble ==> isa.decode(l.e.ival) == Some(l.e.d))
    && (p.dl.DFull? ==> isa.decode(p.dl.ival).Some?)
  }

  /** The controls after Decode. */
  predicate FetchSteered(isa: Isa, p: Pipe, l: Latches, c: Controls) {
    && c.pc == p.pc && c.mreg == l.m && c.wreg == l.w && c.ereg == l.e && c.dreg == l.d
    && c.predPC == PredictedPC(p) && c.freg.stall == EcallIn(isa, l.d) && !c.freg.bubble
    && DOf(c.dregO) == (if EcallIn(isa, l.d) then DEmpty else DFull(p.pc, FetchedWord(p), FetchedPrediction(p)))
    && !c.dregO.stall
  }

  /** The controls from Execute on; drain says whether the memory stage has met an ecall. */
  predicate Steered(isa: Isa, p: Pipe, l: Latches, drain: bool, c: Controls) {
    var squash, loadUse := Squashes(isa, l.e), Uses(l.e, FromDecode(isa, l.d, p.regs).d);
    && c.pc == p.pc && c.mreg == l.m && c.wreg == l.w && c.ereg == HeldBack(l.e, false, drain)
    && c.predPC == (if squash then Successor(isa, l.e.d, l.e.addr, l.e.valA, l.e.valB) else PredictedPC(p))
    && c.freg.stall == ((!squash && EcallIn(isa, l.d)) || loadUse || Drains(l.e) || drain) && !c.freg.bubble
    && DOf(c.dregO)
      == (if squash || EcallIn(isa, l.d) then DEmpty else DFull(p.pc, FetchedWord(p), FetchedPrediction(p)))
    && !c.dregO.stall
    && c.dreg == HeldBack(HeldBack(Emptied(l.d, true, squash), loadUse, Drains(l.e)), false, drain)
    && MOf(c.mregO) == (if drain then MEmpty else Computed(isa, l.e)) && !c.mregO.stall
  }

  lemma SteerExecute(isa: Isa, p: Pipe, l: Latches, c: Controls)
    requires FetchSteered(isa, p, l, c)
    ensures Steered(isa, p, l, false, ExecuteControls(isa, l.e, FromDecode(isa, l.d, p.regs), c))
  {
  }

  /** What the memory stage does to the controls: an ecall holds back everything behind it. */
  function MemControls(drain: bool, c: Controls): Controls {
    c.(freg := HeldBack(c.freg, false, drain), dreg := HeldBack(c.dreg, false, drain),
       ereg := HeldBack(c.ereg, false, drain), mregO := Blocked(c.mregO, false, drain))
  }

  lemma SteerMem(isa: Isa, p: Pipe, l: Latches, c: Controls)
    requires Steered(isa, p, l, false, c)
    ensures Steered(isa, p, l, Drains(l.m), MemControls(Drains(l.m), c))
  {
  }

  /** Everything a stage may change but the predictor. */
  datatype Snapshot = Snapshot(c: Controls, eo: PipReg, wo: PipReg, mem: Mem, fA: bool, fB: bool, stats: Stats,
    regs: Regs)

  ghost predicate DecodeDone(isa: Isa, p: Pipe, l: Latches, x: Snapshot) {
    && FetchSteered(isa, p, l, x.c) && x.regs == p.regs && x.mem == p.mem
    && x.stats == p.stats && !x.fA && !x.fB
    && x.eo == FromDecode(isa, l.d, p.regs)
  }

  ghost predicate ExecuteDone(isa: Isa, p: Pipe, l: Latches, x: Snapshot) {
    var eo := FromDecode(isa, l.d, p.regs);
    && Steered(isa, p, l, false, x.c) && x.regs == p.regs && x.mem == p.mem
    && x.eo == AfterExecute(isa, p, l)
    && x.fA == GivesE(l.e, eo.d.srcA) && x.fB == GivesE(l.e, eo.d.srcB)
    && x.stats == StatsAfterExecute(isa, p, l)
  }

  ghost predicate MemDone(isa: Isa, p: Pipe, l: Latches, x: Snapshot) {
    var eo := FromDecode(isa, l.d, p.regs);
    && Steered(isa, p, l, Drains(l.m), x.c) && x.regs == p.regs && x.mem == Stored(l.m, p.mem)
    && WOf(x.wo) == Loaded(l.m, p.mem) && !x.wo.stall
    && x.eo == AfterMem(isa, p, l)
    && x.fA == (GivesE(l.e, eo.d.srcA) || GivesM(l.m, eo.d.srcA))
    && x.fB == (GivesE(l.e, eo.d.srcB) || GivesM(l.m, eo.d.srcB))
    && x.stats == StatsAfterExecute(isa, p, l)
  }

  ghost predicate WritebackDone(isa: Isa, env: Env, p: Pipe, l: Latches, x: Snapshot) {
    && Steered(isa, p, l, Drains(l.m), x.c) && x.regs == Committed(env, l.w, p.regs, p.stats.ecallNum)
    && x.mem == Stored(l.m, p.mem)
    && WOf(x.wo) == Loaded(l.m, p.mem) && !x.wo.stall
    && x.eo == AfterAll(isa, p, l)
    && x.stats == StatsAfterWriteback(isa, p, l)
  }

  function ExecuteEffect(isa: Isa, e: PipReg, x: Snapshot): Snapshot {
    Snapshot(ExecuteControls(isa, e, x.eo, x.c), FromExecute(isa, e, x.eo), x.wo, x.mem,
             x.fA || GivesE(e, x.eo.d.srcA), x.fB || GivesE(e, x.eo.d.srcB),
             Resolved(isa, e, x.stats).(loadUseHazard := x.stats.loadUseHazard + Bit(Uses(e, x.eo.d))), x.regs)
  }

  lemma ExecuteAdvances(isa: Isa, p: Pipe, l: Latches, x: Snapshot)
    requires DecodeDone(isa, p, l, x)
    ensures ExecuteDone(isa, p, l, ExecuteEffect(isa, l.e, x))
  {
    SteerExecute(isa, p, l, x.c);
  }

  /** What the memory stage leaves, wo being its output register. */
  function MemEffect(m: PipReg, x: Snapshot, wo: PipReg): Snapshot {
    Snapshot(MemControls(Drains(m), x.c), FromMem(m, x.mem, x.eo, x.fA, x.fB), wo, Stored(m, x.mem),
             x.fA || GivesM(m, x.eo.d.srcA), x.fB || GivesM(m, x.eo.d.srcB), x.stats, x.regs)
  }

  function WritebackEffect(env: Env, w: PipReg, x: Snapshot): Snapshot {
    x.(regs := Committed(env, w, x.regs, x.stats.ecallNum), eo := FromWriteback(w, x.eo, x.fA, x.fB),
       stats := x.stats.(ecallNum := x.stats.ecallNum + Bit(Drains(w)),
         instrCnt := x.stats.instrCnt + Bit(Live(w) && !Drains(w))))
  }

  lemma WritebackAdvances(isa: Isa, env: Env, p: Pipe, l: Latches, x: Snapshot)
    requires MemDone(isa, p, l, x)
    ensures WritebackDone(isa, env, p, l, WritebackEffect(env, l.w, x))
  {
  }

  lemma MemAdvances(isa: Isa, p: Pipe, l: Latches, x: Snapshot, wo: PipReg)
    requires ExecuteDone(isa, p, l, x) && WOf(wo) == Loaded(l.m, p.mem) && !wo.stall
    ensures MemDone(isa, p, l, MemEffect(l.m, x, wo))
  {
    SteerMem(isa, p, l, x.c);
  }

  ghost predicate Holds(isa: Isa, p: Pipe, l: Latches) {
    WellFormed(isa) && Shape(p) && Latched4(isa, p, l)
  }

  function AfterExecute(isa: Isa, p: Pipe, l: Latches): PipReg {
    FromExecute(isa, l.e, FromDecode(isa, l.d, p.regs))
  }

  function AfterMem(isa: Isa, p: Pipe, l: Latches): PipReg {
    var eo := AfterExecute(isa, p, l);
    FromMem(l.m, p.mem, eo, GivesE(l.e, eo.d.srcA), GivesE(l.e, eo.d.srcB))
  }

  /** The output register of Decode at the end of the cycle. */
  function AfterAll(isa: Isa, p: Pipe, l: Latches): PipReg {
    var eo := AfterExecute(isa, p, l);
    var fA, fB := GivesE(l.e, eo.d.srcA), GivesE(l.e, eo.d.srcB);
    FromWriteback(l.w, AfterMem(isa, p, l), fA || GivesM(l.m, eo.d.srcA), fB || GivesM(l.m, eo.d.srcB))
  }

  lemma SquashAgrees(isa: Isa, p: Pipe, l: Latches)
    requires Holds(isa, p, l)
    ensures Squashes(isa, l.e) <==> Squash(isa, p)
    ensures Drains(l.e) <==> EcallInE(p)
    ensures Drains(l.m) <==> EcallInM(p)
    ensures EcallIn(isa, l.d) <==> EcallInD(isa, p)
    ensures Uses(l.e, FromDecode(isa, l.d, p.regs).d) <==> LoadUse(isa, p)
  {
    assert DecodesOk(isa, l.e.ival);
  }

  lemma BubbleAgrees(isa: Isa, p: Pipe, l: Latches)
    requires Holds(isa, p, l)
    ensures AfterAll(isa, p, l).bubble <==> NextE(isa, p).EEmpty?
  {
    SquashAgrees(isa, p, l);
  }

  lemma OperandAAgrees(isa: Isa, p: Pipe, l: Latches)
    requires Holds(isa, p, l) && NextE(isa, p).EFull?
    ensures var d := DecodedD(isa, p).value;
      AfterAll(isa, p, l).d == d && AfterAll(isa, p, l).valA == Forwarded(isa, p, d.srcA, SourceA(p.regs, d))
  {
    SquashAgrees(isa, p, l);
  }

  lemma OperandBAgrees(isa: Isa, p: Pipe, l: Latches)
    requires Holds(isa, p, l) && NextE(isa, p).EFull?
    ensures var d := DecodedD(isa, p).value;
      AfterAll(isa, p, l).valB == Forwarded(isa, p, d.srcB, SourceB(p.regs, d))
  {
    SquashAgrees(isa, p, l);
  }

  lemma EAgrees(isa: Isa, p: Pipe, l: Latches)
    requires Holds(isa, p, l)
    ensures EOf(AfterAll(isa, p, l)) == NextE(isa, p)
  {
    BubbleAgrees(isa, p, l);
    if NextE(isa, p).EFull? {
      OperandAAgrees(isa, p, l);
      OperandBAgrees(isa, p, l);
    }
  }

  function StatsAfterExecute(isa: Isa, p: Pipe, l: Latches): Stats {
    Resolved(isa, l.e, p.stats).(
      loadUseHazard := p.stats.loadUseHazard + Bit(Uses(l.e, FromDecode(isa, l.d, p.regs).d)))
  }

  function StatsAfterWriteback(isa: Isa, p: Pipe, l: Latches): Stats {
    StatsAfterExecute(isa, p, l).(
      ecallNum := p.stats.ecallNum + Bit(Drains(l.w)),
      instrCnt := p.stats.instrCnt + Bit(Live(l.w) && !Drains(l.w)))
  }

  /** The latched state the flags and output registers produce. */
  function Assembled(isa: Isa, env: Env, p: Pipe, l: Latches): Pipe {
    var squash, loadUse, drain := Squashes(isa, l.e), Uses(l.e, FromDecode(isa, l.d, p.regs).d), Drains(l.m);
    var stalled := (!squash && EcallIn(isa, l.d)) || loadUse || Drains(l.e) || drain;
    var dreg := HeldBack(HeldBack(Emptied(l.d, true, squash), loadUse, Drains(l.e)), false, drain);
    Pipe(if stalled then p.pc
         else if squash then Successor(isa, l.e.d, l.e.addr, l.e.valA, l.e.valB)
         else PredictedPC(p),
         if dreg.stall then DOf(dreg) else if squash || EcallIn(isa, l.d) then DEmpty
         else DFull(p.pc, FetchedWord(p), FetchedPrediction(p)),
         if drain then EOf(l.e) else EOf(AfterAll(isa, p, l)),
         if drain then MEmpty else Computed(isa, l.e),
         Loaded(l.m, p.mem),
         Committed(env, l.w, p.regs, p.stats.ecallNum)[0 := 0], Stored(l.m, p.mem), Trained(isa, l.e, p.pred),
         StatsAfterWriteback(isa, p, l).(cycles := p.stats.cycles + 1, fstall := p.stats.fstall + Bit(stalled)))
  }

  /** A register after the clock: held if stalled, else its successor. */
  function Clocked(r: PipReg, next: PipReg): PipReg {
    if r.stall then r.(stall := false) else next
  }

  function ClockedE(x: Snapshot): PipReg {
    Clocked(x.c.ereg, x.eo)
  }

  function AfterClock(x: Snapshot, pred: P.PredState): Pipe {
    Pipe(if x.c.freg.stall then x.c.pc else x.c.predPC, DOf(Clocked(x.c.dreg, x.c.dregO)), EOf(ClockedE(x)),
         MOf(Clocked(x.c.mreg, x.c.mregO)), WOf(Clocked(x.c.wreg, x.wo)), x.regs[0 := 0], x.mem, pred,
         x.stats.(fstall := x.stats.fstall + Bit(x.c.freg.stall), cycles := x.stats.cycles + 1))
  }

  predicate ClocksUnflagged(x: Snapshot) {
    && !x.c.freg.bubble && !Clocked(x.c.dreg, x.c.dregO).stall && !ClockedE(x).stall
    && !Clocked(x.c.mreg, x.c.mregO).stall && !Clocked(x.c.wreg, x.wo).stall
  }

  lemma ClockAssembles(isa: Isa, env: Env, p: Pipe, l: Latches, x: Snapshot)
    requires WritebackDone(isa, env, p, l, x) && Unstalled(l)
    ensures AfterClock(x, Trained(isa, l.e, p.pred)) == Assembled(isa, env, p, l)
    ensures ClocksUnflagged(x) && ClockedE(x) == if Drains(l.m) then l.e else AfterAll(isa, p, l)
  {
    ClockAssemblesFront(isa, env, p, l, x);
  }

  /** Fetch and the register in front of Decode. */
  lemma ClockAssemblesFront(isa: Isa, env: Env, p: Pipe, l: Latches, x: Snapshot)
    requires WritebackDone(isa, env, p, l, x) && Unstalled(l)
    ensures var q, a := AfterClock(x, Trained(isa, l.e, p.pred)), Assembled(isa, env, p, l);
      q.pc == a.pc && q.dl == a.dl && q.stats == a.stats
    ensures !x.c.freg.bubble && !Clocked(x.c.dreg, x.c.dregO).stall
  {
  }

  /** After the clock the registers latch the next state, and latch it validly. */
  lemma CycleEnds(isa: Isa, env: Env, p: Pipe, l: Latches, x: Snapshot)
    requires Holds(isa, p, l) && WritebackDone(isa, env, p, l, x) && Step(isa, env, p).Next?
    ensures var q := AfterClock(x, Trained(isa, l.e, p.pred));
      Step(isa, env, p) == Next(q) && Shape(q)
    ensures ClocksUnflagged(x) && (!ClockedE(x).bubble ==> isa.decode(ClockedE(x).ival) == Some(ClockedE(x).d))
  {
    ClockAssembles(isa, env, p, l, x);
    AssembledIsStep(isa, env, p, l);
    ShapeKept(isa, env, p);
  }

  lemma AssembledIsStep(isa: Isa, env: Env, p: Pipe, l: Latches)
    requires Holds(isa, p, l) && Step(isa, env, p).Next?
    ensures Step(isa, env, p) == Next(Assembled(isa, env, p, l))
  {
    SquashAgrees(isa, p, l);
    EAgrees(isa, p, l);
    assert DecodesOk(isa, l.e.ival);
    var q := Assembled(isa, env, p, l);
    assert q.regs == NextRegs(env, p);
  }
}
