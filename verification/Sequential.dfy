/** The reference: an interpreter that completes one instruction before it starts the next. */
module Sequential {
  import opened Words
  import opened Isa

  datatype Seq = Seq(pc: Word, regs: Regs, mem: Mem, ecalls: nat)

  /** A program run: at(k) is the state after k instructions. It is what the program does up to
      the first instruction that does not go on; beyond it at(k) is only a way to speak of the
      words that lie behind. */
  datatype Run = Run(isa: Isa, env: Env, at: nat -> Seq)

  const NOP := Decoded(Nop, RType, 0, 0, 0, 0, 0)

  function DecodeAt(isa: Isa, s: Seq): Decoded {
    match isa.decode(FetchWord(s.mem, s.pc))
    case Some(d) => d
    case None => NOP
  }

  function ValE(isa: Isa, s: Seq): Word {
    var d := DecodeAt(isa, s);
    Compute(isa, d, s.pc, s.regs[d.srcA], s.regs[d.srcB])
  }

  function ValM(isa: Isa, s: Seq): Word {
    MemRead(DecodeAt(isa, s), s.mem, ValE(isa, s))
  }

  /** The instruction at s.pc can be fetched, decoded and carried out. */
  predicate Sound(isa: Isa, s: Seq) {
    && CanAccess(s.mem, s.pc, 4)
    && isa.decode(FetchWord(s.mem, s.pc)).Some?
    && MemOk(DecodeAt(isa, s), s.mem, ValE(isa, s))
  }

  /** One whole instruction's effect. Total: Execute says when there is one. */
  function StepSeq(isa: Isa, env: Env, s: Seq): Seq {
    var d := DecodeAt(isa, s);
    var a, b := s.regs[d.srcA], s.regs[d.srcB];
    if d.name.Ecall? then
      Seq(Successor(isa, d, s.pc, a, b), SysRegs(env, s.regs, s.ecalls), s.mem, s.ecalls + 1)
    else
      Seq(Successor(isa, d, s.pc, a, b),
          WriteRegs(s.regs, d, ValE(isa, s), ValM(isa, s)),
          MemWrite(d, s.mem, ValE(isa, s), b),
          s.ecalls)
  }

  /** How one instruction ends: the program goes on, has exited, or cannot go on. */
  datatype Result = Goes(s: Seq) | Exited | Faulted

  function Execute(isa: Isa, env: Env, s: Seq): Result {
    var ecall := DecodeAt(isa, s).name.Ecall?;
    if !Sound(isa, s) || (ecall && SysUndefined(s.regs)) then Faulted
    else if ecall && SysExits(s.regs) then Exited
    else Goes(StepSeq(isa, env, s))
  }

  predicate Chained(r: Run, k: nat) {
    r.at(k + 1) == StepSeq(r.isa, r.env, r.at(k))
  }

  ghost predicate IsRun(r: Run) {
    (forall k: nat :: Chained(r, k)) && r.at(0).regs[0] == 0
  }

  function Iterate(isa: Isa, env: Env, start: Seq, k: nat): Seq {
    if k == 0 then start else StepSeq(isa, env, Iterate(isa, env, start, k - 1))
  }

  /** Every start state has a run. */
  lemma RunExists(isa: Isa, env: Env, start: Seq)
    requires start.regs[0] == 0
    ensures exists r: Run :: IsRun(r) && r.isa == isa && r.env == env && r.at(0) == start
  {
    var r := Run(isa, env, (k: nat) => Iterate(isa, env, start, k));
    assert forall k: nat :: Chained(r, k);
    assert IsRun(r);
  }

  // ----- the parts of one step -----

  lemma SeqRegs(r: Run, k: nat)
    requires IsRun(r)
    ensures var s := r.at(k); var d := DecodeAt(r.isa, s);
            if d.name.Ecall?
            then r.at(k + 1).regs == SysRegs(r.env, s.regs, s.ecalls) && r.at(k + 1).ecalls == s.ecalls + 1
            else && r.at(k + 1).regs == WriteRegs(s.regs, d, ValE(r.isa, s), ValM(r.isa, s))
                 && r.at(k + 1).ecalls == s.ecalls
  {
    assert Chained(r, k);
  }

  lemma SeqMem(r: Run, k: nat)
    requires IsRun(r)
    ensures var s := r.at(k); var d := DecodeAt(r.isa, s);
            r.at(k + 1).mem == if d.name.Ecall? then s.mem else MemWrite(d, s.mem, ValE(r.isa, s), s.regs[d.srcB])
  {
    assert Chained(r, k);
  }

  lemma SeqPC(r: Run, k: nat)
    requires IsRun(r)
    ensures var s := r.at(k); var d := DecodeAt(r.isa, s);
            r.at(k + 1).pc == Successor(r.isa, d, s.pc, s.regs[d.srcA], s.regs[d.srcB])
  {
    assert Chained(r, k);
  }

  lemma {:induction false} KeysKept(r: Run, k: nat)
    requires IsRun(r)
    ensures r.at(k).mem.Keys == r.at(0).mem.Keys
  {
    if k != 0 {
      KeysKept(r, k - 1);
      SeqMem(r, k - 1);
      var s := r.at(k - 1);
      var d := DecodeAt(r.isa, s);
      MemWriteKeys(d, s.mem, ValE(r.isa, s), s.regs[d.srcB]);
    }
  }

  lemma {:induction false} ZeroStaysZero(r: Run, k: nat)
    requires IsRun(r)
    ensures r.at(k).regs[0] == 0
  {
    if k != 0 {
      ZeroStaysZero(r, k - 1);
      SeqRegs(r, k - 1);
    }
  }
}
