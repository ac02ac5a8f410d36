/** How runs end. The interpreter halts at an exit call and stops at a fault; the pipeline stops no
    later than in proportion. It exits where the interpreter does and aborts where that faults,
    with two exceptions, each stated exactly: behind an exit call, and off the program's path. */
module Outcomes {
  import opened Words
  import opened Isa
  import opened Sequential
  import opened Pipeline
  import opened PipelineLaws
  import opened Refinement
  import opened RefinementRuns
  import opened Observed

  function ResultAt(r: Run, k: nat): Result {
    Execute(r.isa, r.env, r.at(k))
  }

  predicate Faults(r: Run, k: nat) {
    ResultAt(r, k).Faulted?
  }

  predicate Exits(r: Run, k: nat) {
    ResultAt(r, k).Exited?
  }

  predicate GoesOn(r: Run, k: nat) {
    ResultAt(r, k) == Goes(r.at(k + 1))
  }

  // ----- what retires goes on -----

  lemma RetiringGoes(r: Run, p: Pipe, c: nat)
    requires IsRun(r) && MatchesBelow(r, p, c) && Retired(p) < c && p.wl.WFull? && Step(r.isa, r.env, p).Next?
    ensures GoesOn(r, Retired(p))
  {
    assert Chained(r, Retired(p));
  }

  ghost predicate AllGo(r: Run, n: nat, c: nat) {
    forall k: nat :: k < n && k < c ==> GoesOn(r, k)
  }

  lemma RetiredGoNext(r: Run, t: nat -> Pipe, n: nat, c: nat)
    requires RunsFrom(r, t, n + 1) && MatchesBelow(r, t(n), c)
    ensures Retired(t(n + 1)) <= Retired(t(n)) + 1
    ensures Retired(t(n)) < Retired(t(n + 1)) && Retired(t(n)) < c ==> GoesOn(r, Retired(t(n)))
  {
    assert Stepped(r.isa, r.env, t, n);
    StepIndices(r.isa, r.env, t(n), t(n + 1));
    if t(n).wl.WFull? && Retired(t(n)) < c {
      RetiringGoes(r, t(n), c);
    }
  }

  lemma GoOneMore(r: Run, m: nat, n: nat, c: nat)
    requires AllGo(r, m, c) && n <= m + 1 && (m < n && m < c ==> GoesOn(r, m))
    ensures AllGo(r, n, c)
  {
  }

  /** Of the first c instructions, which are fetch-stable and complete no visible stale read, every
      one that retires is one the interpreter carries out and goes on from. */
  lemma {:induction false} RetiredGo(r: Run, t: nat -> Pipe, n: nat, c: nat)
    requires RunsFrom(r, t, n) && FetchStableBelow(r, c) && NoVisibleBefore(r, c)
    ensures AllGo(r, Retired(t(n)), c)
  {
    if n > 0 {
      var m := n - 1;
      RunsFewer(r, t, m, n);
      RetiredGo(r, t, m, c);
      UpToAlways(r, t, m, c);
      RetiredGoNext(r, t, m, c);
      GoOneMore(r, Retired(t(m)), Retired(t(n)), c);
    }
  }

  /** If the interpreter does not go on from instruction k, because it exits or faults there, the
      pipeline has stopped before cycle 4 * k + 5. */
  lemma StopsBy(r: Run, t: nat -> Pipe, n: nat, k: nat)
    requires RunsFrom(r, t, n) && FetchStableBelow(r, k + 1) && NoVisibleBefore(r, k + 1) && !GoesOn(r, k)
    ensures Retired(t(n)) <= k && n <= 4 * k + 4
  {
    RetiredGo(r, t, n, k + 1);
    Throughput(r.isa, r.env, t, n);
  }

  /** And there is a run that ends. */
  lemma Stops(r: Run, p: Pipe, k: nat) returns (t: nat -> Pipe, n: nat)
    requires IsRun(r) && WellFormed(r.isa) && FetchStableBelow(r, k + 1) && NoVisibleBefore(r, k + 1) && !GoesOn(r, k)
    requires Initial(p) && r.at(0) == Seq(p.pc, p.regs, p.mem, 0)
    ensures RunsFrom(r, t, n) && t(0) == p && n <= 4 * k + 4 && !Step(r.isa, r.env, t(n)).Next?
  {
    t, n := (_: nat) => p, 0;
    StopsBy(r, t, n, k);
    while Step(r.isa, r.env, t(n)).Next?
      invariant RunsFrom(r, t, n) && t(0) == p && n <= 4 * k + 4
      decreases 4 * k + 4 - n
    {
      t := Extend(r.isa, r.env, t, n, Step(r.isa, r.env, t(n)).p);
      n := n + 1;
      StopsBy(r, t, n, k);
    }
  }

  /** The pipeline exits when, and only when, it does not abort and the instruction in Writeback
      is the interpreter's exit. */
  lemma ExitExact(r: Run, p: Pipe)
    requires Matches(r, p)
    ensures Step(r.isa, r.env, p).Exit? <==> !Aborts(r.isa, p) && p.wl.WFull? && Exits(r, Retired(p))
  {
  }

  // ----- aborts -----

  /** The fetch is where the sequential run goes. */
  predicate OnPath(r: Run, p: Pipe) {
    !Squash(r.isa, p) && p.pc == r.at(IndexF(p)).pc
  }

  /** The newest of the sequential run's instructions that the pipeline is at work on. */
  function Newest(r: Run, p: Pipe): nat {
    if OnPath(r, p) then IndexF(p) else if Squash(r.isa, p) then IndexE(p) else IndexD(p)
  }

  /** The instruction to be fetched next cannot be. */
  predicate Unfetchable(r: Run, k: nat) {
    !CanAccess(r.at(k).mem, r.at(k).pc, 4)
  }

  /** Some instruction in flight or about to be fetched faults, and the interpreter gets there. */
  ghost predicate Justified(r: Run, p: Pipe) {
    exists i: nat :: Retired(p) <= i <= Newest(r, p) && Faults(r, i) && NoExitBetween(r, Retired(p), i)
  }

  ghost predicate NoExitBetween(r: Run, m: nat, i: nat) {
    forall e: nat :: m <= e < i ==> !Exits(r, e)
  }

  /** The newest instruction in flight is an exit call that the interpreter gets to. */
  ghost predicate ExitAhead(r: Run, p: Pipe) {
    && OnPath(r, p) && IndexF(p) > Retired(p) && Exits(r, IndexF(p) - 1)
    && forall i: nat :: Retired(p) <= i < IndexF(p) ==> !Faults(r, i)
  }

  /** The fetch has left the path and the interpreter goes on from everything in flight. */
  ghost predicate Astray(r: Run, p: Pipe) {
    !OnPath(r, p) && forall i: nat :: Retired(p) <= i <= Newest(r, p) ==> GoesOn(r, i)
  }

  /** An ecall in flight has nothing behind it. */
  lemma EcallIsNewest(r: Run, p: Pipe, e: nat)
    requires Shape(p) && SameInFlight(r, p) && Retired(p) <= e < IndexF(p) && EcallAt(r, e)
    ensures e == IndexF(p) - 1
  {
  }

  lemma FetchFails(r: Run, p: Pipe)
    requires IsRun(r) && Matches(r, p) && OnPath(r, p) && (p.dl.DFull? ==> DecodedD(r.isa, p).Some?)
    ensures CanAccess(p.mem, p.pc, 4) <==> !Unfetchable(r, IndexF(p))
  {
    KeysKept(r, IndexF(p));
    KeysKept(r, IndexM(p));
    assert r.at(IndexF(p)).mem.Keys == p.mem.Keys;
    SameAccess(p.mem, r.at(IndexF(p)).mem, p.pc, 4);
  }

  lemma SameAccess(m: Mem, n: Mem, a: Word, k: nat)
    requires m.Keys == n.Keys
    ensures CanAccess(m, a, k) <==> CanAccess(n, a, k)
  {
    assert forall x: int :: x in m <==> x in m.Keys;
    assert forall x: int :: x in n <==> x in n.Keys;
  }

  /** Why a pipeline on its path aborts, in terms of the sequential run. */
  lemma AbortCauses(r: Run, p: Pipe)
    requires IsRun(r) && WellFormed(r.isa) && Matches(r, p) && OnPath(r, p) && FetchStable(r, IndexF(p))
    ensures Aborts(r.isa, p) <==>
      || (EcallInW(p) && Faults(r, Retired(p))) || (p.ml.MFull? && Faults(r, IndexM(p)) && !EcallInM(p))
      || (p.dl.DFull? && DecodedD(r.isa, p).None?)
      || ((p.dl.DFull? ==> DecodedD(r.isa, p).Some?) && Unfetchable(r, IndexF(p)))
  {
    if p.dl.DFull? ==> DecodedD(r.isa, p).Some? {
      FetchFails(r, p);
    }
  }

  lemma ExitIsEcall(r: Run, k: nat)
    requires Exits(r, k)
    ensures EcallAt(r, k) && !Faults(r, k)
  {
  }

  lemma UnfetchableFaults(r: Run, k: nat)
    requires Unfetchable(r, k)
    ensures Faults(r, k)
  {
  }

  lemma ExitIsNewest(r: Run, p: Pipe, e: nat)
    requires Shape(p) && SameInFlight(r, p) && Retired(p) <= e < IndexF(p) && Exits(r, e)
    ensures e == IndexF(p) - 1
  {
    ExitIsEcall(r, e);
    EcallIsNewest(r, p, e);
  }

  /** A fault with no ecall before it is one the interpreter gets to. */
  lemma JustifiedBy(r: Run, p: Pipe, i: nat)
    requires Shape(p) && SameInFlight(r, p) && OnPath(r, p) && Retired(p) <= i <= IndexF(p) && Faults(r, i)
    requires i == IndexF(p) ==> IndexF(p) == Retired(p) || !Exits(r, IndexF(p) - 1)
    ensures Justified(r, p)
  {
    forall e: nat | Retired(p) <= e < i
      ensures !Exits(r, e)
    {
      if Exits(r, e) {
        ExitIsNewest(r, p, e);
      }
    }
    assert NoExitBetween(r, Retired(p), i);
  }

  /** The pipeline's own causes fault before the word to be fetched. */
  lemma CauseFaults(r: Run, p: Pipe) returns (i: nat)
    requires IsRun(r) && WellFormed(r.isa) && Matches(r, p) && OnPath(r, p) && FetchStable(r, IndexF(p))
      && Aborts(r.isa, p)
    ensures Retired(p) <= i <= IndexF(p) && Faults(r, i)
    ensures i == IndexF(p) ==> Unfetchable(r, i) && (p.dl.DFull? ==> DecodedD(r.isa, p).Some?)
  {
    AbortCauses(r, p);
    if EcallInW(p) && Faults(r, Retired(p)) {
      i := Retired(p);
    } else if p.ml.MFull? && Faults(r, IndexM(p)) {
      i := IndexM(p);
    } else if p.dl.DFull? && DecodedD(r.isa, p).None? {
      i := IndexD(p);
    } else {
      i := IndexF(p);
      UnfetchableFaults(r, i);
    }
  }

  lemma ExitComesFirst(r: Run, p: Pipe)
    requires ExitAhead(r, p)
    ensures !Justified(r, p)
  {
    forall i: nat | Retired(p) <= i <= IndexF(p) && Faults(r, i)
      ensures !NoExitBetween(r, Retired(p), i)
    {
      assert i == IndexF(p) && Exits(r, IndexF(p) - 1);
    }
  }

  lemma EarlierFault(r: Run, p: Pipe) returns (j: nat)
    requires OnPath(r, p) && IndexF(p) > Retired(p) && Exits(r, IndexF(p) - 1) && !ExitAhead(r, p)
    ensures Retired(p) <= j < IndexF(p) && Faults(r, j)
  {
    j :| Retired(p) <= j < IndexF(p) && Faults(r, j);
  }

  lemma FaultComesFirst(r: Run, p: Pipe, i: nat)
    requires Shape(p) && SameInFlight(r, p) && OnPath(r, p) && Retired(p) <= i <= IndexF(p) && Faults(r, i)
    requires !ExitAhead(r, p)
    ensures Justified(r, p)
  {
    var last := IndexF(p);
    if i == last > Retired(p) && Exits(r, last - 1) {
      var j := EarlierFault(r, p);
      JustifiedBy(r, p, j);
    } else {
      JustifiedBy(r, p, i);
    }
  }

  // ----- off the path -----

  /** Off the path there is no ecall in flight: not ahead of D, nor in it. */
  lemma NoEcallBeforeD(r: Run, p: Pipe, i: nat)
    requires Shape(p) && SameInFlight(r, p) && Retired(p) <= i < IndexD(p) && (Squash(r.isa, p) || p.dl.DFull?)
    ensures !EcallAt(r, i)
  {
  }

  lemma NoExitInD(r: Run, p: Pipe)
    requires IsRun(r) && WellFormed(r.isa) && Shape(p) && MatchD(r, p) && MatchPC(r, p)
    requires !OnPath(r, p) && !Squash(r.isa, p)
    ensures p.dl.DFull? && !Exits(r, IndexD(p))
  {
    if DecodedD(r.isa, p).Some? {
      if EcallInD(r.isa, p) {
        GuessedEcall(r, p);
      }
      DecodedInD(r, p);
      NoEcallNoExit(r, IndexD(p));
    }
  }

  lemma NoEcallNoExit(r: Run, i: nat)
    requires !EcallAt(r, i)
    ensures !Exits(r, i)
  {
  }

  lemma NoExitAstray(r: Run, p: Pipe, i: nat)
    requires IsRun(r) && WellFormed(r.isa) && Shape(p) && SameInFlight(r, p) && MatchD(r, p) && MatchPC(r, p)
    requires !OnPath(r, p) && Retired(p) <= i <= Newest(r, p)
    ensures !Exits(r, i)
  {
    if !Squash(r.isa, p) {
      NoExitInD(r, p);
    }
    if i < IndexD(p) {
      NoEcallBeforeD(r, p, i);
      NoEcallNoExit(r, i);
    }
  }

  lemma GuessOfEcall(isa: Isa, w: nat, d: Decoded, addr: Word, a: Word, b: Word, predJ: bool)
    requires WellFormed(isa) && isa.decode(w) == Some(d) && d.name.Ecall?
    ensures Guess(w, addr, predJ) == Successor(isa, d, addr, a, b)
  {
    assert DecodesOk(isa, w);
    GuessIsSuccessor(isa, d, w, addr, a, b, predJ);
  }

  /** The fetch behind an ecall is on the path. */
  lemma GuessedEcall(r: Run, p: Pipe)
    requires IsRun(r) && WellFormed(r.isa) && Shape(p) && MatchD(r, p) && !Squash(r.isa, p) && EcallInD(r.isa, p)
    ensures OnPath(r, p)
  {
    DecodedInD(r, p);
    var s := r.at(IndexD(p));
    var d := DecodeAt(r.isa, s);
    GuessOfEcall(r.isa, p.dl.ival, d, s.pc, s.regs[d.srcA], s.regs[d.srcB], p.dl.predJ);
    SeqPC(r, IndexD(p));
  }

  lemma NotGoing(r: Run, i: nat)
    requires IsRun(r) && !GoesOn(r, i)
    ensures Faults(r, i) || Exits(r, i)
  {
    assert Chained(r, i);
  }

  /** Off the path a fault of the program is in flight unless the fetch is just astray. */
  lemma AstrayOrFault(r: Run, p: Pipe)
    requires IsRun(r) && WellFormed(r.isa) && Matches(r, p) && !OnPath(r, p)
    ensures Justified(r, p) <==> !Astray(r, p)
  {
    forall e: nat | Retired(p) <= e <= Newest(r, p)
      ensures !Exits(r, e)
    {
      NoExitAstray(r, p, e);
    }
    FaultOrGo(r, p, Newest(r, p));
  }

  lemma FaultOrGo(r: Run, p: Pipe, last: nat)
    requires IsRun(r) && last == Newest(r, p) && !OnPath(r, p)
    requires forall e: nat :: Retired(p) <= e <= last ==> !Exits(r, e)
    ensures Justified(r, p) <==> !Astray(r, p)
  {
    if !Astray(r, p) {
      var i: nat :| Retired(p) <= i <= last && !GoesOn(r, i);
      NotGoing(r, i);
      assert NoExitBetween(r, Retired(p), i);
    }
    if Justified(r, p) {
      var i: nat :| Retired(p) <= i <= last && Faults(r, i);
      assert !GoesOn(r, i);
    }
  }

  /** What makes a pipeline abort whose fetch is astray: the word it guessed cannot be fetched, or
      the word about to be squashed does not decode. */
  predicate Wild(r: Run, p: Pipe) {
    !CanAccess(p.mem, p.pc, 4) || (Squash(r.isa, p) && p.dl.DFull? && DecodedD(r.isa, p).None?)
  }

  lemma AstrayAborts(r: Run, p: Pipe)
    requires IsRun(r) && WellFormed(r.isa) && Matches(r, p) && Astray(r, p)
    ensures Aborts(r.isa, p) <==> Wild(r, p)
  {
    if p.wl.WFull? {
      assert GoesOn(r, Retired(p));
    }
    if p.ml.MFull? {
      assert GoesOn(r, IndexM(p));
    }
    if !Squash(r.isa, p) && p.dl.DFull? {
      assert GoesOn(r, IndexD(p));
    }
  }

  /** Every abort: it is justified, by a fault the interpreter gets to, exactly unless an exit call
      it gets to instead is in flight, or the fetch has left the path and nothing in flight faults. */
  lemma AbortsJustified(r: Run, p: Pipe)
    requires IsRun(r) && WellFormed(r.isa) && Matches(r, p) && FetchStable(r, IndexF(p)) && Aborts(r.isa, p)
    ensures Justified(r, p) <==> !ExitAhead(r, p) && !Astray(r, p)
  {
    if !OnPath(r, p) {
      AstrayOrFault(r, p);
    } else if ExitAhead(r, p) {
      ExitComesFirst(r, p);
    } else {
      var i := CauseFaults(r, p);
      FaultComesFirst(r, p, i);
    }
  }

  /** Behind such an exit call the pipeline aborts exactly when the next word cannot be fetched,
      although the interpreter exits there. */
  lemma ExitAheadAborts(r: Run, p: Pipe)
    requires IsRun(r) && WellFormed(r.isa) && Matches(r, p) && OnPath(r, p) && FetchStable(r, IndexF(p))
      && ExitAhead(r, p)
    ensures var e := r.at(IndexF(p) - 1);
      Aborts(r.isa, p) <==> !CanAccess(e.mem, Wrap(e.pc + 4), 4)
  {
    var e := IndexF(p) - 1;
    ExitIsEcall(r, e);
    AbortCauses(r, p);
    SeqPC(r, e);
    SeqMem(r, e);
    EcallFields(r, e);
    if Aborts(r.isa, p) {
      var i := CauseFaults(r, p);
      assert i == IndexF(p);
    } else {
      assert p.dl.DFull? && DecodedD(r.isa, p).None? ==> Faults(r, IndexD(p));
    }
  }

  /** An ecall does not branch. */
  lemma EcallFields(r: Run, k: nat)
    requires WellFormed(r.isa) && EcallAt(r, k)
    ensures var s := r.at(k); var d := DecodeAt(r.isa, s);
      Successor(r.isa, d, s.pc, s.regs[d.srcA], s.regs[d.srcB]) == Wrap(s.pc + 4)
  {
    var w := FetchWord(r.at(k).mem, r.at(k).pc);
    if r.isa.decode(w).Some? {
      assert DecodesOk(r.isa, w);
    }
  }

  // ----- whole runs, and a program that ends badly -----

  /** A run without visible stale reads retires only what the interpreter goes on from. It exits
      only where the interpreter does, with its registers, and an abort is classified. */
  lemma RunEnds(r: Run, t: nat -> Pipe, n: nat, c: nat)
    requires RunsFrom(r, t, n) && FetchStableBelow(r, c) && NoVisibleBefore(r, c) && IndexF(t(n)) < c
    ensures var p := t(n);
      && AllGo(r, Retired(p), c)
      && (Step(r.isa, r.env, p).Exit? ==> Exits(r, Retired(p)) && p.regs == r.at(Retired(p)).regs)
      && (Step(r.isa, r.env, p).Abort? ==> (Justified(r, p) <==> !ExitAhead(r, p) && !Astray(r, p)))
  {
    UpToAlways(r, t, n, c);
    RetiredGo(r, t, n, c);
    ExitExact(r, t(n));
    if Step(r.isa, r.env, t(n)).Abort? {
      AbortsJustified(r, t(n));
    }
  }

  const ECALL: nat := 0x73

  const CALL := Decoded(Ecall, RType, 0, 0, 0, 0, 0)

  function LastByte(a: int): Byte {
    if a == 4092 then 0x73 else 0
  }

  /** One page whose last word is an ecall. */
  function LastWord(): Mem {
    map a: int | 0 <= a < 4096 :: LastByte(a)
  }

  lemma CallWord()
    ensures FetchWord(LastWord(), 4092) == ECALL
  {
    var m := LastWord();
    assert LoadBytes(m, 4095, 1) == 0;
    assert LoadBytes(m, 4094, 2) == 0;
    assert LoadBytes(m, 4093, 3) == 0;
  }

  lemma CallAtEnd()
    ensures FetchWord(LastWord(), 4092) == ECALL && Decode(ECALL) == Some(CALL)
    ensures CanAccess(LastWord(), 4092, 4) && !CanAccess(LastWord(), 4096, 4)
  {
    CallWord();
    assert 4096 !in LastWord();
  }

  /** An exit call in the last mapped word: the interpreter exits, the pipeline, whose fetch runs
      ahead, aborts in its second cycle. */
  lemma ExitAtEndAborts(r: Run, p: Pipe)
    requires WellFormed(r.isa) && r.isa.decode(ECALL) == Decode(ECALL)
    requires Initial(p) && p.pc == 4092 && p.mem == LastWord() && SysExits(p.regs)
    requires r.at(0) == Seq(p.pc, p.regs, p.mem, 0)
    ensures Exits(r, 0)
    ensures Step(r.isa, r.env, p).Next? && Step(r.isa, r.env, Step(r.isa, r.env, p).p).Abort?
  {
    CallAtEnd();
  }

  const JUMP: nat := 0x67

  const BACK := Decoded(Jalr, IType, 0, 0, 0, 0, 0)

  function JumpByte(a: int): Byte {
    if a == 4092 then 0x67 else 0
  }

  /** One page whose last word is a jump to address 0. */
  function LastJump(): Mem {
    map a: int | 0 <= a < 4096 :: JumpByte(a)
  }

  lemma JumpWord()
    ensures FetchWord(LastJump(), 4092) == JUMP
  {
    var m := LastJump();
    assert LoadBytes(m, 4095, 1) == 0;
    assert LoadBytes(m, 4094, 2) == 0;
    assert LoadBytes(m, 4093, 3) == 0;
  }

  lemma JumpAtEnd()
    ensures FetchWord(LastJump(), 4092) == JUMP && Decode(JUMP) == Some(BACK)
    ensures CanAccess(LastJump(), 4092, 4) && CanAccess(LastJump(), 0, 4) && !CanAccess(LastJump(), 4096, 4)
  {
    JumpWord();
    assert 4096 !in LastJump();
  }

  /** A jump back in the last mapped word: the interpreter goes on at address 0, the pipeline, whose
      fetch runs ahead, aborts in its second cycle. */
  lemma JumpAtEndAborts(r: Run, p: Pipe)
    requires IsRun(r) && WellFormed(r.isa) && r.isa.decode(JUMP) == Decode(JUMP)
    requires Initial(p) && p.pc == 4092 && p.mem == LastJump()
    requires r.at(0) == Seq(p.pc, p.regs, p.mem, 0)
    ensures GoesOn(r, 0) && r.at(1).pc == 0 && CanAccess(r.at(1).mem, 0, 4)
    ensures Step(r.isa, r.env, p).Next? && Step(r.isa, r.env, Step(r.isa, r.env, p).p).Abort?
  {
    JumpAtEnd();
    assert Chained(r, 0);
    SeqMem(r, 0);
  }
}
