/** What the simulator's counters count, in terms of the program: over an agreeing run each of them
    is a sum over the instructions of the sequential run, and so is the number of cycles. */
module Counters {
  import opened Words
  import opened Isa
  import opened Sequential
  import opened Pipeline
  import opened PipelineLaws
  import opened Refinement
  import opened RefinementRuns

  // ----- sums over the program -----

  /** How many of the first n instructions have the property. */
  function Count(f: nat -> bool, n: nat): nat {
    if n == 0 then 0 else Count(f, n - 1) + Bit(f(n - 1))
  }

  /** Instruction k loads what k + 1 reads. */
  predicate LoadUsePair(r: Run, k: nat) {
    var d := DecodeAt(r.isa, r.at(k));
    d.dstM != 0 && Reads(DecodeAt(r.isa, r.at(k + 1)), d.dstM)
  }

  predicate IsBranch(r: Run, k: nat) {
    DecodeAt(r.isa, r.at(k)).kind.SBType?
  }

  predicate IsJalr(r: Run, k: nat) {
    DecodeAt(r.isa, r.at(k)).name.Jalr?
  }

  function Pairs(r: Run): nat -> bool {
    (k: nat) => LoadUsePair(r, k)
  }

  function Ecalls(r: Run): nat -> bool {
    (k: nat) => EcallAt(r, k)
  }

  function Branches(r: Run): nat -> bool {
    (k: nat) => IsBranch(r, k)
  }

  function Jalrs(r: Run): nat -> bool {
    (k: nat) => IsJalr(r, k)
  }

  // ----- predictions -----

  /** The prediction each instruction carried and the decision it came to, as it left E. */
  datatype Resolution = Resolution(predicted: bool, taken: bool)

  function ResolutionOf(isa: Isa, e: ELatch): Resolution
    requires e.EFull?
  {
    Resolution(e.predJ, isa.taken(e.d.name, e.valA, e.valB))
  }

  function Resolutions(isa: Isa, t: nat -> Pipe, n: nat): seq<Resolution> {
    if n == 0 then [] else
      Resolutions(isa, t, n - 1) + if t(n - 1).el.EFull? then [ResolutionOf(isa, t(n - 1).el)] else []
  }

  /** Branches among the resolved instructions that were predicted wrong. */
  function Mispredicted(r: Run, log: seq<Resolution>): nat {
    if log == [] then 0 else
      var k := |log| - 1;
      Mispredicted(r, log[..k]) + Bit(IsBranch(r, k) && log[k].predicted != log[k].taken)
  }

  /** The decisions are the sequential run's where they make a difference: a branch to the next
      word goes there either way. */
  predicate DecidedAt(r: Run, log: seq<Resolution>, k: nat)
    requires k < |log|
  {
    var s := r.at(k);
    var d := DecodeAt(r.isa, s);
    IsBranch(r, k) && Wrap(s.pc + d.imm) != Wrap(s.pc + 4)
    ==> (log[k].taken <==> r.isa.taken(d.name, s.regs[d.srcA], s.regs[d.srcB]))
  }

  // ----- the invariant -----

  /** The counters of a state, log being the resolutions so far. */
  predicate Counted(r: Run, p: Pipe, log: seq<Resolution>) {
    && |log| == IndexE(p)
    && p.stats.loadUseHazard == Count(Pairs(r), IndexE(p))
    && p.stats.misPrediction == Mispredicted(r, log)
    && p.stats.misPrediction + p.stats.sucPrediction == Count(Branches(r), IndexE(p))
    && p.stats.controlHazard == Count(Jalrs(r), IndexE(p)) + Mispredicted(r, log)
    && p.stats.ecallNum == Count(Ecalls(r), Retired(p))
    && p.stats.fstall == Count(Pairs(r), IndexE(p)) + Count(Ecalls(r), IndexD(p))
                         + Count(Ecalls(r), IndexE(p)) + Count(Ecalls(r), IndexM(p))
  }

  /** Why a fetch is held back, one cycle each: a load-use pair, or an ecall in D, E or M. */
  lemma StallReasons(isa: Isa, p: Pipe)
    requires Shape(p)
    ensures Bit(Stall(isa, p))
            == Bit(LoadUse(isa, p)) + Bit(EcallLeaves(isa, p)) + Bit(EcallInE(p)) + Bit(EcallInM(p))
  {
  }

  predicate EcallLeaves(isa: Isa, p: Pipe) {
    EcallInD(isa, p) && Leaving(isa, p)
  }

  /** The pair behind a load in E is in D. */
  lemma PairInE(r: Run, p: Pipe)
    requires IsRun(r) && Shape(p) && SameInFlight(r, p) && MatchD(r, p) && !Aborts(r.isa, p) && p.el.EFull?
    ensures LoadUse(r.isa, p) <==> LoadUsePair(r, IndexE(p))
  {
    if p.el.d.dstM != 0 {
      DecodedInD(r, p);
    }
  }

  lemma LeavesD(r: Run, p: Pipe, q: Pipe)
    requires IsRun(r) && MatchD(r, p) && Steps(r, p, q)
    ensures IndexD(q) == IndexD(p) + Bit(Leaving(r.isa, p))
    ensures Leaving(r.isa, p) ==> (EcallLeaves(r.isa, p) <==> EcallAt(r, IndexD(p)))
  {
    StepIndices(r.isa, r.env, p, q);
    if Leaving(r.isa, p) {
      DecodedInD(r, p);
    }
  }

  /** The count goes on by one if an instruction passes and has the property. */
  lemma CountPassed(f: nat -> bool, i: nat, passes: bool, has: bool)
    requires if passes then has == f(i) else !has
    ensures Count(f, i + Bit(passes)) == Count(f, i) + Bit(has)
  {
  }

  // ----- one cycle -----

  lemma PairsNext(r: Run, p: Pipe)
    requires IsRun(r) && Shape(p) && SameInFlight(r, p) && MatchD(r, p) && !Aborts(r.isa, p)
    ensures Count(Pairs(r), IndexD(p)) == Count(Pairs(r), IndexE(p)) + Bit(LoadUse(r.isa, p))
  {
    if p.el.EFull? {
      PairInE(r, p);
    }
    CountPassed(Pairs(r), IndexE(p), p.el.EFull?, LoadUse(r.isa, p));
  }

  lemma EcallsInW(r: Run, p: Pipe)
    requires p.wl.WFull? ==> p.wl.d == DecodeAt(r.isa, r.at(Retired(p)))
    ensures Count(Ecalls(r), IndexM(p)) == Count(Ecalls(r), Retired(p)) + Bit(EcallInW(p))
  {
    CountPassed(Ecalls(r), Retired(p), p.wl.WFull?, EcallInW(p));
  }

  lemma EcallsInM(r: Run, p: Pipe)
    requires p.ml.MFull? ==> p.ml.d == DecodeAt(r.isa, r.at(IndexM(p)))
    ensures Count(Ecalls(r), IndexE(p)) == Count(Ecalls(r), IndexM(p)) + Bit(EcallInM(p))
  {
    CountPassed(Ecalls(r), IndexM(p), p.ml.MFull?, EcallInM(p));
  }

  lemma EcallsInE(r: Run, p: Pipe)
    requires p.el.EFull? ==> p.el.d == DecodeAt(r.isa, r.at(IndexE(p)))
    ensures Count(Ecalls(r), IndexD(p)) == Count(Ecalls(r), IndexE(p)) + Bit(EcallInE(p))
  {
    CountPassed(Ecalls(r), IndexE(p), p.el.EFull?, EcallInE(p));
  }

  lemma EcallsLeave(r: Run, p: Pipe, q: Pipe)
    requires IndexD(q) == IndexD(p) + Bit(Leaving(r.isa, p))
    requires Leaving(r.isa, p) ==> (EcallLeaves(r.isa, p) <==> EcallAt(r, IndexD(p)))
    ensures Count(Ecalls(r), IndexD(q)) == Count(Ecalls(r), IndexD(p)) + Bit(EcallLeaves(r.isa, p))
  {
    CountPassed(Ecalls(r), IndexD(p), Leaving(r.isa, p), EcallLeaves(r.isa, p));
  }

  function Logged(isa: Isa, p: Pipe, log: seq<Resolution>): seq<Resolution> {
    if p.el.EFull? then log + [ResolutionOf(isa, p.el)] else log
  }

  predicate BranchInE(p: Pipe) {
    p.el.EFull? && p.el.d.kind.SBType?
  }

  predicate JalrInE(p: Pipe) {
    p.el.EFull? && p.el.d.name.Jalr?
  }

  lemma MispredictedNext(r: Run, p: Pipe, log: seq<Resolution>)
    requires Shape(p) && SameInFlight(r, p) && |log| == IndexE(p)
    ensures Mispredicted(r, Logged(r.isa, p, log)) == Mispredicted(r, log) + Bit(BranchInE(p) && Squash(r.isa, p))
  {
    if p.el.EFull? {
      var more := Logged(r.isa, p, log);
      assert more[..|more| - 1] == log;
    }
  }

  lemma BranchesNext(r: Run, p: Pipe)
    requires p.el.EFull? ==> p.el.d == DecodeAt(r.isa, r.at(IndexE(p)))
    ensures Count(Branches(r), IndexD(p)) == Count(Branches(r), IndexE(p)) + Bit(BranchInE(p))
  {
    CountPassed(Branches(r), IndexE(p), p.el.EFull?, BranchInE(p));
  }

  lemma JalrsNext(r: Run, p: Pipe)
    requires p.el.EFull? ==> p.el.d == DecodeAt(r.isa, r.at(IndexE(p)))
    ensures Count(Jalrs(r), IndexD(p)) == Count(Jalrs(r), IndexE(p)) + Bit(JalrInE(p))
  {
    CountPassed(Jalrs(r), IndexE(p), p.el.EFull?, JalrInE(p));
  }

  /** Redirections: a jump through a register, or a branch predicted wrong. */
  lemma SquashReasons(isa: Isa, p: Pipe)
    requires Shape(p)
    ensures Bit(Squash(isa, p)) == Bit(JalrInE(p)) + Bit(BranchInE(p) && Squash(isa, p))
  {
  }

  /** What a cycle does to the counters. */
  lemma StatsNext(isa: Isa, env: Env, p: Pipe, q: Pipe)
    requires Step(isa, env, p) == Next(q) && Shape(p)
    ensures q.stats.loadUseHazard == p.stats.loadUseHazard + Bit(LoadUse(isa, p))
    ensures q.stats.misPrediction == p.stats.misPrediction + Bit(BranchInE(p) && Squash(isa, p))
    ensures q.stats.misPrediction + q.stats.sucPrediction
            == p.stats.misPrediction + p.stats.sucPrediction + Bit(BranchInE(p))
    ensures q.stats.controlHazard == p.stats.controlHazard + Bit(Squash(isa, p))
    ensures q.stats.ecallNum == p.stats.ecallNum + Bit(EcallInW(p))
    ensures q.stats.fstall == p.stats.fstall + Bit(Stall(isa, p))
  {
  }

  lemma CountedNext(r: Run, p: Pipe, q: Pipe, log: seq<Resolution>)
    requires IsRun(r) && Shape(p) && SameInFlight(r, p) && MatchD(r, p) && Steps(r, p, q) && Counted(r, p, log)
    ensures Counted(r, q, Logged(r.isa, p, log))
  {
    StepIndices(r.isa, r.env, p, q);
    StatsNext(r.isa, r.env, p, q);
    BranchesNext(r, p);
    JalrsNext(r, p);
    SquashReasons(r.isa, p);
    MispredictedNext(r, p, log);
    PairsNext(r, p);
    EcallsInW(r, p);
    EcallsInM(r, p);
    EcallsInE(r, p);
    LeavesD(r, p, q);
    EcallsLeave(r, p, q);
    StallReasons(r.isa, p);
  }

  // ----- the decisions -----

  ghost predicate AllDecided(r: Run, log: seq<Resolution>) {
    forall k | 0 <= k < |log| :: DecidedAt(r, log, k)
  }

  /** A branch in E decides as the sequential run does, unless it goes to the same place anyway. */
  lemma DecidesSame(r: Run, p: Pipe)
    requires ValuesE(r, p) && TargetE(r, p) && p.el.EFull? && Shape(p)
    ensures var s := r.at(IndexE(p)); var d := DecodeAt(r.isa, s);
      IsBranch(r, IndexE(p)) && Wrap(s.pc + d.imm) != Wrap(s.pc + 4)
      ==> (ResolutionOf(r.isa, p.el).taken <==> r.isa.taken(d.name, s.regs[d.srcA], s.regs[d.srcB]))
  {
  }

  lemma DecidedNext(r: Run, p: Pipe, log: seq<Resolution>)
    requires ValuesE(r, p) && TargetE(r, p) && Shape(p) && AllDecided(r, log) && |log| == IndexE(p)
    ensures AllDecided(r, Logged(r.isa, p, log))
  {
    if p.el.EFull? {
      DecidesSame(r, p);
      var more := Logged(r.isa, p, log);
      forall k | 0 <= k < |more|
        ensures DecidedAt(r, more, k)
      {
        if k < |log| {
          assert DecidedAt(r, log, k) && more[k] == log[k];
        }
      }
    }
  }

  // ----- whole runs -----

  ghost predicate CountedAt(r: Run, t: nat -> Pipe, n: nat) {
    Counted(r, t(n), Resolutions(r.isa, t, n)) && AllDecided(r, Resolutions(r.isa, t, n))
  }

  lemma NothingCounted(r: Run, t: nat -> Pipe)
    requires RunsFrom(r, t, 0)
    ensures CountedAt(r, t, 0)
  {
  }

  lemma CountersNext(r: Run, t: nat -> Pipe, n: nat)
    requires RunsFrom(r, t, n + 1) && Agrees(r, t, n) && CountedAt(r, t, n)
    ensures CountedAt(r, t, n + 1)
  {
    var log := Resolutions(r.isa, t, n);
    assert Resolutions(r.isa, t, n + 1) == Logged(r.isa, t(n), log);
    assert Stepped(r.isa, r.env, t, n);
    CountedNext(r, t(n), t(n + 1), log);
    DecidedNext(r, t(n), log);
  }

  /** Over an agreeing run: the load-use counter counts the neighbouring pairs of a load and a
      reader of its target, the prediction counters the branches, the control hazards the jumps
      through registers and the branches predicted wrong, and the fetch is held back once for a
      pair and three times for an ecall. */
  lemma CountersExact(r: Run, t: nat -> Pipe, n: nat)
    requires RunsFrom(r, t, n) && AllAgree(r, t, n)
    ensures CountedAt(r, t, n)
  {
    RunsFewer(r, t, 0, n);
    NothingCounted(r, t);
    for m := 0 to n
      invariant CountedAt(r, t, m)
    {
      RunsFewer(r, t, m + 1, n);
      assert Agrees(r, t, m);
      CountersNext(r, t, m);
    }
  }

  /** So the number of cycles is that of the instructions fetched to stay, two for each redirection,
      one for each load-use pair and three for each ecall, by how far they have come. */
  lemma CyclesExact(r: Run, t: nat -> Pipe, n: nat)
    requires RunsFrom(r, t, n) && AllAgree(r, t, n)
    ensures var p := t(n);
      n == IndexF(p) + 2 * (Count(Jalrs(r), IndexE(p)) + Mispredicted(r, Resolutions(r.isa, t, n)))
           + Count(Pairs(r), IndexE(p))
           + Count(Ecalls(r), IndexD(p)) + Count(Ecalls(r), IndexE(p)) + Count(Ecalls(r), IndexM(p))
  {
    CountersExact(r, t, n);
    CycleAccounting(r.isa, r.env, t, n);
  }
}
