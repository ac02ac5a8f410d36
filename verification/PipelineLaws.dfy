/** Laws of the pipeline that hold for every program, hazard or not: ecall isolation, control flow,
    exact cycle accounting and bounded progress. */
module PipelineLaws {
  import opened Words
  import opened Isa
  import opened Pipeline

  /** An ecall in Writeback is alone in the machine. */
  lemma EcallIsolation(isa: Isa, env: Env, t: nat -> Pipe, n: nat)
    requires WellFormed(isa) && Runs(isa, env, t, n)
    ensures EcallInW(t(n)) ==> t(n).dl.DEmpty? && t(n).el.EEmpty? && t(n).ml.MEmpty?
  {
    ShapeAlways(isa, env, t, n);
  }

  /** A squash costs exactly two cycles and nothing squashed gets further: the memory stage
      sees the squashing instruction, two bubbles, and then the instruction at its successor. */
  lemma SquashIsolation(isa: Isa, env: Env, t: nat -> Pipe, n: nat)
    requires WellFormed(isa) && Runs(isa, env, t, n + 4) && Squash(isa, t(n))
    ensures var e := t(n).el;
      && t(n + 1).ml.MFull? && t(n + 1).ml.addr == e.addr
      && t(n + 2).ml.MEmpty? && t(n + 3).ml.MEmpty?
      && t(n + 4).ml.MFull? && t(n + 4).ml.addr == Successor(isa, e.d, e.addr, e.valA, e.valB)
  {
    ShapeAlways(isa, env, t, n);
    assert Stepped(isa, env, t, n) && Stepped(isa, env, t, n + 1) && Stepped(isa, env, t, n + 2)
      && Stepped(isa, env, t, n + 3);
    var e := t(n).el;
    var target := Successor(isa, e.d, e.addr, e.valA, e.valB);
    assert t(n + 1).pc == target && t(n + 1).dl.DEmpty? && t(n + 1).el.EEmpty?;
    assert t(n + 2).dl.DFull? && t(n + 2).dl.addr == target && t(n + 2).el.EEmpty?;
    assert t(n + 3).el.EFull? && t(n + 3).el.addr == target;
  }

  // ----- control flow -----

  /** Where the instruction in E goes with the operands it has. */
  function TargetOf(isa: Isa, e: ELatch): Word
    requires e.EFull?
  {
    Successor(isa, e.d, e.addr, e.valA, e.valB)
  }

  /** Behind an instruction in E that does not redirect comes its successor. */
  predicate Follows(isa: Isa, p: Pipe) {
    p.el.EFull? && !Squash(isa, p) ==> (if p.dl.DFull? then p.dl.addr else p.pc) == TargetOf(isa, p.el)
  }

  lemma FollowsNext(isa: Isa, env: Env, p: Pipe, q: Pipe)
    requires WellFormed(isa) && Shape(p) && Step(isa, env, p) == Next(q)
    ensures Follows(isa, q)
  {
    if q.el.EFull? && !Squash(isa, q) {
      GuessIsSuccessor(isa, q.el.d, p.dl.ival, q.el.addr, q.el.valA, q.el.valB, q.el.predJ);
    }
  }

  lemma FollowsAlways(isa: Isa, env: Env, t: nat -> Pipe, n: nat)
    requires WellFormed(isa) && Runs(isa, env, t, n)
    ensures Follows(isa, t(n))
  {
    if n > 0 {
      ShapeAlways(isa, env, t, n - 1);
      assert Stepped(isa, env, t, n - 1);
      FollowsNext(isa, env, t(n - 1), t(n));
    }
  }

  /** The next instruction to enter E is the one at target. */
  predicate Heading(p: Pipe, target: Word) {
    p.el.EEmpty? && (if p.dl.DFull? then p.dl.addr else p.pc) == target
  }

  lemma HeadsOff(isa: Isa, env: Env, p: Pipe, q: Pipe)
    requires Shape(p) && Follows(isa, p) && p.el.EFull? && Step(isa, env, p) == Next(q)
    ensures if q.el.EFull? then q.el.addr == TargetOf(isa, p.el) else Heading(q, TargetOf(isa, p.el))
  {
  }

  lemma HeadsOn(isa: Isa, env: Env, p: Pipe, q: Pipe, target: Word)
    requires Shape(p) && Heading(p, target) && Step(isa, env, p) == Next(q)
    ensures if q.el.EFull? then q.el.addr == target else Heading(q, target)
  {
  }

  /** No instruction is in E strictly between two cycles. */
  ghost predicate NoneInE(t: nat -> Pipe, m: nat, n: nat) {
    forall i: nat :: m < i < n ==> t(i).el.EEmpty?
  }

  /** Whatever is squashed, stalled or stale in between: the instruction that enters E after
      another one is the one where that went with the operands it had. */
  lemma {:induction false} SuccessorFollows(isa: Isa, env: Env, t: nat -> Pipe, m: nat, n: nat)
    requires WellFormed(isa) && Runs(isa, env, t, n) && m < n && t(m).el.EFull?
    requires NoneInE(t, m, n)
    ensures var target := TargetOf(isa, t(m).el);
      if t(n).el.EFull? then t(n).el.addr == target else Heading(t(n), target)
    decreases n
  {
    ShapeAlways(isa, env, t, n - 1);
    assert Stepped(isa, env, t, n - 1);
    if n - 1 == m {
      FollowsAlways(isa, env, t, m);
      HeadsOff(isa, env, t(m), t(n));
    } else {
      SuccessorFollows(isa, env, t, m, n - 1);
      HeadsOn(isa, env, t(n - 1), t(n), TargetOf(isa, t(m).el));
    }
  }

  // ----- accounting and progress -----

  /** Instructions between Fetch and retirement. */
  function InFlight(p: Pipe): nat {
    Bit(p.dl.DFull?) + Bit(p.el.EFull?) + Bit(p.ml.MFull?) + Bit(p.wl.WFull?)
  }

  predicate Accounted(p: Pipe) {
    p.stats.cycles == p.stats.instrCnt + p.stats.ecallNum + InFlight(p) + 2 * p.stats.controlHazard + p.stats.fstall
  }

  lemma AccountedKept(isa: Isa, env: Env, p: Pipe)
    requires Shape(p) && Accounted(p) && Step(isa, env, p).Next?
    ensures Accounted(Step(isa, env, p).p) && Step(isa, env, p).p.stats.cycles == p.stats.cycles + 1
  {
  }

  /** Every cycle is a retirement, an instruction still in flight, half of a two-cycle
      squash, or a fetch stall. */
  lemma {:induction false} CycleAccounting(isa: Isa, env: Env, t: nat -> Pipe, n: nat)
    requires WellFormed(isa) && Runs(isa, env, t, n)
    ensures Accounted(t(n)) && t(n).stats.cycles == n
  {
    if n != 0 {
      CycleAccounting(isa, env, t, n - 1);
      ShapeAlways(isa, env, t, n - 1);
      assert Stepped(isa, env, t, n - 1);
      AccountedKept(isa, env, t(n - 1));
    }
  }

  /** Cycles until the next retirement, read off the latches; 0 while an instruction is in
      Writeback. */
  function Wait(p: Pipe): nat {
    if p.wl.WFull? then 0 else if p.ml.MFull? then 1 else if p.el.EFull? then 2 else if p.dl.DFull? then 3 else 4
  }

  lemma WaitShrinks(isa: Isa, env: Env, p: Pipe)
    requires Shape(p) && Step(isa, env, p).Next?
    ensures var q := Step(isa, env, p).p;
            if p.wl.WFull? then Wait(q) <= 3 else Wait(q) == Wait(p) - 1
  {
  }

  lemma WaitNext(isa: Isa, env: Env, t: nat -> Pipe, n: nat)
    requires WellFormed(isa) && Runs(isa, env, t, n + 1)
    ensures if t(n).wl.WFull? then Wait(t(n + 1)) <= 3 else Wait(t(n + 1)) == Wait(t(n)) - 1
  {
    ShapeAlways(isa, env, t, n);
    assert Stepped(isa, env, t, n);
    WaitShrinks(isa, env, t(n));
  }

  /** The first state from n on that holds a retiring instruction is exactly Wait cycles away. */
  lemma {:induction false} NextRetirement(isa: Isa, env: Env, t: nat -> Pipe, n: nat, k: nat)
    requires WellFormed(isa) && Runs(isa, env, t, n + k) && k <= Wait(t(n))
    ensures Wait(t(n + k)) == Wait(t(n)) - k
  {
    if k > 0 {
      NextRetirement(isa, env, t, n, k - 1);
      WaitNext(isa, env, t, n + k - 1);
    }
  }

  /** The first instruction to retire is in Writeback in the fifth cycle, none earlier. */
  lemma FirstRetirement(isa: Isa, env: Env, t: nat -> Pipe, n: nat)
    requires WellFormed(isa) && Runs(isa, env, t, n) && n <= 4
    ensures t(n).wl.WFull? <==> n == 4
  {
    NextRetirement(isa, env, t, 0, n);
  }

  /** A run that lasts four more cycles after a retirement retires again within them. */
  lemma BoundedProgress(isa: Isa, env: Env, t: nat -> Pipe, n: nat) returns (m: nat)
    requires WellFormed(isa) && Runs(isa, env, t, n + 4) && t(n).wl.WFull?
    ensures n < m <= n + 4 && t(m).wl.WFull?
    ensures forall i: nat :: n < i < m ==> !t(i).wl.WFull?
  {
    WaitNext(isa, env, t, n);
    var k := Wait(t(n + 1));
    m := n + 1 + k;
    forall i: nat | n < i <= m
      ensures t(i).wl.WFull? <==> i == m
    {
      NextRetirement(isa, env, t, n + 1, i - n - 1);
    }
  }

  /** No livelock: n cycles retire at least (n - 4) / 4 instructions. */
  lemma {:induction false} Throughput(isa: Isa, env: Env, t: nat -> Pipe, n: nat)
    requires WellFormed(isa) && Runs(isa, env, t, n)
    ensures n + Wait(t(n)) <= 4 * (t(n).stats.instrCnt + t(n).stats.ecallNum) + 4
  {
    if n != 0 {
      Throughput(isa, env, t, n - 1);
      assert Stepped(isa, env, t, n - 1);
      WaitNext(isa, env, t, n - 1);
    }
  }
}
