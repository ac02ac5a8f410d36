/** The simulation relation over whole runs: why there are bubbles, and the exact condition under
    which the relation holds throughout. */
module RefinementRuns {
  import opened Words
  import opened Isa
  import opened Sequential
  import opened Pipeline
  import opened Refinement

  lemma RetiredStep(r: Run, t: nat -> Pipe, n: nat)
    requires RunsFrom(r, t, n + 1)
    ensures Retired(t(n + 1)) == Retired(t(n)) + Bit(t(n).wl.WFull?) == IndexM(t(n))
    ensures IndexM(t(n + 1)) == IndexE(t(n)) && IndexD(t(n)) <= IndexD(t(n + 1)) <= IndexD(t(n)) + 1
  {
    assert Stepped(r.isa, r.env, t, n);
    ShapeAlways(r.isa, r.env, t, n);
    IndexStep(r.isa, r.env, t(n));
  }

  /** Pipeline and interpreter agree after n cycles. */
  predicate Agrees(r: Run, t: nat -> Pipe, n: nat) {
    Matches(r, t(n))
  }

  ghost predicate AllAgree(r: Run, t: nat -> Pipe, n: nat) {
    forall m: nat :: m <= n ==> Agrees(r, t, m)
  }

  lemma AgreeFewer(r: Run, t: nat -> Pipe, m: nat, n: nat)
    requires AllAgree(r, t, n) && m <= n
    ensures AllAgree(r, t, m)
  {
  }

  lemma NothingAtStart(r: Run, t: nat -> Pipe)
    requires RunsFrom(r, t, 0)
    ensures NoVisibleBefore(r, IndexD(t(0)))
  {
  }

  // ----- the exact condition -----

  predicate Drains(d: Decoded) {
    d.name.Jalr? || d.name.Ecall? || d.kind.SBType?
  }

  /** Why the pipeline may hold a bubble between instructions k - 1 and k. */
  predicate Apart(r: Run, k: nat) {
    k > 0 ==>
      var d := DecodeAt(r.isa, r.at(k - 1));
      Drains(d) || (d.dstM != 0 && Reads(DecodeAt(r.isa, r.at(k)), d.dstM))
  }

  predicate GapBeforeF(r: Run, p: Pipe) {
    p.dl.DEmpty? && p.el.EEmpty? && IndexF(p) > 0 ==> Drains(DecodeAt(r.isa, r.at(IndexF(p) - 1)))
  }

  predicate GapBeforeD(r: Run, p: Pipe) {
    p.dl.DFull? && p.el.EEmpty? ==> Apart(r, IndexD(p))
  }

  predicate GapBeforeE(r: Run, p: Pipe) {
    p.el.EFull? && p.ml.MEmpty? ==> Apart(r, IndexE(p))
  }

  /** Every bubble between neighbouring instructions has its reason. */
  predicate Gaps(r: Run, p: Pipe) {
    GapBeforeF(r, p) && GapBeforeD(r, p) && GapBeforeE(r, p)
  }

  /** The instructions in W, M and E are the sequential run's, whatever their operands. */
  predicate SameInFlight(r: Run, p: Pipe) {
    && (p.wl.WFull? ==> p.wl.d == DecodeAt(r.isa, r.at(Retired(p))))
    && (p.ml.MFull? ==> p.ml.d == DecodeAt(r.isa, r.at(IndexM(p))))
    && (p.el.EFull? ==> p.el.d == DecodeAt(r.isa, r.at(IndexE(p))))
  }

  predicate EcallAt(r: Run, k: nat) {
    DecodeAt(r.isa, r.at(k)).name.Ecall?
  }

  /** When D and E are both empty, what is ahead of them drained them. */
  lemma EmptyFront(isa: Isa, env: Env, p: Pipe, q: Pipe)
    requires Shape(p) && Step(isa, env, p) == Next(q) && q.dl.DEmpty? && q.el.EEmpty?
    ensures Squash(isa, p) || EcallInE(p) || EcallInM(p)
    ensures IndexF(q) == if p.el.EFull? then IndexE(p) + 1 else IndexM(p) + 1
  {
  }

  lemma GapFKept(r: Run, p: Pipe, q: Pipe)
    requires SameInFlight(r, p) && Shape(p) && Steps(r, p, q)
    ensures GapBeforeF(r, q)
  {
    if q.dl.DEmpty? && q.el.EEmpty? {
      EmptyFront(r.isa, r.env, p, q);
    }
  }

  lemma GapDKept(r: Run, p: Pipe, q: Pipe)
    requires IsRun(r) && SameInFlight(r, p) && MatchD(r, p) && Shape(p) && Steps(r, p, q) && GapBeforeF(r, p)
    ensures GapBeforeD(r, q)
  {
    StepIndices(r.isa, r.env, p, q);
    if LoadUse(r.isa, p) {
      DecodedInD(r, p);
    }
  }

  lemma GapEKept(r: Run, p: Pipe, q: Pipe)
    requires Shape(p) && Steps(r, p, q) && GapBeforeD(r, p)
    ensures GapBeforeE(r, q)
  {
  }

  lemma GapsNext(r: Run, t: nat -> Pipe, n: nat)
    requires RunsFrom(r, t, n + 1) && Matches(r, t(n)) && Gaps(r, t(n))
    ensures Gaps(r, t(n + 1))
  {
    assert Stepped(r.isa, r.env, t, n);
    assert SameInFlight(r, t(n));
    GapFKept(r, t(n), t(n + 1));
    GapDKept(r, t(n), t(n + 1));
    GapEKept(r, t(n), t(n + 1));
  }

  lemma {:induction false} GapsAlways(r: Run, t: nat -> Pipe, n: nat)
    requires RunsFrom(r, t, n) && AllAgree(r, t, n)
    ensures Gaps(r, t(n))
  {
    if n > 0 {
      GapsAlways(r, t, n - 1);
      assert Agrees(r, t, n - 1);
      GapsNext(r, t, n - 1);
    }
  }

  lemma FieldsAt(r: Run, k: nat)
    requires WellFormed(r.isa)
    ensures FieldsOk(DecodeAt(r.isa, r.at(k)))
  {
    var w := FetchWord(r.at(k).mem, r.at(k).pc);
    if r.isa.decode(w).Some? {
      assert DecodesOk(r.isa, w);
    }
  }

  /** When the reader of a stale-read triple leaves Decode, the other two are right ahead of it. */
  lemma StaleReadIsStale(r: Run, p: Pipe, k: nat)
    requires IsRun(r) && WellFormed(r.isa) && Matches(r, p) && Gaps(r, p)
    requires StaleRead(r, k) && IndexD(p) == k + 2 && NextE(r.isa, p).EFull?
    ensures StaleNow(r.isa, p)
  {
    FieldsAt(r, k);
    FieldsAt(r, k + 1);
    DecodedInD(r, p);
    assert p.el.EFull? && p.ml.MFull?;
    assert LoadedM(p) == ValM(r.isa, r.at(k));
    assert ComputedE(r.isa, p) == ValE(r.isa, r.at(k + 1));
  }

  /** The reader of a triple that makes a difference makes it in the pipeline. */
  lemma VisibleReadShows(r: Run, p: Pipe, k: nat)
    requires IsRun(r) && WellFormed(r.isa) && Matches(r, p) && Gaps(r, p)
    requires StaleRead(r, k) && IndexD(p) == k + 2 && NextE(r.isa, p).EFull?
    ensures WrongNow(r.isa, p) <==> WrongRead(r, k)
    ensures StrayNow(r.isa, p) <==> StrayRead(r, k)
  {
    StaleReadIsStale(r, p, k);
    VisibleIsVisibleRead(r, p);
    assert k == IndexM(p);
  }

  /** The instruction in Decode leaves it in cycle n + 1. */
  lemma LeavesDecode(r: Run, t: nat -> Pipe, n: nat)
    requires RunsFrom(r, t, n + 1) && Matches(r, t(n))
    ensures IndexD(t(n + 1)) == IndexD(t(n)) + Bit(NextE(r.isa, t(n)).EFull?)
    ensures VisibleNow(r.isa, t(n)) ==> NextE(r.isa, t(n)).EFull?
  {
    assert Stepped(r.isa, r.env, t, n);
    Indices(r, t(n), t(n + 1));
  }

  lemma {:induction false} AgreeIf(r: Run, t: nat -> Pipe, n: nat)
    requires RunsFrom(r, t, n) && FetchStableBelow(r, n)
    requires NoVisibleBefore(r, IndexD(t(n)))
    ensures AllAgree(r, t, n)
  {
    if n == 0 {
      StartMatches(r, t);
    } else {
      RetiredStep(r, t, n - 1);
      FetchStableFewer(r, n - 1, n);
      NoneFewer(Visible(r), IndexD(t(n - 1)), IndexD(t(n)));
      AgreeIf(r, t, n - 1);
      assert Agrees(r, t, n - 1);
      NextExact(r, t, n - 1);
      if VisibleNow(r.isa, t(n - 1)) {
        VisibleIsStale(r.isa, t(n - 1));
        VisibleIsVisibleRead(r, t(n - 1));
        LeavesDecode(r, t, n - 1);
        NotVisible(r, IndexD(t(n)), IndexM(t(n - 1)));
      }
    }
  }

  lemma ReaderNotVisible(r: Run, t: nat -> Pipe, n: nat, k: nat)
    requires RunsFrom(r, t, n + 1) && FetchStableBelow(r, n + 1)
    requires AllAgree(r, t, n + 1) && Gaps(r, t(n))
    requires k + 2 == IndexD(t(n)) < IndexD(t(n + 1))
    ensures !Visible(r)(k)
  {
    assert Agrees(r, t, n) && Agrees(r, t, n + 1);
    LeavesDecode(r, t, n);
    if VisibleRead(r, k) {
      VisibleReadShows(r, t(n), k);
      NextExact(r, t, n);
    }
  }

  lemma NoReaderVisible(r: Run, t: nat -> Pipe, n: nat)
    requires RunsFrom(r, t, n + 1) && FetchStableBelow(r, n + 1) && AllAgree(r, t, n + 1)
    ensures 2 <= IndexD(t(n)) < IndexD(t(n + 1)) ==> !Visible(r)(IndexD(t(n)) - 2)
  {
    if 2 <= IndexD(t(n)) < IndexD(t(n + 1)) {
      GapsAlways(r, t, n);
      ReaderNotVisible(r, t, n, IndexD(t(n)) - 2);
    }
  }

  lemma AgreeOnlyIfNext(r: Run, t: nat -> Pipe, n: nat)
    requires RunsFrom(r, t, n + 1) && FetchStableBelow(r, n + 1) && AllAgree(r, t, n + 1)
    requires NoVisibleBefore(r, IndexD(t(n)))
    ensures NoVisibleBefore(r, IndexD(t(n + 1)))
  {
    var i, j := IndexD(t(n)), IndexD(t(n + 1));
    assert i <= j <= i + 1 by {
      RetiredStep(r, t, n);
    }
    assert 2 <= i < j ==> !Visible(r)(i - 2) by {
      NoReaderVisible(r, t, n);
    }
    NoneMore(Visible(r), i, j);
  }

  lemma {:induction false} AgreeOnlyIf(r: Run, t: nat -> Pipe, n: nat)
    requires RunsFrom(r, t, n) && FetchStableBelow(r, n)
    requires AllAgree(r, t, n)
    ensures NoVisibleBefore(r, IndexD(t(n)))
  {
    if n == 0 {
      NothingAtStart(r, t);
    } else {
      RunsFewer(r, t, n - 1, n);
      FetchStableFewer(r, n - 1, n);
      AgreeFewer(r, t, n - 1, n);
      AgreeOnlyIf(r, t, n - 1);
      AgreeOnlyIfNext(r, t, n - 1);
    }
  }

  /** For a run of n cycles: the simulation relation holds throughout exactly when none of
      the instructions that have left Decode completes a visible stale read. */
  lemma AgreementExact(r: Run, t: nat -> Pipe, n: nat)
    requires RunsFrom(r, t, n) && FetchStableBelow(r, n)
    ensures AllAgree(r, t, n) <==> NoVisibleBefore(r, IndexD(t(n)))
  {
    if AllAgree(r, t, n) {
      AgreeOnlyIf(r, t, n);
    }
    if NoVisibleBefore(r, IndexD(t(n))) {
      AgreeIf(r, t, n);
    }
  }
}
