/** The predictor inside the pipeline: which prediction a branch carries when it is resolved, what the
    predictor has learnt by then, and how many control hazards each scheme costs a program. */
module PredictionRuns {
  import opened Words
  import opened Isa
  import opened Sequential
  import opened Pipeline
  import opened Refinement
  import opened RefinementRuns
  import opened Counters
  import P = Predictor
  import B = PredictorBounds

  function BranchOf(isa: Isa, e: ELatch): B.Branch
    requires e.EFull?
  {
    B.Branch(e.addr, isa.taken(e.d.name, e.valA, e.valB))
  }

  /** The branches resolved in the first n cycles, with their decisions. */
  function Resolved(isa: Isa, t: nat -> Pipe, n: nat): seq<B.Branch> {
    if n == 0 then [] else
      Resolved(isa, t, n - 1) + if BranchInE(t(n - 1)) then [BranchOf(isa, t(n - 1).el)] else []
  }

  /** The prediction of the branch in E is the one the predictor would make now. */
  predicate Current(p: Pipe) {
    BranchInE(p) ==> p.el.predJ == P.Predict(p.pred, p.el.addr)
  }

  ghost predicate AllCurrent(t: nat -> Pipe, n: nat) {
    forall m: nat :: m < n ==> Current(t(m))
  }

  /** All mispredictions of a run. */
  function Wrong(p: P.PredState, run: seq<B.Branch>): nat {
    if run == [] then 0 else
      var init, e := run[..|run| - 1], run[|run| - 1];
      Wrong(p, init) + Bit(B.Mispredicts(B.After(p, init), e))
  }

  // ----- what the predictor learns -----

  /** The predictor has resolved the run's branches in order, and the counters tell which it missed. */
  predicate Learnt(start: P.PredState, run: seq<B.Branch>, pred: P.PredState, stats: Stats) {
    && pred == B.After(start, run) && stats.misPrediction == Wrong(start, run)
    && stats.misPrediction + stats.sucPrediction == |run|
  }

  lemma TrainsOnce(isa: Isa, env: Env, p: Pipe, q: Pipe)
    requires Step(isa, env, p) == Next(q) && Shape(p) && Current(p)
    ensures if BranchInE(p) then
              var e := BranchOf(isa, p.el);
              && q.pred == B.Resolve(p.pred, e)
              && q.stats.misPrediction == p.stats.misPrediction + Bit(B.Mispredicts(p.pred, e))
              && q.stats.misPrediction + q.stats.sucPrediction == p.stats.misPrediction + p.stats.sucPrediction + 1
            else
              && q.pred == p.pred && q.stats.misPrediction == p.stats.misPrediction
              && q.stats.sucPrediction == p.stats.sucPrediction
  {
  }

  lemma LearnsOne(start: P.PredState, run: seq<B.Branch>, e: B.Branch, was: P.PredState, had: Stats,
                  pred: P.PredState, stats: Stats)
    requires Learnt(start, run, was, had) && pred == B.Resolve(was, e)
    requires stats.misPrediction == had.misPrediction + Bit(B.Mispredicts(was, e))
    requires stats.misPrediction + stats.sucPrediction == had.misPrediction + had.sucPrediction + 1
    ensures Learnt(start, run + [e], pred, stats)
  {
    var now := run + [e];
    assert now[..|now| - 1] == run && now[|now| - 1] == e;
  }

  lemma LearnsNext(isa: Isa, env: Env, start: P.PredState, p: Pipe, q: Pipe, run: seq<B.Branch>)
    requires Step(isa, env, p) == Next(q) && Shape(p) && Current(p) && Learnt(start, run, p.pred, p.stats)
    ensures Learnt(start, run + if BranchInE(p) then [BranchOf(isa, p.el)] else [], q.pred, q.stats)
  {
    TrainsOnce(isa, env, p, q);
    if BranchInE(p) {
      LearnsOne(start, run, BranchOf(isa, p.el), p.pred, p.stats, q.pred, q.stats);
    } else {
      assert run + [] == run;
    }
  }

  predicate LearntAt(isa: Isa, t: nat -> Pipe, n: nat) {
    Learnt(t(0).pred, Resolved(isa, t, n), t(n).pred, t(n).stats)
  }

  lemma NothingLearnt(isa: Isa, t: nat -> Pipe)
    requires Initial(t(0))
    ensures LearntAt(isa, t, 0)
  {
  }

  lemma LearnsAt(isa: Isa, env: Env, t: nat -> Pipe, m: nat)
    requires Stepped(isa, env, t, m) && Shape(t(m)) && Current(t(m)) && LearntAt(isa, t, m)
    ensures LearntAt(isa, t, m + 1)
  {
    LearnsNext(isa, env, t(0).pred, t(m), t(m + 1), Resolved(isa, t, m));
  }

  lemma ShapeAt(isa: Isa, env: Env, t: nat -> Pipe, m: nat, n: nat)
    requires WellFormed(isa) && Runs(isa, env, t, n) && m < n
    ensures Stepped(isa, env, t, m) && Shape(t(m))
  {
    ShapeAlways(isa, env, t, m);
  }

  /** While predictions are current, the predictor is where resolving the run's branches in order
      leaves it, and the counters count that run's mispredictions and its other branches. */
  lemma LearnsInOrder(isa: Isa, env: Env, t: nat -> Pipe, n: nat)
    requires WellFormed(isa) && Runs(isa, env, t, n) && AllCurrent(t, n)
    ensures LearntAt(isa, t, n)
  {
    NothingLearnt(isa, t);
    for m := 0 to n
      invariant LearntAt(isa, t, m)
    {
      ShapeAt(isa, env, t, m, n);
      assert Current(t(m));
      LearnsAt(isa, env, t, m);
    }
  }

  // ----- when predictions are current -----

  predicate BranchWord(w: nat) {
    w % 128 == 0x63
  }

  predicate SameBits(a: Word, c: Word) {
    a % 64 / 4 == c % 64 / 4
  }

  /** No branch of the bucket of the one in E is right behind it. */
  predicate Apart(isa: Isa, p: Pipe) {
    BranchInE(p) && !Squash(isa, p) ==>
      && (p.dl.DFull? && BranchWord(p.dl.ival) ==> !SameBits(p.dl.addr, p.el.addr))
      && (BranchWord(FetchedWord(p)) ==> !SameBits(p.pc, p.el.addr))
  }

  /** The branches in D and E carry the prediction the predictor would make now. */
  predicate UpToDate(p: Pipe) {
    && (p.dl.DFull? && BranchWord(p.dl.ival) ==> p.dl.predJ == P.Predict(p.pred, p.dl.addr))
    && Current(p)
  }

  /** Training with one address changes no prediction in another bucket. */
  lemma OtherBucket(p: P.PredState, success: bool, a: Word, c: Word)
    requires !SameBits(a, c)
    ensures P.Predict(P.Update(p, success, a), c) == P.Predict(p, c)
  {
    B.BucketByBits(a, c);
  }

  lemma UpToDateNext(isa: Isa, env: Env, p: Pipe, q: Pipe)
    requires WellFormed(isa) && Shape(p) && Step(isa, env, p) == Next(q) && UpToDate(p) && Apart(isa, p)
    ensures UpToDate(q)
  {
    if p.dl.DFull? {
      assert DecodesOk(isa, p.dl.ival);
    }
    if BranchInE(p) && !Squash(isa, p) {
      var success := p.el.predJ == isa.taken(p.el.d.name, p.el.valA, p.el.valB);
      if q.el.EFull? && BranchWord(p.dl.ival) {
        OtherBucket(p.pred, success, p.el.addr, p.dl.addr);
      }
      if BranchWord(FetchedWord(p)) {
        OtherBucket(p.pred, success, p.el.addr, p.pc);
      }
    }
  }

  /** Predictions stay current in every run in which no two branches of one bucket are that close. */
  lemma {:induction false} ApartIsCurrent(isa: Isa, env: Env, t: nat -> Pipe, n: nat)
    requires WellFormed(isa) && Runs(isa, env, t, n) && forall m: nat :: m < n ==> Apart(isa, t(m))
    ensures UpToDate(t(n)) && AllCurrent(t, n)
  {
    if n > 0 {
      ApartIsCurrent(isa, env, t, n - 1);
      ShapeAlways(isa, env, t, n - 1);
      assert Stepped(isa, env, t, n - 1) && Apart(isa, t(n - 1));
      UpToDateNext(isa, env, t(n - 1), t(n));
    }
  }

  // ----- bounds for the whole pipeline -----

  /** The mispredictions of the first k buckets. */
  function MissesUpTo(p: P.PredState, run: seq<B.Branch>, k: nat): nat
    requires k <= 16
  {
    if k == 0 then 0 else MissesUpTo(p, run, k - 1) + B.Misses(p, run, k - 1)
  }

  lemma {:induction false} OneBucket(p: P.PredState, run: seq<B.Branch>, k: nat)
    requires run != [] && k <= 16
    ensures var init, e := run[..|run| - 1], run[|run| - 1];
      MissesUpTo(p, run, k)
      == MissesUpTo(p, init, k) + Bit(P.BucketOf(e.addr) < k && B.Mispredicts(B.After(p, init), e))
  {
    if k > 0 {
      OneBucket(p, run, k - 1);
    }
  }

  lemma {:induction false} NoMisses(p: P.PredState, k: nat)
    requires k <= 16
    ensures MissesUpTo(p, [], k) == 0
  {
    if k > 0 {
      NoMisses(p, k - 1);
    }
  }

  lemma {:induction false} WrongIsSum(p: P.PredState, run: seq<B.Branch>)
    ensures Wrong(p, run) == MissesUpTo(p, run, 16)
  {
    if run == [] {
      NoMisses(p, 16);
    } else {
      WrongIsSum(p, run[..|run| - 1]);
      OneBucket(p, run, 16);
    }
  }

  /** Twice the smaller of the taken branches of a bucket and one more than the others. */
  function BimodalLimit(run: seq<B.Branch>, b: P.Bucket): nat {
    var taken, not := B.Count(B.Outcomes(run, b), true), B.Count(B.Outcomes(run, b), false);
    2 * (if taken <= not + 1 then taken else not + 1)
  }

  function BimodalLimits(run: seq<B.Branch>, k: nat): nat
    requires k <= 16
  {
    if k == 0 then 0 else BimodalLimits(run, k - 1) + BimodalLimit(run, k - 1)
  }

  lemma {:induction false} WithinLimits(run: seq<B.Branch>, k: nat)
    requires k <= 16
    ensures MissesUpTo(P.Fresh(P.Bimodal), run, k) <= BimodalLimits(run, k)
  {
    if k > 0 {
      WithinLimits(run, k - 1);
      B.BimodalBound(run, k - 1);
    }
  }

  /** The counter of mispredictions under two-bit counters, over any run of the pipeline whose
      predictions are current. */
  lemma BimodalRun(isa: Isa, env: Env, t: nat -> Pipe, n: nat)
    requires WellFormed(isa) && Runs(isa, env, t, n) && AllCurrent(t, n) && t(0).pred == P.Fresh(P.Bimodal)
    ensures t(n).stats.misPrediction <= BimodalLimits(Resolved(isa, t, n), 16)
  {
    LearnsInOrder(isa, env, t, n);
    WrongIsSum(t(0).pred, Resolved(isa, t, n));
    WithinLimits(Resolved(isa, t, n), 16);
  }

  ghost predicate FollowsRules(run: seq<B.Branch>, rules: nat -> P.Pattern -> bool) {
    forall b: nat | b < 16 :: B.Follows(run, b, rules(b))
  }

  lemma {:induction false} WithinRules(run: seq<B.Branch>, rules: nat -> P.Pattern -> bool, k: nat)
    requires FollowsRules(run, rules) && k <= 16
    ensures MissesUpTo(P.Fresh(P.SelfAdj), run, k) <= 32 * k
  {
    if k > 0 {
      WithinRules(run, rules, k - 1);
      B.SelfAdjBound(run, k - 1, rules(k - 1));
    }
  }

  /** Where every bucket follows some rule on its last four outcomes, the pipeline mispredicts at most
      512 times, however long it runs. */
  lemma SelfAdjRun(isa: Isa, env: Env, t: nat -> Pipe, n: nat, rules: nat -> P.Pattern -> bool)
    requires WellFormed(isa) && Runs(isa, env, t, n) && AllCurrent(t, n) && t(0).pred == P.Fresh(P.SelfAdj)
    requires FollowsRules(Resolved(isa, t, n), rules)
    ensures t(n).stats.misPrediction <= 512
  {
    LearnsInOrder(isa, env, t, n);
    WrongIsSum(t(0).pred, Resolved(isa, t, n));
    WithinRules(Resolved(isa, t, n), rules, 16);
  }

  // ----- static schemes -----

  predicate Static(p: P.PredState, always: bool) {
    p.scheme == if always then P.AlwaysTaken else P.AlwaysNotTaken
  }

  /** Every branch in flight was predicted that way. */
  predicate Guessed(p: Pipe, always: bool) {
    && Static(p.pred, always)
    && (p.dl.DFull? && BranchWord(p.dl.ival) ==> p.dl.predJ == always)
    && (BranchInE(p) ==> p.el.predJ == always)
  }

  lemma GuessedNext(isa: Isa, env: Env, p: Pipe, q: Pipe, always: bool)
    requires WellFormed(isa) && Step(isa, env, p) == Next(q) && Guessed(p, always)
    ensures Guessed(q, always)
  {
    if p.dl.DFull? {
      assert DecodesOk(isa, p.dl.ival);
    }
  }

  lemma {:induction false} StaticGuess(isa: Isa, env: Env, t: nat -> Pipe, n: nat, always: bool)
    requires WellFormed(isa) && Runs(isa, env, t, n) && Static(t(0).pred, always)
    ensures Guessed(t(n), always) && AllCurrent(t, n)
  {
    if n > 0 {
      StaticGuess(isa, env, t, n - 1, always);
      assert Stepped(isa, env, t, n - 1);
      GuessedNext(isa, env, t(n - 1), t(n), always);
    }
  }

  // ----- static schemes, by the program -----

  /** In the interpreter's run the branch leaves, or does not leave, the straight line. */
  predicate Jumps(r: Run, k: nat) {
    IsBranch(r, k) && r.at(k + 1).pc != Wrap(r.at(k).pc + 4)
  }

  predicate ToNextWord(r: Run, k: nat) {
    IsBranch(r, k) && Wrap(r.at(k).pc + DecodeAt(r.isa, r.at(k)).imm) == Wrap(r.at(k).pc + 4)
  }

  predicate Stays(r: Run, k: nat) {
    IsBranch(r, k) && r.at(k + 1).pc == Wrap(r.at(k).pc + 4) && !ToNextWord(r, k)
  }

  /** What a static scheme gets wrong: the branches that stay, or those that jump. */
  function Against(r: Run, always: bool): nat -> bool {
    (k: nat) => if always then Stays(r, k) else Jumps(r, k)
  }

  function Idle(r: Run): nat -> bool {
    (k: nat) => ToNextWord(r, k)
  }

  predicate AllGuessed(r: Run, log: seq<Resolution>, always: bool) {
    forall k | 0 <= k < |log| :: IsBranch(r, k) ==> log[k].predicted == always
  }

  lemma {:induction false} StaticallyWrong(r: Run, log: seq<Resolution>, always: bool)
    requires IsRun(r) && WellFormed(r.isa) && AllDecided(r, log) && AllGuessed(r, log, always)
    ensures Count(Against(r, always), |log|) <= Mispredicted(r, log)
    ensures Mispredicted(r, log) <= Count(Against(r, always), |log|) + Count(Idle(r), |log|)
    decreases |log|
  {
    if log != [] {
      var k := |log| - 1;
      var init := log[..k];
      forall j | 0 <= j < k
        ensures DecidedAt(r, init, j) && (IsBranch(r, j) ==> init[j].predicted == always)
      {
        assert DecidedAt(r, log, j) && init[j] == log[j];
      }
      StaticallyWrong(r, init, always);
      assert DecidedAt(r, log, k);
      OneWrong(r, log, k, always);
    }
  }

  lemma OneWrong(r: Run, log: seq<Resolution>, k: nat, always: bool)
    requires IsRun(r) && WellFormed(r.isa) && k < |log| && DecidedAt(r, log, k)
    requires IsBranch(r, k) ==> log[k].predicted == always
    ensures var wrong := IsBranch(r, k) && log[k].predicted != log[k].taken;
      Bit(Against(r, always)(k)) <= Bit(wrong) <= Bit(Against(r, always)(k)) + Bit(ToNextWord(r, k))
  {
    SeqPC(r, k);
    BranchDecoded(r, k);
  }

  lemma BranchDecoded(r: Run, k: nat)
    requires WellFormed(r.isa)
    ensures var d := DecodeAt(r.isa, r.at(k)); d.kind.SBType? ==> !d.name.Jal? && !d.name.Jalr?
  {
    assert DecodesOk(r.isa, FetchWord(r.at(k).mem, r.at(k).pc));
  }

  predicate GuessedAt(r: Run, t: nat -> Pipe, n: nat, always: bool) {
    AllGuessed(r, Resolutions(r.isa, t, n), always)
  }

  /** What one more cycle needs of an agreeing run. */
  lemma GuessFacts(r: Run, t: nat -> Pipe, m: nat, n: nat, always: bool)
    requires RunsFrom(r, t, n) && AllAgree(r, t, n) && Static(t(0).pred, always) && m <= n
    ensures Guessed(t(m), always) && ValuesE(r, t(m)) && |Resolutions(r.isa, t, m)| == IndexE(t(m))
  {
    RunsFewer(r, t, m, n);
    AgreeFewer(r, t, m, n);
    StaticGuess(r.isa, r.env, t, m, always);
    CountersExact(r, t, m);
    assert Agrees(r, t, m);
  }

  lemma LogGuessed(r: Run, t: nat -> Pipe, n: nat, always: bool)
    requires RunsFrom(r, t, n) && AllAgree(r, t, n) && Static(t(0).pred, always)
    ensures GuessedAt(r, t, n, always) && |Resolutions(r.isa, t, n)| == IndexE(t(n))
  {
    for m := 0 to n
      invariant GuessedAt(r, t, m, always)
    {
      GuessFacts(r, t, m, n, always);
      GuessedNextAt(r, t, m, always);
    }
    GuessFacts(r, t, n, n, always);
  }

  lemma GuessedNextAt(r: Run, t: nat -> Pipe, m: nat, always: bool)
    requires Guessed(t(m), always) && ValuesE(r, t(m)) && |Resolutions(r.isa, t, m)| == IndexE(t(m))
    requires GuessedAt(r, t, m, always)
    ensures GuessedAt(r, t, m + 1, always)
  {
    GuessLogged(r, t(m), Resolutions(r.isa, t, m), always);
    assert Resolutions(r.isa, t, m + 1) == Logged(r.isa, t(m), Resolutions(r.isa, t, m));
  }

  lemma GuessLogged(r: Run, p: Pipe, log: seq<Resolution>, always: bool)
    requires Guessed(p, always) && ValuesE(r, p) && AllGuessed(r, log, always) && |log| == IndexE(p)
    ensures AllGuessed(r, Logged(r.isa, p, log), always)
  {
  }

  /** Control hazards of an agreeing run under a static scheme, by the interpreter: the jumps through
      registers, and the branches that stay where every branch is predicted taken, or that jump where
      none is. In question are only branches to the next word, which go there either way. */
  lemma StaticHazards(r: Run, t: nat -> Pipe, n: nat, always: bool)
    requires RunsFrom(r, t, n) && AllAgree(r, t, n) && Static(t(0).pred, always)
    ensures var p := t(n); var least := Count(Jalrs(r), IndexE(p)) + Count(Against(r, always), IndexE(p));
      && least <= p.stats.controlHazard <= least + Count(Idle(r), IndexE(p))
      && ((forall k: nat :: k < IndexE(p) ==> !ToNextWord(r, k)) ==> p.stats.controlHazard == least)
  {
    CountersExact(r, t, n);
    LogGuessed(r, t, n, always);
    StaticallyWrong(r, Resolutions(r.isa, t, n), always);
    if forall k: nat :: k < IndexE(t(n)) ==> !ToNextWord(r, k) {
      NoneCounted(Idle(r), IndexE(t(n)));
    }
  }

  lemma {:induction false} NoneCounted(f: nat -> bool, n: nat)
    requires forall k: nat :: k < n ==> !f(k)
    ensures Count(f, n) == 0
  {
    if n > 0 {
      NoneCounted(f, n - 1);
    }
  }
}
