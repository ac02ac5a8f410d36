/** What the predictors achieve over unbounded runs in which every branch is resolved
    (Update) before the next prediction of its bucket. */
module PredictorBounds {
  import opened Words
  import opened Predictor

  /** One resolved branch: its address and its actual outcome. */
  datatype Branch = Branch(addr: int, taken: bool)

  predicate Mispredicts(p: PredState, e: Branch) {
    Predict(p, e.addr) != e.taken
  }

  function Resolve(p: PredState, e: Branch): PredState {
    Update(p, Predict(p, e.addr) == e.taken, e.addr)
  }

  function After(p: PredState, run: seq<Branch>): PredState {
    if run == [] then p else Resolve(After(p, run[..|run| - 1]), run[|run| - 1])
  }

  /** Mispredictions charged to bucket b. */
  function Misses(p: PredState, run: seq<Branch>, b: Bucket): nat {
    if run == [] then 0 else
      var init, e := run[..|run| - 1], run[|run| - 1];
      Misses(p, init, b) + Bit(BucketOf(e.addr) == b && Mispredicts(After(p, init), e))
  }

  /** The outcomes of the branches that share bucket b, oldest first. */
  function Outcomes(run: seq<Branch>, b: Bucket): seq<bool> {
    if run == [] then [] else
      var init, e := run[..|run| - 1], run[|run| - 1];
      if BucketOf(e.addr) == b then Outcomes(init, b) + [e.taken] else Outcomes(init, b)
  }

  function Count(s: seq<bool>, v: bool): nat {
    if s == [] then 0 else Count(s[..|s| - 1], v) + Bit(s[|s| - 1] == v)
  }

  /** A saturating up/down counter driven by the outcomes themselves. */
  function Saturate(c: Counter, taken: bool): Counter {
    if taken then (if c < 3 then c + 1 else 3) else if c > 0 then c - 1 else 0
  }

  function SaturateAll(s: seq<bool>): Counter {
    if s == [] then 0 else Saturate(SaturateAll(s[..|s| - 1]), s[|s| - 1])
  }

  /** Two addresses share a bucket exactly if they agree in bits 2 to 5. */
  lemma BucketByBits(a: int, c: int)
    ensures BucketOf(a) == BucketOf(c) <==> a % 64 / 4 == c % 64 / 4
  {
    QuarterBits(a);
    QuarterBits(c);
  }

  lemma QuarterBits(a: int)
    ensures a / 4 % 16 == a % 64 / 4
  {
    var q, r := a / 64, a % 64;
    assert a / 4 == 16 * q + r / 4;
  }

  /** The predictor accepts an address below zero exactly if those bits are zero. */
  lemma IndexedByBits(a: int)
    ensures Indexed(a) <==> a >= 0 || a % 64 < 4
  {
    QuarterBits(a);
  }

  /** A branch that is always predicted taken costs a misprediction whenever it is not, and the other
      way round. */
  lemma {:induction false} StaticMisses(run: seq<Branch>, b: Bucket)
    ensures Misses(Fresh(AlwaysTaken), run, b) == Count(Outcomes(run, b), false)
    ensures Misses(Fresh(AlwaysNotTaken), run, b) == Count(Outcomes(run, b), true)
  {
    if run != [] {
      var init, e := run[..|run| - 1], run[|run| - 1];
      StaticMisses(init, b);
      SchemeKept(Fresh(AlwaysTaken), init);
      SchemeKept(Fresh(AlwaysNotTaken), init);
      OneMoreOutcome(run, b, true);
      OneMoreOutcome(run, b, false);
    }
  }

  /** The success-driven counter is the saturating one exactly when the prediction being
      judged is the one the counter makes now; a prediction made before another branch of
      the bucket was resolved moves it the wrong way whenever the two differ. */
  lemma AdjustIsSaturate(c: Counter, predicted: bool, taken: bool)
    ensures Adjust(c, predicted == taken) == Saturate(c, taken) <==> predicted == Choose(c)
  {
  }

  lemma {:induction false} SchemeKept(p: PredState, run: seq<Branch>)
    ensures After(p, run).scheme == p.scheme
  {
    if run != [] {
      SchemeKept(p, run[..|run| - 1]);
    }
  }

  /** Each bimodal bucket is a saturating counter of its own branches' outcomes, whatever
      the other buckets do in between. */
  lemma {:induction false} BimodalCounter(run: seq<Branch>, b: Bucket)
    ensures After(Fresh(Bimodal), run).bits[b] == SaturateAll(Outcomes(run, b))
  {
    if run != [] {
      var init, e := run[..|run| - 1], run[|run| - 1];
      BimodalCounter(init, b);
      SchemeKept(Fresh(Bimodal), init);
      if BucketOf(e.addr) == b {
        var o := Outcomes(init, b);
        assert (o + [e.taken])[..|o|] == o;
      }
    }
  }

  /** Potentials for the two halves of the bimodal bound. */
  function Up(c: Counter): nat {
    if c < 2 then 0 else c - 1
  }

  function Down(c: Counter): nat {
    if c < 2 then 2 - c else 0
  }

  /** What one resolution does to the counter of bucket b. */
  lemma PotentialStep(q: PredState, e: Branch, b: Bucket)
    requires q.scheme == Bimodal
    ensures var here := BucketOf(e.addr) == b; var c := Resolve(q, e).bits[b];
      && Bit(here && Mispredicts(q, e)) + Up(c) <= 2 * Bit(here && e.taken) + Up(q.bits[b])
      && Bit(here && Mispredicts(q, e)) + Down(c) <= 2 * Bit(here && !e.taken) + Down(q.bits[b])
  {
  }

  lemma OneMoreOutcome(run: seq<Branch>, b: Bucket, v: bool)
    requires run != []
    ensures var init, e := run[..|run| - 1], run[|run| - 1];
      Count(Outcomes(run, b), v) == Count(Outcomes(init, b), v) + Bit(BucketOf(e.addr) == b && e.taken == v)
  {
    var o, e := Outcomes(run[..|run| - 1], b), run[|run| - 1];
    assert (o + [e.taken])[..|o|] == o;
  }

  lemma {:induction false} BimodalPotential(run: seq<Branch>, b: Bucket)
    ensures var p := Fresh(Bimodal); var o := Outcomes(run, b);
            && Misses(p, run, b) + Up(After(p, run).bits[b]) <= 2 * Count(o, true)
            && Misses(p, run, b) + Down(After(p, run).bits[b]) <= 2 * Count(o, false) + 2
  {
    if run != [] {
      var init, e := run[..|run| - 1], run[|run| - 1];
      BimodalPotential(init, b);
      SchemeKept(Fresh(Bimodal), init);
      OneMoreOutcome(run, b, true);
      OneMoreOutcome(run, b, false);
      PotentialStep(After(Fresh(Bimodal), init), e, b);
    }
  }

  /** A bucket mispredicts at most 2 * min(taken, notTaken + 1) times, however long the run. */
  lemma BimodalBound(run: seq<Branch>, b: Bucket)
    ensures var taken := Count(Outcomes(run, b), true); var notTaken := Count(Outcomes(run, b), false);
            Misses(Fresh(Bimodal), run, b) <= 2 * (if taken <= notTaken + 1 then taken else notTaken + 1)
  {
    BimodalPotential(run, b);
  }

  /** The last n outcomes as a number, most recent in bit 0. */
  function LastOutcomes(s: seq<bool>, n: nat): nat {
    if n == 0 || s == [] then 0 else 2 * LastOutcomes(s[..|s| - 1], n - 1) + Bit(s[|s| - 1])
  }

  lemma {:induction false} LastOutcomesGrow(s: seq<bool>, n: nat)
    ensures LastOutcomes(s, n) < Power2(n)
    ensures LastOutcomes(s, n + 1) == LastOutcomes(s, n) || LastOutcomes(s, n + 1) == LastOutcomes(s, n) + Power2(n)
  {
    if s != [] && n > 0 {
      LastOutcomesGrow(s[..|s| - 1], n - 1);
    }
  }

  /** Resolving a branch shifts its outcome into the low end of the masked history. */
  lemma HistoryShift(q: PredState, e: Branch, o: seq<bool>)
    requires q.scheme == SelfAdj && MaskHis(q.history[BucketOf(e.addr)]) == LastOutcomes(o, 4)
    ensures MaskHis(Resolve(q, e).history[BucketOf(e.addr)]) == LastOutcomes(o + [e.taken], 4)
  {
    assert (o + [e.taken])[..|o|] == o;
    LastOutcomesGrow(o, 3);
    assert Power2(3) == 8;
    assert LastOutcomes(o + [e.taken], 4) == 2 * LastOutcomes(o, 3) + Bit(e.taken);
    assert Resolve(q, e).history[BucketOf(e.addr)] == 2 * LastOutcomes(o, 4) + Bit(e.taken);
  }

  /** The masked history is the last four outcomes of the bucket. */
  lemma {:induction false} HistoryIsLastFour(run: seq<Branch>, b: Bucket)
    ensures MaskHis(After(Fresh(SelfAdj), run).history[b]) == LastOutcomes(Outcomes(run, b), 4)
  {
    var p := Fresh(SelfAdj);
    if run != [] {
      var init, e := run[..|run| - 1], run[|run| - 1];
      HistoryIsLastFour(init, b);
      SchemeKept(p, init);
      if BucketOf(e.addr) == b {
        HistoryShift(After(p, init), e, Outcomes(init, b));
      }
    }
  }

  /** The bucket's branches follow a rule: each outcome is a function of the four before it. */
  predicate Follows(run: seq<Branch>, b: Bucket, rule: Pattern -> bool) {
    if run == [] then true else
      var init, e := run[..|run| - 1], run[|run| - 1];
      Follows(init, b, rule) &&
      (BucketOf(e.addr) == b ==>
        LastOutcomes(Outcomes(init, b), 4) < PATTERNS && e.taken == rule(LastOutcomes(Outcomes(init, b), 4)))
  }

  /** Mispredictions a counter still owes when its outcome is fixed. */
  function Owed(c: Counter, taken: bool): nat {
    if taken then (if c < 2 then 2 - c else 0) else if c >= 2 then c - 1 else 0
  }

  function TotalOwed(cs: seq<Counter>, rule: Pattern -> bool, n: nat): nat
    requires n <= |cs| && n <= PATTERNS
  {
    if n == 0 then 0 else TotalOwed(cs, rule, n - 1) + Owed(cs[n - 1], rule(n - 1))
  }

  lemma {:induction false} OwedChange(cs: seq<Counter>, rule: Pattern -> bool, n: nat, h: Pattern, c: Counter)
    requires n <= |cs| && n <= PATTERNS && h < |cs|
    ensures TotalOwed(cs[h := c], rule, n) ==
            TotalOwed(cs, rule, n) + (if h < n then Owed(c, rule(h)) - Owed(cs[h], rule(h)) else 0)
  {
    if n > 0 {
      OwedChange(cs, rule, n - 1, h, c);
    }
  }

  /** How many of the first n history patterns the rule follows with a taken branch. */
  function TakenPatterns(rule: Pattern -> bool, n: nat): (r: nat)
    requires n <= PATTERNS
    ensures r <= n
  {
    if n == 0 then 0 else TakenPatterns(rule, n - 1) + Bit(rule(n - 1))
  }

  lemma {:induction false} OwedAtStart(rule: Pattern -> bool, n: nat)
    requires n <= PATTERNS
    ensures TotalOwed(ZEROS, rule, n) == 2 * TakenPatterns(rule, n)
  {
    if n > 0 {
      OwedAtStart(rule, n - 1);
    }
  }

  /** Resolving a branch that obeys the rule pays for its own misprediction. */
  lemma SelfAdjStep(q: PredState, e: Branch, rule: Pattern -> bool, n: nat)
    requires q.scheme == SelfAdj && n == PATTERNS
    requires e.taken == rule(MaskHis(q.history[BucketOf(e.addr)]))
    ensures var b := BucketOf(e.addr);
            TotalOwed(Resolve(q, e).table[b], rule, n) + Bit(Mispredicts(q, e)) == TotalOwed(q.table[b], rule, n)
  {
    var b := BucketOf(e.addr);
    var h := MaskHis(q.history[b]);
    OwedChange(q.table[b], rule, n, h, Resolve(q, e).table[b][h]);
  }

  /** Any branch, of this bucket or another. */
  lemma SelfAdjOneMore(q: PredState, e: Branch, b: Bucket, rule: Pattern -> bool, n: nat)
    requires q.scheme == SelfAdj && n == PATTERNS
    requires BucketOf(e.addr) == b ==> e.taken == rule(MaskHis(q.history[b]))
    ensures TotalOwed(Resolve(q, e).table[b], rule, n) + Bit(BucketOf(e.addr) == b && Mispredicts(q, e))
            == TotalOwed(q.table[b], rule, n)
  {
    if BucketOf(e.addr) == b {
      SelfAdjStep(q, e, rule, n);
    }
  }

  lemma RuleAtHistory(run: seq<Branch>, b: Bucket, rule: Pattern -> bool)
    requires Follows(run, b, rule) && run != []
    ensures var init, e := run[..|run| - 1], run[|run| - 1];
      BucketOf(e.addr) == b ==> e.taken == rule(MaskHis(After(Fresh(SelfAdj), init).history[b]))
  {
    HistoryIsLastFour(run[..|run| - 1], b);
  }

  lemma SelfAdjLast(run: seq<Branch>, b: Bucket, rule: Pattern -> bool, n: nat)
    requires Follows(run, b, rule) && n == PATTERNS && run != []
    ensures var p, init, e := Fresh(SelfAdj), run[..|run| - 1], run[|run| - 1];
      TotalOwed(After(p, run).table[b], rule, n) + Bit(BucketOf(e.addr) == b && Mispredicts(After(p, init), e))
      == TotalOwed(After(p, init).table[b], rule, n)
  {
    var init, e := run[..|run| - 1], run[|run| - 1];
    SchemeKept(Fresh(SelfAdj), init);
    RuleAtHistory(run, b, rule);
    SelfAdjOneMore(After(Fresh(SelfAdj), init), e, b, rule, n);
  }

  lemma {:induction false} SelfAdjPotential(run: seq<Branch>, b: Bucket, rule: Pattern -> bool, n: nat)
    requires Follows(run, b, rule) && n == PATTERNS
    ensures Misses(Fresh(SelfAdj), run, b) + TotalOwed(After(Fresh(SelfAdj), run).table[b], rule, n)
            == 2 * TakenPatterns(rule, n)
  {
    if run == [] {
      OwedAtStart(rule, n);
    } else {
      SelfAdjPotential(run[..|run| - 1], b, rule, n);
      SelfAdjLast(run, b, rule, n);
    }
  }

  /** A bucket whose branches follow a rule on the last four outcomes mispredicts at most
      twice per pattern the rule takes, so at most 2 * 16 times over any run at all. */
  lemma SelfAdjBound(run: seq<Branch>, b: Bucket, rule: Pattern -> bool)
    requires Follows(run, b, rule)
    ensures Misses(Fresh(SelfAdj), run, b) <= 2 * TakenPatterns(rule, PATTERNS) <= 2 * 16
  {
    SelfAdjPotential(run, b, rule, PATTERNS);
  }
}
