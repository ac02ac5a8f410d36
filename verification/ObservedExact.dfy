/** A run shows what the sequential run shows exactly as long as no visible stale read among its
    retired instructions has come to light. */
module ObservedExact {
  import opened Isa
  import opened Sequential
  import opened Pipeline
  import opened Refinement
  import opened RefinementRuns
  import opened Observed
  import opened PipelineLaws

  /** Instruction k + 2 reads stale with c instructions retired: its own entry is wrong, or that
      of the instruction it went to. */
  predicate Exposed(r: Run, k: nat, c: nat) {
    (WrongRead(r, k) && k + 2 < c) || (StrayRead(r, k) && k + 3 < c)
  }

  ghost predicate NothingExposed(r: Run, c: nat) {
    forall k: nat :: !Exposed(r, k, c)
  }

  // ----- nothing exposed: everything seen is right -----

  /** Instructions before this one are unaffected by the visible stale read at k. */
  function Cutoff(r: Run, k: nat): nat {
    if WrongRead(r, k) then k + 2 else k + 3
  }

  /** The cycle in which the relation first fails, if it does. */
  lemma {:induction false} FirstDeparture(r: Run, t: nat -> Pipe, n: nat) returns (m: nat)
    requires RunsFrom(r, t, n) && !AllAgree(r, t, n)
    ensures m < n && AllAgree(r, t, m) && !Agrees(r, t, m + 1)
  {
    if n == 0 {
      StartMatches(r, t);
      assert Agrees(r, t, 0);
      assert false;
    } else {
      RunsFewer(r, t, n - 1, n);
      if AllAgree(r, t, n - 1) {
        m := n - 1;
      } else {
        m := FirstDeparture(r, t, n - 1);
      }
    }
  }

  /** The relation fails because a visible stale read leaves Decode; what is older is right. */
  lemma Departure(r: Run, t: nat -> Pipe, m: nat)
    requires RunsFrom(r, t, m + 1) && FetchStableBelow(r, m + 1) && AllAgree(r, t, m) && !Agrees(r, t, m + 1)
    ensures var k := IndexM(t(m));
      VisibleRead(r, k) && BelowAt(r, t, m + 1, Cutoff(r, k)) && IndexD(t(m + 1)) >= Cutoff(r, k)
  {
    assert Agrees(r, t, m);
    NextExact(r, t, m);
    VisibleIsStale(r.isa, t(m));
    VisibleIsVisibleRead(r, t(m));
    LeavesDecode(r, t, m);
    assert Stepped(r.isa, r.env, t, m);
    EExact(r, t(m), t(m + 1));
    MatchesIsBelow(r, t(m), Cutoff(r, IndexM(t(m))));
    BelowKept(r, t(m), t(m + 1), Cutoff(r, IndexM(t(m))));
  }

  /** Once the relation has failed, some visible stale read did it, and what is older is right. */
  lemma DepartedBelow(r: Run, t: nat -> Pipe, n: nat) returns (k: nat)
    requires RunsFrom(r, t, n) && FetchStableBelow(r, n) && !AllAgree(r, t, n)
    ensures VisibleRead(r, k) && AllBelow(r, t, n, Cutoff(r, k))
  {
    var m := FirstDeparture(r, t, n);
    k := DepartsAt(r, t, m, n);
    BelowFrom(r, t, m + 1, n, Cutoff(r, k));
  }

  lemma DepartsAt(r: Run, t: nat -> Pipe, m: nat, n: nat) returns (k: nat)
    requires RunsFrom(r, t, n) && FetchStableBelow(r, n) && m < n && AllAgree(r, t, m) && !Agrees(r, t, m + 1)
    ensures VisibleRead(r, k) && AllBelow(r, t, m + 1, Cutoff(r, k)) && IndexD(t(m + 1)) >= Cutoff(r, k)
  {
    k := IndexM(t(m));
    RunsFewer(r, t, m + 1, n);
    FetchStableFewer(r, m + 1, n);
    Departure(r, t, m);
    AgreeIsBelow(r, t, m, Cutoff(r, k));
  }

  lemma NotPastCutoff(r: Run, k: nat, c: nat)
    requires VisibleRead(r, k) && NothingExposed(r, c)
    ensures c <= Cutoff(r, k)
  {
    assert !Exposed(r, k, c);
  }

  lemma SeenUnlessExposed(r: Run, t: nat -> Pipe, n: nat)
    requires RunsFrom(r, t, n) && FetchStableBelow(r, n) && NothingExposed(r, Retired(t(n)))
    ensures ObservedAt(r, t, n)
  {
    if AllAgree(r, t, n) {
      AgreeIsBelow(r, t, n, Retired(t(n)));
      SeenBelow(r, t, n, Retired(t(n)));
    } else {
      var k := DepartedBelow(r, t, n);
      NotPastCutoff(r, k, Retired(t(n)));
      SeenBelow(r, t, n, Cutoff(r, k));
    }
  }

  // ----- something exposed: the log is wrong -----

  lemma {:induction false} LeastVisible(r: Run, k: nat) returns (j: nat)
    requires VisibleRead(r, k)
    ensures j <= k && VisibleRead(r, j) && NoVisibleBefore(r, j + 2)
    decreases k
  {
    if i: nat :| i < k && VisibleRead(r, i) {
      j := LeastVisible(r, i);
    } else {
      j := k;
      forall i: nat | i + 2 < k + 2
        ensures !Visible(r)(i)
      {
      }
    }
  }

  /** The cycle in which the j-th instruction leaves Decode. */
  lemma {:induction false} LeavesAt(r: Run, t: nat -> Pipe, n: nat, j: nat) returns (m: nat)
    requires RunsFrom(r, t, n) && j < IndexD(t(n))
    ensures m < n && IndexD(t(m)) == j && IndexD(t(m + 1)) == j + 1
  {
    RunsFewer(r, t, n - 1, n);
    RetiredStep(r, t, n - 1);
    if j < IndexD(t(n - 1)) {
      m := LeavesAt(r, t, n - 1, j);
    } else {
      m := n - 1;
    }
  }

  lemma {:induction false} RetiredGrows(r: Run, t: nat -> Pipe, m: nat, n: nat)
    requires RunsFrom(r, t, n) && m <= n
    ensures Retired(t(m)) <= Retired(t(n)) && IndexD(t(m)) <= IndexD(t(n))
    decreases n
  {
    if m < n {
      RunsFewer(r, t, n - 1, n);
      RetiredStep(r, t, n - 1);
      RetiredGrows(r, t, m, n - 1);
    }
  }

  /** Three cycles on, everything that had left Decode has retired. */
  lemma ThreeOn(r: Run, t: nat -> Pipe, m: nat)
    requires RunsFrom(r, t, m + 3)
    ensures Retired(t(m + 3)) == IndexD(t(m))
  {
    RunsFewer(r, t, m + 1, m + 3);
    RunsFewer(r, t, m + 2, m + 3);
    assert Stepped(r.isa, r.env, t, m) && Stepped(r.isa, r.env, t, m + 1) && Stepped(r.isa, r.env, t, m + 2);
    StepIndices(r.isa, r.env, t(m), t(m + 1));
    StepIndices(r.isa, r.env, t(m + 1), t(m + 2));
    StepIndices(r.isa, r.env, t(m + 2), t(m + 3));
  }

  /** If more has retired after n cycles than had left Decode in cycle m, then n > m + 3. */
  lemma NotYetRetired(r: Run, t: nat -> Pipe, m: nat, n: nat)
    requires RunsFrom(r, t, n) && m <= n && Retired(t(n)) > IndexD(t(m))
    ensures n > m + 3
  {
    if n <= m + 3 {
      RetiredAtMost(r, t, m, n);
    }
  }

  lemma RetiredAtMost(r: Run, t: nat -> Pipe, m: nat, n: nat)
    requires RunsFrom(r, t, n) && m <= n <= m + 3
    ensures Retired(t(n)) <= IndexD(t(m))
  {
    if n >= m + 1 {
      assert Stepped(r.isa, r.env, t, m);
      StepIndices(r.isa, r.env, t(m), t(m + 1));
    }
    if n >= m + 2 {
      assert Stepped(r.isa, r.env, t, m + 1);
      StepIndices(r.isa, r.env, t(m + 1), t(m + 2));
    }
    if n >= m + 3 {
      ThreeOn(r, t, m);
    }
  }

  /** The instruction in E after cycle m writes back what it computes there. */
  lemma EntryOfE(r: Run, t: nat -> Pipe, m: nat)
    requires RunsFrom(r, t, m + 2) && t(m).el.EFull?
    ensures var e := t(m).el;
      && t(m + 2).wl.WFull? && Retired(t(m + 2)) == IndexE(t(m))
      && Entry(t(m + 2).wl).addr == e.addr && Entry(t(m + 2).wl).d == e.d
      && Entry(t(m + 2).wl).valE == Delivered(e.d, ComputedE(r.isa, t(m)))
        && Entry(t(m + 2).wl).stored == StoredBytes(e.d, e.valB)
  {
    assert Stepped(r.isa, r.env, t, m) && Stepped(r.isa, r.env, t, m + 1);
    StepIndices(r.isa, r.env, t(m), t(m + 1));
    StepIndices(r.isa, r.env, t(m + 1), t(m + 2));
  }

  /** E holds instruction k + 2. */
  predicate ReaderInE(r: Run, p: Pipe, k: nat) {
    && p.el.EFull? && IndexE(p) == k + 2 && Underway(r, r.at(k + 2))
    && p.el.addr == r.at(k + 2).pc && p.el.d == DecodeAt(r.isa, r.at(k + 2))
  }

  /** When the reader at k leaves Decode in cycle m it carries the difference. */
  lemma CarriesDifference(r: Run, t: nat -> Pipe, m: nat, k: nat)
    requires RunsFrom(r, t, m + 1) && FetchStableBelow(r, m + 1) && NoVisibleBefore(r, k + 2) && VisibleRead(r, k)
    requires IndexD(t(m)) == k + 2 && IndexD(t(m + 1)) == k + 3
    ensures ReaderInE(r, t(m + 1), k)
    ensures WrongRead(r, k) ==> !ValuesE(r, t(m + 1))
    ensures StrayRead(r, k) ==> !TargetE(r, t(m + 1))
  {
    RunsFewer(r, t, m, m + 1);
    FetchStableFewer(r, m, m + 1);
    AgreeIf(r, t, m);
    assert Agrees(r, t, m);
    GapsAlways(r, t, m);
    LeavesDecode(r, t, m);
    VisibleReadShows(r, t(m), k);
    assert Stepped(r.isa, r.env, t, m);
    EExact(r, t(m), t(m + 1));
    Indices(r, t(m), t(m + 1));
    DecodedInD(r, t(m));
  }

  lemma NotPrefix(log: seq<Retirement>, want: nat -> Retirement, k: nat)
    requires k < |log| && log[k] != want(k)
    ensures !StartsLog(log, want)
  {
  }

  /** A wrong value or stored byte is in the log once the reader has retired. */
  lemma WrongShows(r: Run, t: nat -> Pipe, m: nat, n: nat, k: nat)
    requires RunsFrom(r, t, n) && m + 1 <= n && k + 2 < Retired(t(n))
    requires ReaderInE(r, t(m + 1), k) && !ValuesE(r, t(m + 1))
    requires IndexD(t(m)) == k + 2
    ensures !StartsLog(Commits(t, n), SeqLog(r))
  {
    NotYetRetired(r, t, m, n);
    RunsFewer(r, t, m + 3, n);
    EntryOfE(r, t, m + 1);
    CommitAt(r, t, m + 3, n);
    NotPrefix(Commits(t, n), SeqLog(r), k + 2);
  }

  /** A stray jump or branch is in the log once the instruction it went to has retired. */
  lemma StrayShows(r: Run, t: nat -> Pipe, m: nat, n: nat, k: nat)
    requires RunsFrom(r, t, n) && m + 1 <= n && k + 3 < Retired(t(n))
    requires ReaderInE(r, t(m + 1), k) && !TargetE(r, t(m + 1))
    ensures !StartsLog(Commits(t, n), SeqLog(r))
  {
    var i := m + 1;
    var j := AfterReader(r, t, i, n, k);
    NextReader(r, t, n, i, j);
    RunsFewer(r, t, j + 1, n);
    WrongWay(r, t, i, j + 1, k);
    StrayEntry(r, t, j, n, k + 3);
  }

  /** The cycle in which the instruction behind the reader leaves Decode. */
  lemma AfterReader(r: Run, t: nat -> Pipe, i: nat, n: nat, k: nat) returns (j: nat)
    requires RunsFrom(r, t, n) && k + 3 < Retired(t(n)) && t(i).el.EFull? && IndexE(t(i)) == k + 2
    ensures j < n && IndexD(t(i)) == IndexD(t(j)) == k + 3 < IndexD(t(j + 1))
  {
    j := LeavesAt(r, t, n, k + 3);
  }

  lemma WrongWay(r: Run, t: nat -> Pipe, m: nat, n: nat, k: nat)
    requires RunsFrom(r, t, n) && m < n && ReaderInE(r, t(m), k) && !TargetE(r, t(m)) && t(n).el.EFull?
    requires NoneInE(t, m, n)
    ensures t(n).el.addr != r.at(k + 3).pc
  {
    SuccessorFollows(r.isa, r.env, t, m, n);
    SeqPC(r, k + 2);
  }

  lemma StrayEntry(r: Run, t: nat -> Pipe, j: nat, n: nat, k: nat)
    requires RunsFrom(r, t, n) && j < n && k < Retired(t(n)) && IndexD(t(j)) == k
    requires t(j + 1).el.EFull? && IndexE(t(j + 1)) == k && t(j + 1).el.addr != r.at(k).pc
    ensures !StartsLog(Commits(t, n), SeqLog(r))
  {
    NotYetRetired(r, t, j, n);
    RunsFewer(r, t, j + 3, n);
    EntryOfE(r, t, j + 1);
    CommitAt(r, t, j + 3, n);
    NotPrefix(Commits(t, n), SeqLog(r), k);
  }

  /** The instruction that leaves Decode in cycle j next after the one in E in cycle m. */
  lemma NextReader(r: Run, t: nat -> Pipe, n: nat, m: nat, j: nat)
    requires RunsFrom(r, t, n) && m <= n && j < n && t(m).el.EFull? && IndexD(t(m)) == IndexD(t(j)) < IndexD(t(j + 1))
    ensures m <= j && t(j + 1).el.EFull? && IndexE(t(j + 1)) == IndexD(t(m))
    ensures NoneInE(t, m, j + 1)
  {
    if j < m {
      RunsFewer(r, t, m, n);
      RetiredGrows(r, t, j + 1, m);
    }
    assert Stepped(r.isa, r.env, t, j);
    StepIndices(r.isa, r.env, t(j), t(j + 1));
    forall i: nat | m < i < j + 1
      ensures t(i).el.EEmpty?
    {
      RunsFewer(r, t, j, n);
      RunsFewer(r, t, i - 1, n);
      RetiredGrows(r, t, m, i - 1);
      RetiredGrows(r, t, i, j);
      assert Stepped(r.isa, r.env, t, i - 1);
      StepIndices(r.isa, r.env, t(i - 1), t(i));
    }
  }

  /** The first visible stale read comes to light no later than any other. */
  lemma LeastExposed(r: Run, k: nat, c: nat) returns (j: nat)
    requires Exposed(r, k, c)
    ensures Exposed(r, j, c) && VisibleRead(r, j) && NoVisibleBefore(r, j + 2)
  {
    j := LeastVisible(r, k);
    if j < k {
      Sooner(r, j, k, c);
    }
  }

  lemma Sooner(r: Run, j: nat, k: nat, c: nat)
    requires Exposed(r, k, c) && VisibleRead(r, j) && j < k
    ensures Exposed(r, j, c)
  {
    assert k + 2 < c;
  }

  /** How an exposed stale read shows in the E latch that holds its reader. */
  predicate Differs(r: Run, p: Pipe, j: nat, c: nat) {
    (!ValuesE(r, p) && j + 2 < c) || (ValuesE(r, p) && !TargetE(r, p) && j + 3 < c)
  }

  lemma ExposedDiffers(r: Run, p: Pipe, j: nat, c: nat)
    requires Exposed(r, j, c) && (WrongRead(r, j) ==> !ValuesE(r, p)) && (StrayRead(r, j) ==> !TargetE(r, p))
    ensures Differs(r, p, j, c)
  {
  }

  /** The instruction that reads stale shows it in the log. */
  lemma FirstShows(r: Run, t: nat -> Pipe, n: nat, j: nat, m: nat)
    requires RunsFrom(r, t, n) && m < n && IndexD(t(m)) == j + 2
    requires ReaderInE(r, t(m + 1), j) && Differs(r, t(m + 1), j, Retired(t(n)))
    ensures !StartsLog(Commits(t, n), SeqLog(r))
  {
    if ValuesE(r, t(m + 1)) {
      StrayShows(r, t, m, n, j);
    } else {
      WrongShows(r, t, m, n, j);
    }
  }

  lemma ExposedShows(r: Run, t: nat -> Pipe, n: nat, k: nat)
    requires RunsFrom(r, t, n) && FetchStableBelow(r, n) && Exposed(r, k, Retired(t(n)))
    ensures !StartsLog(Commits(t, n), SeqLog(r))
  {
    var j := LeastExposed(r, k, Retired(t(n)));
    var m := LeavesAt(r, t, n, j + 2);
    RunsFewer(r, t, m + 1, n);
    FetchStableFewer(r, m + 1, n);
    CarriesDifference(r, t, m, j);
    ExposedDiffers(r, t(m + 1), j, Retired(t(n)));
    FirstShows(r, t, n, j, m);
  }

  // ----- the exact condition -----

  /** For a run of n cycles: the log is a prefix of the sequential one, and registers and memory
      are what it leaves, exactly when none of the retired instructions exposes a stale read. */
  lemma ObservedExactly(r: Run, t: nat -> Pipe, n: nat)
    requires RunsFrom(r, t, n) && FetchStableBelow(r, n)
    ensures ObservedAt(r, t, n) <==> NothingExposed(r, Retired(t(n)))
    ensures StartsLog(Commits(t, n), SeqLog(r)) <==> NothingExposed(r, Retired(t(n)))
  {
    if NothingExposed(r, Retired(t(n))) {
      SeenUnlessExposed(r, t, n);
    } else {
      var k: nat :| Exposed(r, k, Retired(t(n)));
      ExposedShows(r, t, n, k);
    }
  }

  ghost predicate NoVisible(r: Run) {
    forall k: nat :: !Visible(r)(k)
  }

  /** For a run that never stops: what is seen is what the sequential run shows, for ever, exactly
      when the sequential run has no visible stale read. */
  lemma RefinementExact(r: Run, t: nat -> Pipe)
    requires forall n: nat :: RunsFrom(r, t, n)
    requires forall k: nat :: FetchStable(r, k)
    ensures (forall n: nat :: ObservedAt(r, t, n)) <==> NoVisible(r)
  {
    if NoVisible(r) {
      forall n: nat
        ensures ObservedAt(r, t, n)
      {
        assert RunsFrom(r, t, n);
        forall k: nat
          ensures !Exposed(r, k, Retired(t(n)))
        {
          assert !Visible(r)(k);
        }
        SeenUnlessExposed(r, t, n);
      }
    }
    if forall n: nat :: ObservedAt(r, t, n) {
      forall k: nat
        ensures !Visible(r)(k)
      {
        NeverVisible(r, t, k);
      }
    }
  }

  lemma NeverVisible(r: Run, t: nat -> Pipe, k: nat)
    requires RunsFrom(r, t, 4 * k + 24) && FetchStableBelow(r, 4 * k + 24) && ObservedAt(r, t, 4 * k + 24)
    ensures !VisibleRead(r, k)
  {
    var n := 4 * k + 24;
    Throughput(r.isa, r.env, t, n);
    ObservedExactly(r, t, n);
    assert !Exposed(r, k, Retired(t(n)));
  }

  /** With conditions on the first c instructions only: whatever comes behind them, the log up to
      there is right, and so are registers and memory as long as no more have retired. */
  lemma RetirementPrefix(r: Run, t: nat -> Pipe, n: nat, c: nat)
    requires RunsFrom(r, t, n) && FetchStableBelow(r, c) && NoVisibleBefore(r, c) && Retired(t(n)) <= c
    ensures ObservedAt(r, t, n)
  {
    forall m: nat | m <= n
      ensures BelowAt(r, t, m, c)
    {
      RunsFewer(r, t, m, n);
      UpToAlways(r, t, m, c);
    }
    SeenBelow(r, t, n, c);
  }
}
