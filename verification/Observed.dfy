/** What can be seen of a pipeline run, and exactly when it is what the sequential run shows: the
    log of retired instructions with the values and bytes they write, the registers and memory.

    When a visible stale read gets through, everything older than its reader is still right;
    MatchesBelow is the simulation relation for the instructions before a cut-off. */
module Observed {
  import opened Words
  import opened Isa
  import opened Sequential
  import opened Pipeline
  import opened Refinement
  import opened RefinementRuns

  // ----- the log -----

  /** An instruction as it leaves Writeback: the result it writes or the address it accesses, the
      value it loaded, the bytes it stored. */
  datatype Retirement = Retirement(addr: Word, d: Decoded, valE: Word, valM: Word, stored: seq<Byte>)

  function Entry(w: WLatch): Retirement
    requires w.WFull?
  {
    Retirement(w.addr, w.d, Delivered(w.d, w.valE), w.valM, StoredBytes(w.d, w.valB))
  }

  /** What left Writeback in the first n cycles, in order. */
  function Commits(t: nat -> Pipe, n: nat): seq<Retirement> {
    if n == 0 then [] else Commits(t, n - 1) + (if t(n - 1).wl.WFull? then [Entry(t(n - 1).wl)] else [])
  }

  /** The same of instruction k of the sequential run. */
  function Commit(r: Run, k: nat): Retirement {
    var s := r.at(k);
    var d := DecodeAt(r.isa, s);
    Retirement(s.pc, d, Delivered(d, ValE(r.isa, s)), ValM(r.isa, s), StoredBytes(d, s.regs[d.srcB]))
  }

  function SeqLog(r: Run): nat -> Retirement {
    (k: nat) => Commit(r, k)
  }

  ghost predicate StartsLog(log: seq<Retirement>, want: nat -> Retirement) {
    forall k | 0 <= k < |log| :: log[k] == want(k)
  }

  lemma {:induction false} CommitsCount(r: Run, t: nat -> Pipe, n: nat)
    requires RunsFrom(r, t, n)
    ensures |Commits(t, n)| == Retired(t(n))
  {
    if n > 0 {
      RunsFewer(r, t, n - 1, n);
      CommitsCount(r, t, n - 1);
      RetiredStep(r, t, n - 1);
    }
  }

  /** The entry an occupied W latch makes. */
  lemma {:induction false} CommitAt(r: Run, t: nat -> Pipe, m: nat, n: nat)
    requires RunsFrom(r, t, n) && m < n && t(m).wl.WFull?
    ensures Retired(t(m)) < |Commits(t, n)| && Commits(t, n)[Retired(t(m))] == Entry(t(m).wl)
    decreases n
  {
    RunsFewer(r, t, n - 1, n);
    if m == n - 1 {
      CommitsCount(r, t, m);
    } else {
      CommitAt(r, t, m, n - 1);
    }
  }

  // ----- the simulation relation before a cut-off -----

  predicate StateBelow(r: Run, p: Pipe, c: nat) {
    && (Retired(p) <= c ==> p.regs == r.at(Retired(p)).regs && p.stats.ecallNum == r.at(Retired(p)).ecalls)
    && (IndexM(p) <= c ==> p.mem == r.at(IndexM(p)).mem)
  }

  predicate MatchesBelow(r: Run, p: Pipe, c: nat) {
    && StateBelow(r, p, c)
    && (Retired(p) < c ==> MatchW(r, p)) && (IndexM(p) < c ==> MatchM(r, p)) && (IndexE(p) < c ==> ValuesE(r, p))
  }

  lemma MatchesIsBelow(r: Run, p: Pipe, c: nat)
    requires Matches(r, p)
    ensures MatchesBelow(r, p, c)
  {
  }

  lemma StateBelowKept(r: Run, p: Pipe, q: Pipe, c: nat)
    requires IsRun(r) && Steps(r, p, q) && MatchesBelow(r, p, c)
    ensures StateBelow(r, q, c)
  {
    StepIndices(r.isa, r.env, p, q);
    if IndexM(p) <= c {
      RegsKept(r, p);
    }
    if IndexE(p) <= c {
      MemKept(r, p);
    }
  }

  /** Older instructions do not depend on younger ones. */
  lemma BelowKept(r: Run, p: Pipe, q: Pipe, c: nat)
    requires IsRun(r) && Steps(r, p, q) && MatchesBelow(r, p, c)
    requires IndexD(p) >= c || ValuesE(r, q)
    ensures MatchesBelow(r, q, c)
  {
    StepIndices(r.isa, r.env, p, q);
    StateBelowKept(r, p, q, c);
    if IndexM(p) < c {
      WKept(r, p, q);
    }
    if IndexE(p) < c {
      MKept(r, p, q);
    }
  }

  predicate BelowAt(r: Run, t: nat -> Pipe, n: nat, c: nat) {
    MatchesBelow(r, t(n), c)
  }

  ghost predicate AllBelow(r: Run, t: nat -> Pipe, n: nat, c: nat) {
    forall m: nat :: m <= n ==> BelowAt(r, t, m, c)
  }

  lemma AgreeIsBelow(r: Run, t: nat -> Pipe, n: nat, c: nat)
    requires AllAgree(r, t, n)
    ensures AllBelow(r, t, n, c)
  {
    forall m: nat | m <= n
      ensures BelowAt(r, t, m, c)
    {
      assert Agrees(r, t, m);
      MatchesIsBelow(r, t(m), c);
    }
  }

  lemma BelowNext(r: Run, t: nat -> Pipe, n: nat, c: nat)
    requires RunsFrom(r, t, n + 1) && BelowAt(r, t, n, c) && IndexD(t(n)) >= c
    ensures BelowAt(r, t, n + 1, c) && IndexD(t(n + 1)) >= c
  {
    assert Stepped(r.isa, r.env, t, n);
    RetiredStep(r, t, n);
    BelowKept(r, t(n), t(n + 1), c);
  }

  /** Once everything before the cut-off has left Decode it goes its way undisturbed. */
  lemma {:induction false} BelowFrom(r: Run, t: nat -> Pipe, m: nat, n: nat, c: nat)
    requires RunsFrom(r, t, n) && m <= n && AllBelow(r, t, m, c) && IndexD(t(m)) >= c
    ensures AllBelow(r, t, n, c) && IndexD(t(n)) >= c
    decreases n
  {
    if m < n {
      RunsFewer(r, t, n - 1, n);
      BelowFrom(r, t, m, n - 1, c);
      assert BelowAt(r, t, n - 1, c);
      BelowNext(r, t, n - 1, c);
    }
  }

  // ----- hypotheses about the first instructions only -----

  /** Everything matches until the first c instructions have left Decode, and those do after that. */
  predicate UpTo(r: Run, p: Pipe, c: nat) {
    if IndexD(p) < c then Matches(r, p) else MatchesBelow(r, p, c)
  }

  /** What is fetched to stay before the cut-off is one of the first instructions. */
  lemma FetchedBelow(isa: Isa, env: Env, p: Pipe, q: Pipe)
    requires Step(isa, env, p) == Next(q) && Fetches(isa, p)
    ensures IndexF(p) == IndexD(q)
  {
    StepIndices(isa, env, p, q);
  }

  lemma NotVisibleHere(r: Run, p: Pipe, c: nat)
    requires IsRun(r) && WellFormed(r.isa) && Matches(r, p) && IndexD(p) < c && NoVisibleBefore(r, c)
    ensures !VisibleNow(r.isa, p)
  {
    if VisibleNow(r.isa, p) {
      VisibleIsStale(r.isa, p);
      VisibleIsVisibleRead(r, p);
      NotVisible(r, c, IndexM(p));
    }
  }

  lemma UpToNext(r: Run, p: Pipe, q: Pipe, c: nat)
    requires IsRun(r) && WellFormed(r.isa) && Steps(r, p, q) && UpTo(r, p, c)
    requires FetchStableBelow(r, c) && NoVisibleBefore(r, c)
    ensures UpTo(r, q, c)
  {
    StepIndices(r.isa, r.env, p, q);
    if IndexD(p) >= c {
      BelowKept(r, p, q, c);
    } else {
      NotVisibleHere(r, p, c);
      if IndexD(q) < c {
        if Fetches(r.isa, p) {
          FetchedBelow(r.isa, r.env, p, q);
        }
        StepExact(r, p, q);
      } else {
        EExact(r, p, q);
        MatchesIsBelow(r, p, c);
        BelowKept(r, p, q, c);
      }
    }
  }

  lemma {:induction false} UpToAlways(r: Run, t: nat -> Pipe, n: nat, c: nat)
    requires RunsFrom(r, t, n) && FetchStableBelow(r, c) && NoVisibleBefore(r, c)
    ensures UpTo(r, t(n), c) && MatchesBelow(r, t(n), c)
  {
    if n == 0 {
      StartMatches(r, t);
    } else {
      RunsFewer(r, t, n - 1, n);
      UpToAlways(r, t, n - 1, c);
      assert Stepped(r.isa, r.env, t, n - 1);
      UpToNext(r, t(n - 1), t(n), c);
    }
    if IndexD(t(n)) < c {
      MatchesIsBelow(r, t(n), c);
    }
  }

  // ----- what is seen below the cut-off -----

  lemma EntryBelow(r: Run, t: nat -> Pipe, n: nat, c: nat)
    requires BelowAt(r, t, n, c) && t(n).wl.WFull? && Retired(t(n)) < c
    ensures Entry(t(n).wl) == Commit(r, Retired(t(n)))
  {
  }

  lemma BelowBefore(r: Run, t: nat -> Pipe, n: nat, c: nat)
    requires RunsFrom(r, t, n + 1) && AllBelow(r, t, n + 1, c) && Retired(t(n + 1)) <= c
    ensures RunsFrom(r, t, n) && AllBelow(r, t, n, c) && BelowAt(r, t, n, c)
    ensures Retired(t(n)) + Bit(t(n).wl.WFull?) <= c
  {
    RunsFewer(r, t, n, n + 1);
    RetiredStep(r, t, n);
  }

  lemma LogOneMore(r: Run, t: nat -> Pipe, n: nat, c: nat)
    requires RunsFrom(r, t, n) && BelowAt(r, t, n, c) && StartsLog(Commits(t, n), SeqLog(r))
    requires t(n).wl.WFull? ==> Retired(t(n)) < c
    ensures StartsLog(Commits(t, n + 1), SeqLog(r))
  {
    if t(n).wl.WFull? {
      CommitsCount(r, t, n);
      EntryBelow(r, t, n, c);
      assert SeqLog(r)(Retired(t(n))) == Entry(t(n).wl);
      StartsMore(Commits(t, n), Entry(t(n).wl), SeqLog(r));
    }
  }

  lemma StartsMore(log: seq<Retirement>, x: Retirement, want: nat -> Retirement)
    requires StartsLog(log, want) && x == want(|log|)
    ensures StartsLog(log + [x], want)
  {
  }

  lemma {:induction false} LogBelow(r: Run, t: nat -> Pipe, n: nat, c: nat)
    requires RunsFrom(r, t, n) && AllBelow(r, t, n, c) && Retired(t(n)) <= c
    ensures StartsLog(Commits(t, n), SeqLog(r))
  {
    if n > 0 {
      var m := n - 1;
      BelowBefore(r, t, m, c);
      LogBelow(r, t, m, c);
      LogOneMore(r, t, m, c);
    }
  }

  /** Memory as the retired instructions left it: the one in Writeback has already stored. */
  function RetiredMem(t: nat -> Pipe, n: nat): Mem {
    if n > 0 && t(n).wl.WFull? then t(n - 1).mem else t(n).mem
  }

  /** After n cycles the log is a prefix of the sequential one, and registers and memory are
      what its instructions leave. */
  ghost predicate ObservedAt(r: Run, t: nat -> Pipe, n: nat) {
    && |Commits(t, n)| == Retired(t(n)) && StartsLog(Commits(t, n), SeqLog(r))
    && t(n).regs == r.at(Retired(t(n))).regs && RetiredMem(t, n) == r.at(Retired(t(n))).mem
  }

  lemma StateSeen(r: Run, t: nat -> Pipe, n: nat, c: nat)
    requires RunsFrom(r, t, n) && AllBelow(r, t, n, c) && Retired(t(n)) <= c
    ensures t(n).regs == r.at(Retired(t(n))).regs && RetiredMem(t, n) == r.at(Retired(t(n))).mem
  {
    assert BelowAt(r, t, n, c);
    if n > 0 {
      assert BelowAt(r, t, n - 1, c);
      RetiredStep(r, t, n - 1);
    }
  }

  lemma SeenBelow(r: Run, t: nat -> Pipe, n: nat, c: nat)
    requires RunsFrom(r, t, n) && AllBelow(r, t, n, c) && Retired(t(n)) <= c
    ensures ObservedAt(r, t, n)
  {
    CommitsCount(r, t, n);
    LogBelow(r, t, n, c);
    StateSeen(r, t, n, c);
  }
}
