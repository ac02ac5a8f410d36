/** The pipeline on the translated, cached memory: every fetch, load and store of a run, made
    through the page table and the top cache level, delivers what the flat map it was modelled
    on delivers, and leaves the hierarchy representing the flat map of the run's last state. */
module WholeMachine {
  import opened Words
  import opened AddressSpace
  import opened VirtualMemory
  import I = Isa
  import Pl = Pipeline
  import L = Loader
  import S = Storage
  import T = Transparency

  /** The memory stage's access, if the instruction there makes one. */
  function MemAccess(p: Pl.Pipe): seq<Access> {
    if p.ml.MEmpty? then []
    else if I.IsLoad(p.ml.d.name) then [Load(p.ml.valE, I.AccessSize(p.ml.d.name))]
    else if I.IsStore(p.ml.d.name) then [Store(p.ml.valE, I.AccessSize(p.ml.d.name), p.ml.valB)]
    else []
  }

  /** What a cycle asks of memory: the fetch, then the memory stage. */
  function CycleAccesses(p: Pl.Pipe): seq<Access> {
    [Load(p.pc, 4)] + MemAccess(p)
  }

  function Accesses(t: nat -> Pl.Pipe, n: nat): seq<Access> {
    if n == 0 then [] else Accesses(t, n - 1) + CycleAccesses(t(n - 1))
  }

  /** What the flat model takes from its map in the same cycle: the word fetched and the bytes
      loaded; a store delivers nothing. */
  function MemValue(p: Pl.Pipe): seq<nat> {
    if p.ml.MEmpty? then []
    else if I.IsLoad(p.ml.d.name) then [I.LoadBytes(p.mem, p.ml.valE, I.AccessSize(p.ml.d.name))]
    else if I.IsStore(p.ml.d.name) then [0]
    else []
  }

  function CycleValues(p: Pl.Pipe): seq<nat> {
    [Pl.FetchedWord(p)] + MemValue(p)
  }

  function Values(t: nat -> Pl.Pipe, n: nat): seq<nat> {
    if n == 0 then [] else Values(t, n - 1) + CycleValues(t(n - 1))
  }

  // ----- on the flat map -----

  lemma {:induction false} FlatAppend(mem: I.Mem, ps: seq<Access>, qs: seq<Access>)
    requires FlatServeAll(mem, ps).Some?
    ensures var (m, out) := FlatServeAll(mem, ps).value;
      FlatServeAll(mem, ps + qs) == match FlatServeAll(m, qs)
        case None => None
        case Some((k, more)) => Some((k, out + more))
    decreases |qs|
  {
    var (m, out) := FlatServeAll(mem, ps).value;
    if qs == [] {
      assert ps + qs == ps && out + [] == out;
    } else {
      var init := qs[..|qs| - 1];
      assert (ps + qs)[..|ps + qs| - 1] == ps + init;
      FlatAppend(mem, ps, init);
      if FlatServeAll(m, init).Some? {
        var (k, more) := FlatServeAll(m, init).value;
        if FlatServe(k, qs[|qs| - 1]).Some? {
          var v := FlatServe(k, qs[|qs| - 1]).value.1;
          assert (out + more) + [v] == out + (more + [v]);
        }
      }
    }
  }

  lemma FlatOne(mem: I.Mem, q: Access)
    ensures FlatServeAll(mem, [q]) == match FlatServe(mem, q)
      case None => None
      case Some((m, v)) => Some((m, [v]))
  {
    var qs := [q];
    assert qs[..|qs| - 1] == [] && qs[|qs| - 1] == q;
    assert FlatServeAll(mem, []) == Some((mem, []));
    if FlatServe(mem, q).Some? {
      assert [] + [FlatServe(mem, q).value.1] == [FlatServe(mem, q).value.1];
    }
  }

  /** A cycle's accesses to the map deliver what the model takes and make the map the next one. */
  lemma CycleOnFlat(isa: I.Isa, env: I.Env, p: Pl.Pipe)
    requires Pl.Step(isa, env, p).Next?
    ensures FlatServeAll(p.mem, CycleAccesses(p)) == Some((Pl.Step(isa, env, p).p.mem, CycleValues(p)))
  {
    FlatOne(p.mem, Load(p.pc, 4));
    FlatAppend(p.mem, [Load(p.pc, 4)], MemAccess(p));
    if MemAccess(p) == [] {
      assert FlatServeAll(p.mem, []) == Some((p.mem, []));
    } else {
      FlatOne(p.mem, MemAccess(p)[0]);
    }
  }

  /** The first n cycles' accesses to the map deliver what the model takes, and leave its map. */
  predicate OnFlat(t: nat -> Pl.Pipe, n: nat) {
    FlatServeAll(t(0).mem, Accesses(t, n)) == Some((t(n).mem, Values(t, n)))
  }

  lemma NextOnFlat(isa: I.Isa, env: I.Env, t: nat -> Pl.Pipe, n: nat)
    requires Pl.Runs(isa, env, t, n + 1) && OnFlat(t, n)
    ensures OnFlat(t, n + 1)
  {
    assert Pl.Stepped(isa, env, t, n);
    CycleOnFlat(isa, env, t(n));
    FlatAppend(t(0).mem, Accesses(t, n), CycleAccesses(t(n)));
  }

  lemma StartOnFlat(t: nat -> Pl.Pipe)
    ensures OnFlat(t, 0)
  {
  }

  lemma RunsLess(isa: I.Isa, env: I.Env, t: nat -> Pl.Pipe, m: nat, n: nat)
    requires Pl.Runs(isa, env, t, n) && m <= n
    ensures Pl.Runs(isa, env, t, m)
  {
  }

  lemma {:induction false} RunOnFlat(isa: I.Isa, env: I.Env, t: nat -> Pl.Pipe, n: nat)
    requires Pl.Runs(isa, env, t, n)
    ensures OnFlat(t, n)
  {
    StartOnFlat(t);
    for m := 0 to n
      invariant OnFlat(t, m)
    {
      RunsLess(isa, env, t, m + 1, n);
      NextOnFlat(isa, env, t, m);
    }
  }

  lemma {:induction false} NoEmptyAccess(t: nat -> Pl.Pipe, n: nat)
    ensures forall i | 0 <= i < |Accesses(t, n)| :: Accesses(t, n)[i].n > 0
  {
    if n > 0 {
      NoEmptyAccess(t, n - 1);
    }
  }

  // ----- on the hierarchy -----

  /** The whole run through translation and caches. */
  lemma RunOnCaches(isa: I.Isa, env: I.Env, t: nat -> Pl.Pipe, n: nat, sp: Space, st: S.Store)
    requires Pl.Runs(isa, env, t, n) && Represents(sp, st, t(0).mem)
    ensures var r := ServeAll(sp, st, Accesses(t, n));
      && r.Some? && r.value.1 == Values(t, n) && Represents(sp, r.value.0, t(n).mem)
      && (Serve(sp, r.value.0, Load(t(n).pc, 4)).Some? <==> I.CanAccess(t(n).mem, t(n).pc, 4))
  {
    RunOnFlat(isa, env, t, n);
    NoEmptyAccess(t, n);
    VirtualMemoryIsFlat(sp, st, t(0).mem, Accesses(t, n));
    ServeSame(sp, ServeAll(sp, st, Accesses(t, n)).value.0, t(n).mem, Load(t(n).pc, 4));
  }

  /** A program that has been loaded and given its stack, run by the pipeline on any fresh chain
      of caches: the run of the model on the program's image is the run of the machine. */
  lemma BootedPipeline(gs: seq<L.Segment>, st: S.Store, isa: I.Isa, env: I.Env, t: nat -> Pl.Pipe, n: nat)
    requires L.Boot(gs).Some? && T.Fresh(st) && T.Bottom(st) == L.Boot(gs).value.1
    requires Pl.Runs(isa, env, t, n) && t(0).mem == L.Image(L.Boot(gs).value.0, gs)
    ensures var r := ServeAll(L.Boot(gs).value.0, st, Accesses(t, n));
      r.Some? && r.value.1 == Values(t, n) && Represents(L.Boot(gs).value.0, r.value.0, t(n).mem)
  {
    L.BootRepresents(gs, st);
    RunOnCaches(isa, env, t, n, L.Boot(gs).value.0, st);
  }
}
