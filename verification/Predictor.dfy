/** The branch predictor: two-bit counters indexed by address bucket (Bimodal), or by
    address bucket and the last four outcomes of that bucket (SelfAdj).

    PredState, Predict and Update are the specification; class BranchPredictor is the
    object the program mutates, proved against them. */
module Predictor {
  import opened Words

  const BUCKETS := 16
  const PATTERNS := 16

  datatype Scheme = AlwaysTaken | AlwaysNotTaken | Bimodal | SelfAdj

  type Counter = c: int | 0 <= c < 4

  type Bucket = b: int | 0 <= b < BUCKETS

  type Pattern = h: int | 0 <= h < PATTERNS

  datatype PredStateRaw = PredState(scheme: Scheme, bits: seq<Counter>, table: seq<seq<Counter>>, history: seq<nat>) {
    predicate Shaped() {
      && |bits| == BUCKETS && |table| == BUCKETS && |history| == BUCKETS
      && forall b | 0 <= b < BUCKETS :: |table[b]| == PATTERNS
    }
  }

  const ZEROS: seq<Counter> := [0, 0, 0, 0, 0, 0, 0, 0, 0, 0, 0, 0, 0, 0, 0, 0]

  /** What the constructor leaves, once a scheme has been selected. */
  function Fresh(scheme: Scheme): PredStateRaw {
    PredState(scheme, ZEROS, seq(BUCKETS, _ => ZEROS), seq(BUCKETS, _ => 0))
  }

  type PredState = p: PredStateRaw | p.Shaped() witness Fresh(Bimodal)

  /** Addresses are signed. The program shifts and takes a remainder that keeps the sign, then
      asserts that the result is no negative number. */
  predicate Indexed(addr: int) {
    addr >= 0 || addr / 4 % BUCKETS == 0
  }

  function BucketOf(addr: int): Bucket {
    (addr / 4) % BUCKETS
  }

  predicate Choose(c: Counter) {
    c >= 2
  }

  /** The history register keeps more than four bits; only the low four select a counter. */
  function MaskHis(his: nat): Pattern {
    his % PATTERNS
  }

  predicate Predict(p: PredState, addr: int) {
    match p.scheme
    case AlwaysTaken => true
    case AlwaysNotTaken => false
    case Bimodal => Choose(p.bits[BucketOf(addr)])
    case SelfAdj => Choose(p.table[BucketOf(addr)][MaskHis(p.history[BucketOf(addr)])])
  }

  /** The counter moves on whether the prediction succeeded, not on the outcome itself. */
  function Adjust(c: Counter, success: bool): Counter {
    match c
    case 0 => if success then 0 else 1
    case 1 => if success then 0 else 2
    case 2 => if success then 3 else 1
    case _ => if success then 3 else 2
  }

  function Update(p: PredState, success: bool, addr: int): PredState {
    var b := BucketOf(addr);
    match p.scheme
    case AlwaysTaken => p
    case AlwaysNotTaken => p
    case Bimodal => p.(bits := p.bits[b := Adjust(p.bits[b], success)])
    case SelfAdj =>
      var h := MaskHis(p.history[b]);
      var row: seq<Counter> := p.table[b];
      var c := row[h];
      p.(history := p.history[b := 2 * h + Bit(!success != Choose(c))],
         table := p.table[b := row[h := Adjust(c, success)]])
  }

  /** The predictor object. */
  class BranchPredictor {
    var scheme: Scheme
    const bitBuf: array<Counter>
    const saBuf: array2<Counter>
    const saHis: array<nat>

    ghost predicate Valid()
    {
      bitBuf.Length == BUCKETS && saBuf.Length0 == BUCKETS && saBuf.Length1 == PATTERNS && saHis.Length == BUCKETS
    }

    ghost function State(): PredState
      reads this, bitBuf, saBuf, saHis
      requires Valid()
    {
      PredState(scheme, bitBuf[..],
                seq(BUCKETS, b requires 0 <= b < BUCKETS reads saBuf requires Valid() =>
                  seq(PATTERNS, h requires 0 <= h < PATTERNS reads saBuf requires Valid() => saBuf[b, h])),
                saHis[..])
    }

    constructor ()
      ensures Valid() && State() == Fresh(AlwaysTaken)
      ensures fresh(bitBuf) && fresh(saBuf) && fresh(saHis)
    {
      scheme := AlwaysTaken;
      bitBuf := new Counter[BUCKETS](_ => 0);
      saBuf := new Counter[BUCKETS, PATTERNS]((_, _) => 0);
      saHis := new nat[BUCKETS](_ => 0);
      new;
      assert bitBuf[..] == ZEROS;
      assert forall b | 0 <= b < BUCKETS :: State().table[b] == ZEROS;
      assert State().table == Fresh(AlwaysTaken).table;
      assert State().history == Fresh(AlwaysTaken).history;
    }

    method SetScheme(scm: Scheme)
      requires Valid()
      modifies this
      ensures State() == old(State()).(scheme := scm)
    {
      scheme := scm;
      assert forall b | 0 <= b < BUCKETS :: State().table[b] == old(State()).table[b];
      assert State().table == old(State()).table;
    }

    /** The linear search for the table column whose index is the masked history. */
    method FindPattern(b: Bucket) returns (h: Pattern)
      requires Valid()
      ensures h == MaskHis(saHis[b])
    {
      for i := 0 to PATTERNS
        invariant i <= MaskHis(saHis[b])
      {
        if MaskHis(saHis[b]) == i {
          return i;
        }
      }
      assert false;
    }

    method PredictAt(addr: int) returns (taken: bool)
      requires Valid() && Indexed(addr)
      ensures taken == Predict(State(), addr)
    {
      var b := BucketOf(addr);
      if scheme == AlwaysTaken {
        return true;
      }
      if scheme == AlwaysNotTaken {
        return false;
      }
      if scheme == Bimodal {
        return Choose(bitBuf[b]);
      }
      var h := FindPattern(b);
      assert State().table[b][h] == saBuf[b, h];
      return Choose(saBuf[b, h]);
    }

    method UpdateAt(success: bool, addr: int)
      requires Valid() && Indexed(addr)
      modifies bitBuf, saBuf, saHis
      ensures State() == Update(old(State()), success, addr)
    {
      var b := BucketOf(addr);
      if scheme == Bimodal {
        bitBuf[b] := Adjust(bitBuf[b], success);
      } else if scheme == SelfAdj {
        var h := FindPattern(b);
        var lastPred := Choose(saBuf[b, h]);
        saHis[b] := 2 * MaskHis(saHis[b]) + Bit(!success != lastPred);
        saBuf[b, h] := Adjust(saBuf[b, h], success);
        ghost var want := Update(old(State()), success, addr);
        assert forall x | 0 <= x < BUCKETS :: State().table[x] == want.table[x];
        assert State().table == want.table;
      } else {
        assert State().table == old(State()).table;
      }
    }
  }
}
