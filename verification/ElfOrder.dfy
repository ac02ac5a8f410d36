/** The order in which an ELF file's segments are laid out: zero-offset segments first, then
    rotated until every segment follows all those whose section lists properly include its own. */
module ElfOrder {
  import opened Words

  datatype Segment = Segment(typ: nat, align: Word, vaddr: Word, fileSize: Word, memSize: Word,
                             offset: Word, offsetSet: bool, sections: seq<nat>)

  // ----- std::includes on section lists -----

  /** The two-pointer walk of std::includes. */
  predicate Includes(b: seq<nat>, a: seq<nat>) {
    if a == [] then true
    else if b == [] || a[0] < b[0] then false
    else if b[0] < a[0] then Includes(b[1..], a)
    else Includes(b[1..], a[1..])
  }

  predicate Sorted(s: seq<nat>) {
    forall i, j | 0 <= i < j < |s| :: s[i] <= s[j]
  }

  lemma HeadTail(s: seq<nat>)
    requires s != []
    ensures multiset(s) == multiset{s[0]} + multiset(s[1..])
  {
    assert s == [s[0]] + s[1..];
  }

  lemma BelowAll(x: nat, s: seq<nat>)
    requires Sorted(s) && (s == [] || x < s[0])
    ensures multiset(s)[x] == 0
  {
    assert x !in s;
  }

  /** On sorted lists the walk decides inclusion. */
  lemma {:induction false} IncludesIsInclusion(b: seq<nat>, a: seq<nat>)
    requires Sorted(a) && Sorted(b)
    ensures Includes(b, a) <==> multiset(a) <= multiset(b)
    decreases b
  {
    if a != [] {
      HeadTail(a);
      if b == [] || a[0] < b[0] {
        BelowAll(a[0], b);
        assert multiset(a)[a[0]] > 0;
      } else {
        HeadTail(b);
        if b[0] < a[0] {
          BelowAll(b[0], a);
          IncludesIsInclusion(b[1..], a);
          assert forall x :: x != b[0] ==> multiset(b)[x] == multiset(b[1..])[x];
        } else {
          IncludesIsInclusion(b[1..], a[1..]);
          assert forall x :: multiset(a[1..])[x] <= multiset(b[1..])[x] <==> multiset(a)[x] <= multiset(b)[x];
        }
      }
    }
  }

  predicate IsSubsequenceOf(s: Segment, t: Segment) {
    |s.sections| < |t.sections| && Includes(t.sections, s.sections)
  }

  lemma ProperIsSmaller(a: multiset<nat>, b: multiset<nat>)
    requires a <= b
    ensures a < b <==> |a| < |b|
  {
    assert b == a + (b - a);
    assert |b - a| == 0 ==> b - a == multiset{};
  }

  /** On sorted section lists the engine's test is proper inclusion. */
  lemma SubsequenceIsProper(s: Segment, t: Segment)
    requires Sorted(s.sections) && Sorted(t.sections)
    ensures IsSubsequenceOf(s, t) <==> multiset(s.sections) < multiset(t.sections)
  {
    IncludesIsInclusion(t.sections, s.sections);
    assert |multiset(s.sections)| == |s.sections| && |multiset(t.sections)| == |t.sections|;
    if multiset(s.sections) <= multiset(t.sections) {
      ProperIsSmaller(multiset(s.sections), multiset(t.sections));
    }
  }

  // ----- the order -----

  function Range(n: nat): seq<nat> {
    seq(n, i requires 0 <= i < n => i)
  }

  predicate InRange(segs: seq<Segment>, w: seq<nat>) {
    forall k | 0 <= k < |w| :: w[k] < |segs|
  }

  predicate StartsAtZero(s: Segment) {
    s.offsetSet && s.offset == 0
  }

  /** No segment of the list is properly included in a later one. */
  predicate Ordered(segs: seq<Segment>, w: seq<nat>)
    requires InRange(segs, w)
  {
    forall i, j | 0 <= i < j < |w| :: !IsSubsequenceOf(segs[w[i]], segs[w[j]])
  }

  predicate NoneIncluded(segs: seq<Segment>, e: nat, w: seq<nat>)
    requires e < |segs| && InRange(segs, w)
  {
    forall k | 0 <= k < |w| :: !IsSubsequenceOf(segs[e], segs[w[k]])
  }

  /** Where the first of the longest section lists is. */
  function FirstLongest(segs: seq<Segment>, w: seq<nat>): (k: nat)
    requires InRange(segs, w) && w != []
    ensures k < |w|
    ensures forall j | 0 <= j < |w| :: |segs[w[j]].sections| <= |segs[w[k]].sections|
    ensures forall j | 0 <= j < k :: |segs[w[j]].sections| < |segs[w[k]].sections|
  {
    if |w| == 1 then 0 else
      var k := FirstLongest(segs, w[..|w| - 1]);
      if |segs[w[|w| - 1]].sections| > |segs[w[k]].sections| then |w| - 1 else k
  }

  lemma Unique(segs: seq<Segment>, w: seq<nat>, k: nat)
    requires InRange(segs, w) && k < |w|
    requires forall j | 0 <= j < |w| :: |segs[w[j]].sections| <= |segs[w[k]].sections|
    requires forall j | 0 <= j < k :: |segs[w[j]].sections| < |segs[w[k]].sections|
    ensures FirstLongest(segs, w) == k
  {
    assert |segs[w[FirstLongest(segs, w)]].sections| == |segs[w[k]].sections|;
  }

  /** Rotating a segment included in another brings the first longest list one place forward. */
  lemma RotateForward(segs: seq<Segment>, w: seq<nat>, i: nat)
    requires InRange(segs, w) && 0 < i < |w| && IsSubsequenceOf(segs[w[0]], segs[w[i]])
    ensures FirstLongest(segs, w[1..] + [w[0]]) == FirstLongest(segs, w) - 1
  {
    var f := FirstLongest(segs, w);
    var r := w[1..] + [w[0]];
    assert f > 0;
    assert r[f - 1] == w[f];
    forall j | 0 <= j < |r|
      ensures |segs[r[j]].sections| <= |segs[r[f - 1]].sections|
      ensures j < f - 1 ==> |segs[r[j]].sections| < |segs[r[f - 1]].sections|
    {
      assert r[j] == if j < |w| - 1 then w[j + 1] else w[0];
    }
    Unique(segs, r, f - 1);
  }

  // ----- zero offsets to the front -----

  function Swapped(w: seq<nat>, i: nat, j: nat): seq<nat>
    requires i < |w| && j < |w|
  {
    w[i := w[j]][j := w[i]]
  }

  predicate Permutes(w: seq<nat>, n: nat) {
    multiset(w) == multiset(Range(n))
  }

  lemma SwapPermutes(w: seq<nat>, i: nat, j: nat, n: nat)
    requires i < |w| && j < |w| && Permutes(w, n)
    ensures Permutes(Swapped(w, i, j), n)
  {
  }

  /** Before position i: zero offsets fill the first `next` slots, and none that is set stands
      after slot `next`. */
  predicate Gathered(segs: seq<Segment>, w: seq<nat>, next: nat, i: nat) {
    && next <= i <= |w| && InRange(segs, w)
    && (forall j | 0 <= j < next :: segs[w[j]].offset == 0)
    && (forall k | next < k < i :: !StartsAtZero(segs[w[k]]))
  }

  lemma GatherOne(segs: seq<Segment>, w: seq<nat>, next: nat, i: nat)
    requires Gathered(segs, w, next, i) && next < i < |w| && StartsAtZero(segs[w[i]])
    ensures var slot := if segs[w[next]].offset == 0 then next + 1 else next;
      Gathered(segs, Swapped(w, i, slot), slot + 1, i + 1)
  {
  }

  lemma GatherSkip(segs: seq<Segment>, w: seq<nat>, next: nat, i: nat)
    requires Gathered(segs, w, next, i) && i < |w| && (i == next || !StartsAtZero(segs[w[i]]))
    ensures Gathered(segs, w, next, i + 1)
  {
  }

  lemma GatheredAll(segs: seq<Segment>, w: seq<nat>, next: nat)
    requires Gathered(segs, w, next, |w|)
    ensures forall j, k | 0 <= j < k < |w| :: StartsAtZero(segs[w[k]]) ==> segs[w[j]].offset == 0
  {
  }

  /** Brings zero-offset segments to the front: whatever stands before one has offset zero. */
  method ZeroFirst(segs: seq<Segment>) returns (w: seq<nat>)
    ensures Permutes(w, |segs|) && InRange(segs, w)
    ensures forall j, k | 0 <= j < k < |w| :: StartsAtZero(segs[w[k]]) ==> segs[w[j]].offset == 0
  {
    w := Range(|segs|);
    var nextSlot := 0;
    for i := 0 to |w|
      invariant |w| == |segs| && Permutes(w, |segs|) && Gathered(segs, w, nextSlot, i)
    {
      if i != nextSlot && segs[w[i]].offsetSet && segs[w[i]].offset == 0 {
        GatherOne(segs, w, nextSlot, i);
        if segs[w[nextSlot]].offset == 0 {
          nextSlot := nextSlot + 1;
        }
        SwapPermutes(w, i, nextSlot, |segs|);
        w := Swapped(w, i, nextSlot);
        nextSlot := nextSlot + 1;
      } else {
        GatherSkip(segs, w, nextSlot, i);
      }
    }
    GatheredAll(segs, w, nextSlot);
  }

  // ----- the rotating worklist -----

  /** What is out is in order, and nothing out is included in what is still waiting. */
  predicate Sorting(segs: seq<Segment>, res: seq<nat>, w: seq<nat>) {
    && InRange(segs, res) && InRange(segs, w) && Ordered(segs, res)
    && multiset(res) + multiset(w) == multiset(Range(|segs|))
    && forall k | 0 <= k < |res| :: NoneIncluded(segs, res[k], w)
  }

  lemma Rotate(segs: seq<Segment>, res: seq<nat>, w: seq<nat>)
    requires Sorting(segs, res, w) && w != []
    ensures Sorting(segs, res, w[1..] + [w[0]])
  {
    var r := w[1..] + [w[0]];
    HeadTail(w);
    assert multiset(r) == multiset(w);
    forall k | 0 <= k < |res|
      ensures NoneIncluded(segs, res[k], r)
    {
      assert NoneIncluded(segs, res[k], w);
    }
  }

  lemma Emit(segs: seq<Segment>, res: seq<nat>, w: seq<nat>)
    requires Sorting(segs, res, w) && w != [] && NoneIncluded(segs, w[0], w[1..])
    ensures Sorting(segs, res + [w[0]], w[1..])
  {
    var out := res + [w[0]];
    HeadTail(w);
    forall k | 0 <= k < |out|
      ensures NoneIncluded(segs, out[k], w[1..])
      ensures k < |res| ==> !IsSubsequenceOf(segs[out[k]], segs[w[0]])
    {
      assert k < |res| ==> NoneIncluded(segs, res[k], w);
    }
  }

  /** The rotating worklist ends, with a permutation of the segments in which each one stands
      after all those that properly include it. */
  method GetOrderedSegments(segs: seq<Segment>) returns (res: seq<nat>)
    ensures Permutes(res, |segs|)
    ensures InRange(segs, res) && Ordered(segs, res)
  {
    res := [];
    var worklist := ZeroFirst(segs);
    while worklist != []
      invariant Sorting(segs, res, worklist)
      decreases |worklist|, if worklist == [] then 0 else FirstLongest(segs, worklist)
    {
      var seg, rest := worklist[0], worklist[1..];
      var i := FirstIncluding(segs, seg, rest);
      if i < |rest| {
        Rotate(segs, res, worklist);
        RotateForward(segs, worklist, i + 1);
        worklist := rest + [seg];
      } else {
        Emit(segs, res, worklist);
        res, worklist := res + [seg], rest;
      }
    }
  }

  /** The search for a waiting segment that includes this one. */
  method FirstIncluding(segs: seq<Segment>, seg: nat, rest: seq<nat>) returns (i: nat)
    requires seg < |segs| && InRange(segs, rest)
    ensures i <= |rest| && (i < |rest| ==> IsSubsequenceOf(segs[seg], segs[rest[i]]))
    ensures NoneIncluded(segs, seg, rest[..i])
    ensures i == |rest| ==> NoneIncluded(segs, seg, rest)
  {
    i := 0;
    while i < |rest| && !IsSubsequenceOf(segs[seg], segs[rest[i]])
      invariant i <= |rest| && NoneIncluded(segs, seg, rest[..i])
    {
      assert rest[..i + 1] == rest[..i] + [rest[i]];
      i := i + 1;
    }
    assert rest[..|rest|] == rest;
  }
}
