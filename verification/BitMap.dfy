/** The bitmap that hands out physical pages: bits packed into 32-bit words. */
module BitMap {
  import opened Words

  /** The three operations below are & (1 << i), | (1 << i) and & ~(1 << i), bit by bit. */
  predicate TestBit(w: nat, i: nat) {
    if i == 0 then w % 2 == 1 else TestBit(w / 2, i - 1)
  }

  function WithBit(w: nat, i: nat): nat {
    if i == 0 then w / 2 * 2 + 1 else 2 * WithBit(w / 2, i - 1) + w % 2
  }

  function WithoutBit(w: nat, i: nat): nat {
    if i == 0 then w / 2 * 2 else 2 * WithoutBit(w / 2, i - 1) + w % 2
  }

  /** A word stays a word. */
  lemma {:induction false} BitsFit(w: nat, i: nat, n: nat)
    requires i < n && w < Power2(n)
    ensures WithBit(w, i) < Power2(n) && WithoutBit(w, i) < Power2(n)
  {
    var half := Power2(n - 1);
    assert Power2(n) == 2 * half;
    if i > 0 {
      BitsFit(w / 2, i - 1, n - 1);
      assert WithBit(w, i) == 2 * WithBit(w / 2, i - 1) + w % 2;
      assert WithoutBit(w, i) == 2 * WithoutBit(w / 2, i - 1) + w % 2;
    } else {
      assert w / 2 < half;
    }
  }

  lemma EightMore(n: nat)
    ensures Power2(n + 8) == 256 * Power2(n)
  {
    assert Power2(n + 2) == 4 * Power2(n);
    assert Power2(n + 4) == 4 * Power2(n + 2);
    assert Power2(n + 6) == 4 * Power2(n + 4);
    assert Power2(n + 8) == 4 * Power2(n + 6);
  }

  lemma WordSize()
    ensures Power2(32) == TWO32
  {
    EightMore(0);
    EightMore(8);
    EightMore(16);
    EightMore(24);
  }

  lemma WordsFit(w: Word32, i: nat)
    requires i < 32
    ensures WithBit(w, i) < TWO32 && WithoutBit(w, i) < TWO32
  {
    WordSize();
    BitsFit(w, i, 32);
  }

  lemma {:induction false} OneBitSet(w: nat, i: nat, j: nat)
    ensures TestBit(WithBit(w, i), j) <==> i == j || TestBit(w, j)
  {
    if i > 0 && j > 0 {
      OneBitSet(w / 2, i - 1, j - 1);
    }
  }

  lemma {:induction false} OneBitCleared(w: nat, i: nat, j: nat)
    ensures TestBit(WithoutBit(w, i), j) <==> i != j && TestBit(w, j)
  {
    if i > 0 && j > 0 {
      OneBitCleared(w / 2, i - 1, j - 1);
    }
  }

  /** Setting or clearing one bit of a word changes that bit only. */
  lemma OneBit(w: nat, i: nat, j: nat)
    ensures TestBit(WithBit(w, i), j) <==> i == j || TestBit(w, j)
    ensures TestBit(WithoutBit(w, i), j) <==> i != j && TestBit(w, j)
  {
    OneBitSet(w, i, j);
    OneBitCleared(w, i, j);
  }

  predicate BitSet(words: seq<Word32>, k: nat)
    requires k / 32 < |words|
  {
    TestBit(words[k / 32], k % 32)
  }

  /** The numbers below n whose bit is set. */
  function Taken(words: seq<Word32>, n: nat): (s: set<nat>)
    requires n <= 32 * |words|
  {
    set k: nat | k < n && BitSet(words, k)
  }

  lemma UsedAreBits(words: seq<Word32>, n: nat)
    requires n <= 32 * |words|
    ensures forall k: nat :: k in Taken(words, n) <==> k < n && k in Taken(words, 32 * |words|)
  {
  }

  lemma BitIndex(j: nat, k: nat)
    ensures j == k <==> j / 32 == k / 32 && j % 32 == k % 32
  {
  }

  /** One word with one bit set or cleared: exactly one number joins or leaves. */
  lemma OneNumber(words: seq<Word32>, w: Word32, n: nat, k: nat)
    requires n <= 32 * |words| && k < n
    ensures w == WithBit(words[k / 32], k % 32) ==> Taken(words[k / 32 := w], n) == Taken(words, n) + {k}
    ensures w == WithoutBit(words[k / 32], k % 32) ==> Taken(words[k / 32 := w], n) == Taken(words, n) - {k}
  {
    forall j: nat | j < n
      ensures w == WithBit(words[k / 32], k % 32) ==> (BitSet(words[k / 32 := w], j) <==> j == k || BitSet(words, j))
      ensures w == WithoutBit(words[k / 32], k % 32) ==> (BitSet(words[k / 32 := w], j) <==> j != k && BitSet(words, j))
    {
      BitIndex(j, k);
      OneBit(words[k / 32], k % 32, j % 32);
    }
  }

  lemma {:induction false} ZeroBits(i: nat)
    ensures !TestBit(0, i)
  {
    if i > 0 {
      ZeroBits(i - 1);
    }
  }

  lemma NoneTaken(words: seq<Word32>, n: nat)
    requires n <= 32 * |words| && forall j | 0 <= j < |words| :: words[j] == 0
    ensures Taken(words, n) == {}
  {
    forall k: nat | k < n
      ensures !BitSet(words, k)
    {
      ZeroBits(k % 32);
    }
  }

  class BitMap {
    const nbits: nat
    const innerMap: array<Word32>

    ghost predicate Valid() {
      innerMap.Length == nbits / 32 + 1
    }

    ghost function Used(): set<nat>
      reads innerMap
      requires Valid()
    {
      Taken(innerMap[..], nbits)
    }

    constructor (n: nat)
      ensures Valid() && nbits == n && Used() == {} && fresh(innerMap)
    {
      nbits := n;
      innerMap := new Word32[n / 32 + 1](_ => 0);
      new;
      NoneTaken(innerMap[..], nbits);
    }

    /** Takes the least number not in the set; fails only when there is none. */
    method FindSet() returns (k: int)
      requires Valid()
      modifies innerMap
      ensures k == -1 ==> Used() == old(Used()) && forall j: nat :: j < nbits ==> j in Used()
      ensures k != -1 ==> 0 <= k < nbits && k !in old(Used()) && Used() == old(Used()) + {k}
      ensures k != -1 ==> forall j: nat :: j < k ==> j in old(Used())
    {
      for i := 0 to nbits
        invariant innerMap[..] == old(innerMap[..])
        invariant forall j: nat :: j < i ==> j in Used()
      {
        if !TestBit(innerMap[i / 32], i % 32) {
          WordsFit(innerMap[i / 32], i % 32);
          innerMap[i / 32] := WithBit(innerMap[i / 32], i % 32);
          OneNumber(old(innerMap[..]), innerMap[i / 32], nbits, i);
          assert innerMap[..] == old(innerMap[..])[i / 32 := innerMap[i / 32]];
          return i;
        }
        assert BitSet(innerMap[..], i);
      }
      return -1;
    }

    /** All numbers with a bit of their own, those past the last one handed out included. */
    ghost function AllBits(): set<nat>
      reads innerMap
    {
      Taken(innerMap[..], 32 * innerMap.Length)
    }

    method Exist(k: nat) returns (b: bool)
      requires Valid() && k / 32 < innerMap.Length
      ensures b <==> k in AllBits()
      ensures k < nbits ==> (b <==> k in Used())
    {
      b := TestBit(innerMap[k / 32], k % 32);
      assert b == BitSet(innerMap[..], k);
    }

    method Clear(k: nat) returns (r: int)
      requires Valid() && k / 32 < innerMap.Length
      modifies innerMap
      ensures AllBits() == old(AllBits()) - {k} && Used() == old(Used()) - {k}
      ensures r == if k in old(AllBits()) then 0 else -1
    {
      assert k in AllBits() <==> BitSet(innerMap[..], k);
      if TestBit(innerMap[k / 32], k % 32) {
        WordsFit(innerMap[k / 32], k % 32);
        innerMap[k / 32] := WithoutBit(innerMap[k / 32], k % 32);
        OneNumber(old(innerMap[..]), innerMap[k / 32], 32 * innerMap.Length, k);
        assert innerMap[..] == old(innerMap[..])[k / 32 := innerMap[k / 32]];
        UsedAreBits(innerMap[..], nbits);
        UsedAreBits(old(innerMap[..]), nbits);
        return 0;
      }
      UsedAreBits(innerMap[..], nbits);
      return -1;
    }

    method Empty()
      requires Valid()
      modifies innerMap
      ensures Used() == {}
    {
      for i := 0 to innerMap.Length
        invariant forall j | 0 <= j < i :: innerMap[j] == 0
      {
        innerMap[i] := 0;
      }
      NoneTaken(innerMap[..], nbits);
    }
  }
}
