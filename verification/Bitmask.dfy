/**
 The bitmask operations of bitops.h: an array of 32-bit words read as a set of
 small numbers, and the resource allocator built on it.
 */
module Bitmask {
  import opened Bits
  import opened Integers

  const INT_MAX: int := 0x7FFF_FFFF

  function WordsFor(numBits: nat): nat {
    (numBits + 32 - 1) / 32
  }

  /** It is the least number of words with room for the bits. */
  lemma WordsForIsLeast(numBits: nat, n: nat)
    ensures numBits <= 32 * n <==> WordsFor(numBits) <= n
  {
  }

  // ----- Counting and searching the bits of one word

  /** `ffs`, looking from bit `from` on: the one-based index of the lowest set bit, or zero. */
  function Ffs(w: bv32, from: nat): (r: nat)
    requires from <= 32
    ensures r == 0 || from < r <= 32
    ensures r == 0 <==> forall k | from <= k < 32 :: !Bit(w, k)
    ensures r > 0 ==> Bit(w, r - 1) && forall k | from <= k < r - 1 :: !Bit(w, k)
    decreases 32 - from
  {
    if from == 32 then 0 else if Bit(w, from) then from + 1 else Ffs(w, from + 1)
  }

  /** The set bits among the lowest `k`. */
  function PopLow(w: bv32, k: nat): nat
    requires k <= 32
  {
    if k == 0 then 0 else PopLow(w, k - 1) + if Bit(w, k - 1) then 1 else 0
  }

  function Popcount(w: bv32): nat {
    PopLow(w, 32)
  }

  // ----- The array as a set

  predicate Test(words: seq<bv32>, b: nat)
    requires b < 32 * |words|
  {
    Bit(words[b / 32], b % 32)
  }

  /** The members below `n`. */
  ghost function Live(words: seq<bv32>, n: nat): set<nat>
    requires n <= 32 * |words|
  {
    set b: nat | b < n && Test(words, b)
  }

  function Count(words: seq<bv32>, n: nat): nat
    requires n <= 32 * |words|
  {
    if n == 0 then 0 else Count(words, n - 1) + if Test(words, n - 1) then 1 else 0
  }

  lemma {:induction false} CountIsSize(words: seq<bv32>, n: nat)
    requires n <= 32 * |words|
    ensures |Live(words, n)| == Count(words, n)
  {
    hide Bit;
    if n == 0 {
      assert Live(words, 0) == {};
    } else {
      CountIsSize(words, n - 1);
      assert Live(words, n) == Live(words, n - 1) + if Test(words, n - 1) then {n - 1} else {};
    }
  }

  lemma {:induction false} CountInWord(words: seq<bv32>, i: nat, k: nat)
    requires i < |words| && k <= 32
    ensures Count(words, 32 * i + k) == Count(words, 32 * i) + PopLow(words[i], k)
  {
    hide Bit;
    if k > 0 {
      CountInWord(words, i, k - 1);
      var b := 32 * i + (k - 1);
      assert b / 32 == i && b % 32 == k - 1;
    }
  }

  lemma {:induction false} CountGrows(words: seq<bv32>, m: nat, n: nat)
    requires m <= n <= 32 * |words|
    ensures Count(words, m) <= Count(words, n) <= Count(words, m) + (n - m)
  {
    hide Bit;
    if m < n { CountGrows(words, m, n - 1); }
  }

  // ----- The operations

  method Init(a: array<bv32>, numBits: nat)
    requires WordsFor(numBits) <= a.Length
    modifies a
    ensures forall i | 0 <= i < WordsFor(numBits) :: a[i] == 0
    ensures forall i | WordsFor(numBits) <= i < a.Length :: a[i] == old(a[i])
    ensures Live(a[..], 32 * WordsFor(numBits)) == {}
  {
    forall i | 0 <= i < WordsFor(numBits) {
      a[i] := 0;
    }
    assert forall b: nat | b < 32 * WordsFor(numBits) :: a[..][b / 32] == 0;
  }

  lemma SameBit(b: nat, c: nat)
    ensures b == c <==> b / 32 == c / 32 && b % 32 == c % 32
  {
  }

  /** `bitmask_set`: this bit joins the set, and no other bit of any word changes. */
  method Set(a: array<bv32>, bit: nat)
    requires bit < 32 * a.Length
    modifies a
    ensures forall b: nat | b < 32 * a.Length :: Test(a[..], b) <==> b == bit || Test(old(a[..]), b)
  {
    hide Bit, WithBit;
    ghost var was := a[..];
    a[bit / 32] := WithBit(a[bit / 32], bit % 32);
    forall b: nat | b < 32 * a.Length ensures Test(a[..], b) <==> b == bit || Test(was, b) {
      SetBit(was[bit / 32], bit % 32, b % 32);
      SameBit(b, bit);
    }
  }

  /** `bitmask_clear`: this bit leaves the set, and no other bit of any word changes. */
  method Clear(a: array<bv32>, bit: nat)
    requires bit < 32 * a.Length
    modifies a
    ensures forall b: nat | b < 32 * a.Length :: Test(a[..], b) <==> b != bit && Test(old(a[..]), b)
  {
    hide Bit, WithoutBit;
    ghost var was := a[..];
    a[bit / 32] := WithoutBit(a[bit / 32], bit % 32);
    forall b: nat | b < 32 * a.Length ensures Test(a[..], b) <==> b != bit && Test(was, b) {
      ClearBit(was[bit / 32], bit % 32, b % 32);
      SameBit(b, bit);
    }
  }

  /** Every number below `n` is in the set. */
  ghost predicate FullBelow(words: seq<bv32>, n: nat)
    requires n <= 32 * |words|
  {
    forall b: nat | b < n :: Test(words, b)
  }

  lemma TestInWord(words: seq<bv32>, i: nat, k: nat)
    requires i < |words| && k < 32
    ensures Test(words, 32 * i + k) <==> Bit(words[i], k)
  {
    hide Bit;
    assert (32 * i + k) / 32 == i && (32 * i + k) % 32 == k;
  }

  lemma TestComplement(words: seq<bv32>, i: nat, k: nat)
    requires i < |words| && k < 32
    ensures Test(words, 32 * i + k) <==> !Bit(!words[i], k)
  {
    hide Bit, Test;
    TestInWord(words, i, k);
    NotBit(words[i], k);
  }

  /** What `ffs` of the complement of word `i` says of the set. */
  lemma FirstClear(words: seq<bv32>, i: nat, r: nat)
    requires i < |words| && r == Ffs(!words[i], 0) && FullBelow(words, 32 * i)
    ensures FullBelow(words, 32 * i + if r == 0 then 32 else r - 1)
    ensures r > 0 ==> !Test(words, 32 * i + (r - 1))
  {
    hide Bit, Test, Ffs;
    forall b: nat | 32 * i <= b < 32 * i + (if r == 0 then 32 else r - 1) ensures Test(words, b) {
      TestComplement(words, i, b - 32 * i);
    }
    if r > 0 {
      TestComplement(words, i, r - 1);
    }
  }

  /**
   `bitmask_ffz`: the lowest number below `numBits` that is not in the set, or -1
   exactly when there is none, whatever the padding bits of the last word hold.
   */
  method Ffz(a: array<bv32>, numBits: nat) returns (r: int)
    requires numBits <= INT_MAX && WordsFor(numBits) <= a.Length
    ensures -1 <= r < numBits
    ensures r == -1 <==> FullBelow(a[..], numBits)
    ensures r >= 0 ==> !Test(a[..], r) && FullBelow(a[..], r)
  {
    hide Bit, Test, Ffs, Int32;
    for i := 0 to WordsFor(numBits)
      invariant FullBelow(a[..], 32 * i)
    {
      var bit := Ffs(!a[i], 0);
      FirstClear(a[..], i, bit);
      if bit != 0 {
        bit := bit - 1;
        var result := Int32(32 * i + bit);
        Int32Keeps(32 * i + bit);
        if result >= numBits {
          return -1;
        }
        return result;
      }
    }
    return -1;
  }

  /** `bitmask_weight` adds up whole words, padding included, in an int. */
  method Weight(a: array<bv32>, numBits: nat) returns (weight: int)
    requires WordsFor(numBits) <= a.Length
    ensures weight == Int32(Count(a[..], 32 * WordsFor(numBits)))
  {
    hide Bit, Test, Int32, PopLow;
    Int32Keeps(0);
    weight := 0;
    for i := 0 to WordsFor(numBits)
      invariant weight == Int32(Count(a[..], 32 * i))
    {
      CountInWord(a[..], i, 32);
      Int32Add(Count(a[..], 32 * i), Popcount(a[i]));
      weight := Int32(weight + Popcount(a[i]));
    }
  }

  lemma SmallerSubset(x: set<nat>, y: set<nat>)
    requires x < y
    ensures |x| < |y|
  {
    assert y == x + (y - x);
    assert |y| == |x| + |y - x|;
  }

  /** The weight is the size of the set exactly when no padding bit is set. */
  lemma WeightCountsLive(words: seq<bv32>, numBits: nat)
    requires numBits <= INT_MAX && WordsFor(numBits) <= |words|
    ensures Int32(Count(words, 32 * WordsFor(numBits))) == |Live(words, numBits)|
       <==> Live(words, 32 * WordsFor(numBits)) == Live(words, numBits)
  {
    hide Bit;
    var whole := 32 * WordsFor(numBits);
    CountIsSize(words, numBits);
    CountIsSize(words, whole);
    CountGrows(words, numBits, whole);
    CountGrows(words, 0, numBits);
    assert Live(words, numBits) <= Live(words, whole);
    if Live(words, whole) != Live(words, numBits) {
      SmallerSubset(Live(words, numBits), Live(words, whole));
    }
  }

  // ----- Every state that setting and clearing reach

  datatype Edit = Mark(id: nat) | Unmark(id: nat)

  /** The plain set after the first `k` edits. */
  function Marked(edits: seq<Edit>, k: nat): set<nat>
    requires k <= |edits|
  {
    if k == 0 then {} else
      match edits[k - 1]
      case Mark(id) => Marked(edits, k - 1) + {id}
      case Unmark(id) => Marked(edits, k - 1) - {id}
  }

  /** The last of the first `k` edits of `id` is the one at `i`, and it marks it. */
  ghost predicate MarkedLast(edits: seq<Edit>, k: nat, id: nat, i: nat)
    requires k <= |edits|
  {
    i < k && edits[i] == Mark(id) && forall j | i < j < k :: edits[j].id != id
  }

  /** A number is in the set exactly if its last edit marked it. */
  lemma {:induction false} MarkedIff(edits: seq<Edit>, k: nat, id: nat)
    requires k <= |edits|
    ensures id in Marked(edits, k) <==> exists i: nat :: MarkedLast(edits, k, id, i)
  {
    if k > 0 {
      var before := k - 1;
      MarkedIff(edits, before, id);
      if edits[k - 1] == Mark(id) {
        assert MarkedLast(edits, k, id, k - 1);
      } else if edits[k - 1].id != id {
        if i: nat :| MarkedLast(edits, before, id, i) {
          assert MarkedLast(edits, k, id, i);
        }
        if i: nat :| MarkedLast(edits, k, id, i) {
          assert MarkedLast(edits, before, id, i);
        }
      }
    }
  }

  lemma {:induction false} MarkedBelow(edits: seq<Edit>, k: nat, n: nat)
    requires k <= |edits| && forall i | 0 <= i < |edits| :: edits[i].id < n
    ensures forall b | b in Marked(edits, k) :: b < n
  {
    if k > 0 { MarkedBelow(edits, k - 1, n); }
  }

  /**
   From `bitmask_init`, any sequence of setting and clearing bits below `numBits` keeps the
   words equal to the plain set, so padding stays clear and the weight is its size.
   */
  method EditAndWeigh(a: array<bv32>, numBits: nat, edits: seq<Edit>) returns (weight: int)
    requires numBits <= INT_MAX && WordsFor(numBits) <= a.Length
    requires forall i | 0 <= i < |edits| :: edits[i].id < numBits
    modifies a
    ensures Live(a[..], 32 * WordsFor(numBits)) == Marked(edits, |edits|) == Live(a[..], numBits)
    ensures weight == |Marked(edits, |edits|)|
  {
    hide Test;
    Init(a, numBits);
    for k := 0 to |edits|
      invariant Live(a[..], 32 * WordsFor(numBits)) == Marked(edits, k)
    {
      match edits[k]
      case Mark(id) => Set(a, id);
      case Unmark(id) => Clear(a, id);
    }
    MarkedBelow(edits, |edits|, numBits);
    assert Live(a[..], numBits) == Marked(edits, |edits|);
    weight := Weight(a, numBits);
    WeightCountsLive(a[..], numBits);
  }
}
