/** Counting references in a 32-bit word that wraps around. */
module Counting {
  import opened Atomics

  const INC := Add(W(1))
  const DEC := Add(W(0xFFFF_FFFF))

  /** The number of values of a word, and so the first count it cannot tell from zero. */
  const MODULUS: nat := 0x1_0000_0000

  /** The word that holds the count `n`. */
  ghost function WordOf(n: nat): Word {
    if n == 0 then ZERO else After(INC, WordOf(n - 1))
  }

  function Pow2(k: nat): nat {
    if k == 0 then 1 else 2 * Pow2(k - 1)
  }

  lemma DecUndoesInc(w: Word)
    ensures After(DEC, After(INC, w)) == w
    ensures INC != DEC
  {
  }

  lemma PlusOne(y: bv32)
    ensures Plus(y, 1) == y + 1
  {
  }

  lemma WordNext(n: nat)
    ensures WordOf(n + 1).bits == WordOf(n).bits + 1
  {
    hide Plus;
    PlusOne(WordOf(n).bits);
  }

  lemma TwoIncs(x: bv32)
    ensures (x << 1) + 1 + 1 == (x + 1) << 1
  {
  }

  lemma {:induction false} Doubled(m: nat)
    ensures WordOf(2 * m).bits == WordOf(m).bits << 1
  {
    if m > 0 {
      Doubled(m - 1);
      hide WordOf;
      TwoIncs(WordOf(m - 1).bits);
      WordNext(m - 1);
      WordNext(2 * m - 2);
      WordNext(2 * m - 1);
    }
  }

  /** The mask of the `k` lowest bits. */
  function Low(k: nat): bv32 {
    if k == 0 then 0 else (Low(k - 1) << 1) | 1
  }

  lemma At31()
    ensures Pow2(31) == 0x8000_0000 && Low(31) == 0x7FFF_FFFF
  {
    assert Pow2(8) == 0x100 && Pow2(16) == 0x1_0000 && Pow2(24) == 0x100_0000;
    assert Low(8) == 0xFF && Low(16) == 0xFFFF && Low(24) == 0xFF_FFFF;
  }

  lemma ShiftWithin(x: bv32, m: bv32)
    requires x & !m == 0
    ensures (x << 1) & !((m << 1) | 1) == 0
  {
  }

  lemma ShiftIncWithin(x: bv32, m: bv32)
    requires x & !m == 0
    ensures ((x << 1) + 1) & !((m << 1) | 1) == 0
  {
  }

  /** No bit from `k` on is set. */
  ghost predicate Short(w: Word, k: nat) {
    w.bits & !Low(k) == 0
  }

  lemma LowNext(k: nat)
    ensures Low(k + 1) == (Low(k) << 1) | 1
  {
  }

  lemma ShortDoubled(m: nat, k: nat)
    requires Short(WordOf(m), k)
    ensures Short(WordOf(2 * m), k + 1)
  {
    hide Low, WordOf;
    ShiftWithin(WordOf(m).bits, Low(k));
    Doubled(m);
    LowNext(k);
  }

  lemma ShortDoubledPlusOne(m: nat, k: nat)
    requires Short(WordOf(m), k)
    ensures Short(WordOf(2 * m + 1), k + 1)
  {
    hide Low, WordOf;
    ShiftIncWithin(WordOf(m).bits, Low(k));
    Doubled(m);
    WordNext(2 * m);
    LowNext(k);
  }

  /** A count below a power of two leaves the bits from that power on clear. */
  lemma {:induction false} Fits(n: nat, k: nat)
    requires n < Pow2(k)
    ensures Short(WordOf(n), k)
  {
    if k > 0 {
      Fits(n / 2, k - 1);
      ShortDoubled(n / 2, k - 1);
      ShortDoubledPlusOne(n / 2, k - 1);
      assert n == 2 * (n / 2) || n == 2 * (n / 2) + 1;
    }
  }

  lemma LowBit(x: bv32)
    requires x & !0x7FFF_FFFF == 0
    ensures (x << 1) + 1 != 0 && (x << 1 == 0 ==> x == 0)
  {
  }

  /** No count short of the modulus is held as zero, except zero itself. */
  lemma {:induction false} NonzeroBelowModulus(n: nat)
    requires 0 < n < MODULUS
    ensures WordOf(n) != ZERO
  {
    var m := n / 2;
    At31();
    Fits(m, 31);
    Doubled(m);
    LowBit(WordOf(m).bits);
    if n == 2 * m {
      NonzeroBelowModulus(m);
    }
  }

  /** The word reads one exactly when one reference is left, as long as no more than 2^32 exist. */
  lemma OneOnlyAtOne(n: nat)
    requires 1 <= n <= MODULUS
    ensures WordOf(n) == ONE <==> n == 1
  {
    DecUndoesInc(WordOf(n - 1));
    DecUndoesInc(ZERO);
    if n > 1 {
      NonzeroBelowModulus(n - 1);
    }
  }

  lemma MaskDoubles(m: bv32)
    ensures ((m << 1) | 1) + 1 == (m + 1) << 1
  {
  }

  lemma {:induction false} PowerOfTwo(k: nat)
    ensures WordOf(Pow2(k)).bits == Low(k) + 1
  {
    if k > 0 {
      PowerOfTwo(k - 1);
      Doubled(Pow2(k - 1));
      MaskDoubles(Low(k - 1));
    } else {
      assert WordOf(1) == After(INC, WordOf(0));
    }
  }

  /** The first count past the modulus reads one again. */
  lemma WrapsToOne()
    ensures WordOf(MODULUS + 1) == ONE
  {
    At31();
    PowerOfTwo(31);
    Doubled(Pow2(31));
    assert WordOf(MODULUS) == ZERO;
  }

  // ----- What an addition does

  lemma PlusNext(x: bv32, y: bv32)
    ensures Plus(x, y + 1) == Plus(x, y) + 1
  {
  }

  lemma PlusNothing(x: bv32)
    ensures Plus(x, 0) == x
  {
  }

  lemma PlusPlus(x: bv32, y: bv32)
    ensures Plus(x, Plus(y, 1)) == Plus(Plus(x, y), 1)
  {
    hide Plus;
    PlusOne(y);
    PlusOne(Plus(x, y));
    PlusNext(x, y);
  }

  /** Adding one more is adding, and then one more. */
  lemma AddNext(v: Word, w: Word)
    ensures After(Add(After(INC, v)), w) == After(INC, After(Add(v), w))
  {
    hide Plus;
    PlusPlus(w.bits, v.bits);
  }

  /** Adding the word of one number to the word of another gives the word of their sum. */
  lemma {:induction false} AddsNumbers(m: nat, n: nat)
    ensures After(Add(WordOf(n)), WordOf(m)) == WordOf(m + n)
  {
    if n == 0 {
      hide Plus;
      PlusNothing(WordOf(m).bits);
    } else {
      hide After;
      AddsNumbers(m, n - 1);
      AddNext(WordOf(n - 1), WordOf(m));
    }
  }

  lemma AddZero(w: Word)
    ensures After(Add(ZERO), w) == w
  {
    hide Plus;
    PlusNothing(w.bits);
  }

  lemma ModulusIsZero()
    ensures WordOf(MODULUS) == ZERO
  {
    At31();
    PowerOfTwo(31);
    Doubled(Pow2(31));
  }

  /** Numbers that differ by the modulus have the same word. */
  lemma Wraps(n: nat)
    ensures WordOf(n + MODULUS) == WordOf(n)
  {
    hide After, WordOf;
    AddsNumbers(n, MODULUS);
    ModulusIsZero();
    AddZero(WordOf(n));
  }

  lemma HalfAndBit(x: bv32, half: bv32, even: bv32, odd: bv32)
    ensures half == x >> 1 && even == half << 1 && odd == even + 1 ==> x == even || x == odd
  {
  }

  lemma HalfWithin(x: bv32, m: bv32)
    ensures x & !((m << 1) | 1) == 0 && m & !0x7FFF_FFFF == 0 ==> (x >> 1) & !m == 0
  {
  }

  lemma LowStep(m: bv32, n: bv32)
    ensures m & !n == 0 ==> ((m << 1) | 1) & !((n << 1) | 1) == 0
  {
  }

  lemma NothingWithin(n: bv32)
    ensures 0 & !n == 0
  {
  }

  lemma {:induction false} LowWithin(j: nat, k: nat)
    requires j <= k
    ensures Low(j) & !Low(k) == 0
  {
    if j == 0 {
      NothingWithin(Low(k));
    } else {
      LowWithin(j - 1, k - 1);
      hide Low;
      LowStep(Low(j - 1), Low(k - 1));
      LowNext(j - 1);
      LowNext(k - 1);
    }
  }

  lemma HalfIsShort(w: Word, k: nat)
    requires k < 32 && Short(w, k + 1)
    ensures Short(W(w.bits >> 1), k)
  {
    hide Low;
    At31();
    LowWithin(k, 31);
    LowNext(k);
    HalfWithin(w.bits, Low(k));
  }

  lemma ShortAtZero(w: Word)
    requires Short(w, 0)
    ensures w == ZERO
  {
  }

  lemma NoneIsZero()
    ensures WordOf(0) == ZERO
  {
  }

  lemma Rejoined(w: Word, half: nat) returns (n: nat)
    requires WordOf(half) == W(w.bits >> 1)
    ensures 2 * half <= n <= 2 * half + 1 && WordOf(n) == w
  {
    hide WordOf;
    Doubled(half);
    WordNext(2 * half);
    HalfAndBit(w.bits, WordOf(half).bits, WordOf(2 * half).bits, WordOf(2 * half + 1).bits);
    n := if w == WordOf(2 * half) then 2 * half else 2 * half + 1;
  }

  /** A word whose bits from `k` on are clear holds a number below that power of two. */
  lemma {:induction false} NumberBelow(w: Word, k: nat) returns (n: nat)
    requires k <= 32 && Short(w, k)
    ensures n < Pow2(k) && WordOf(n) == w
    decreases k
  {
    hide WordOf, Short;
    if k == 0 {
      ShortAtZero(w);
      n := 0;
      NoneIsZero();
    } else {
      HalfIsShort(w, k - 1);
      var half := NumberBelow(W(w.bits >> 1), k - 1);
      n := Rejoined(w, half);
    }
  }

  lemma AllShort(w: Word)
    ensures Short(w, 32) && Pow2(32) == MODULUS
  {
    At31();
    LowNext(31);
  }

  /** Every word holds a number below the modulus, so additions of words are those of numbers, wrapped around. */
  lemma NumberOf(w: Word) returns (n: nat)
    ensures n < MODULUS && WordOf(n) == w
  {
    AllShort(w);
    n := NumberBelow(w, 32);
  }
}
