/** Single bits of a 32-bit word, read and written through one-bit masks. */
module Bits {

  /** Bit `k` of the word; the mask is unsigned, so bit 31 is a bit like the others. */
  predicate Bit(w: bv32, k: nat)
    requires k < 32
  {
    w & (1 << k) != 0
  }

  lemma MaskNext(k: nat)
    requires k < 31
    ensures (1 as bv32) << (k + 1) == ((1 as bv32) << k) << 1 && ((1 as bv32) << k) & 0x8000_0000 == 0
  {
  }

  lemma HalfMeets(w: bv32, m: bv32, n: bv32)
    ensures n == m << 1 && m & 0x8000_0000 == 0 ==> (w & n != 0 <==> (w >> 1) & m != 0)
  {
  }

  /** The lowest bit tells odd from even. */
  lemma LowestBit(w: bv32)
    ensures Bit(w, 0) <==> w & 1 == 1
  {
  }

  /** Every other bit is the one below it in half the word. */
  lemma HalfBit(w: bv32, k: nat)
    requires k < 31
    ensures Bit(w, k + 1) <==> Bit(w >> 1, k)
  {
    MaskNext(k);
    HalfMeets(w, 1 << k, 1 << (k + 1));
  }

  function WithBit(w: bv32, k: nat): bv32
    requires k < 32
  {
    w | (1 << k)
  }

  function WithoutBit(w: bv32, k: nat): bv32
    requires k < 32
  {
    w & !(1 << k)
  }

  // ----- What or, and-not and not do at a mask

  lemma MasksApart(j: nat, k: nat)
    requires j < 32 && k < 32 && j != k
    ensures ((1 as bv32) << k) & ((1 as bv32) << j) == 0
  {
  }

  lemma OrApart(w: bv32, m: bv32, n: bv32)
    requires m & n == 0
    ensures (w | m) & n == w & n
  {
  }

  lemma AndNotApart(w: bv32, m: bv32, n: bv32)
    requires m & n == 0
    ensures (w & !m) & n == w & n
  {
  }

  lemma NotAtBit(w: bv32, k: nat)
    requires k < 32
    ensures (!w) & ((1 as bv32) << k) != 0 <==> w & ((1 as bv32) << k) == 0
  {
  }

  lemma NotBit(w: bv32, k: nat)
    requires k < 32
    ensures Bit(!w, k) <==> !Bit(w, k)
  {
    NotAtBit(w, k);
  }

  lemma SetSame(w: bv32, k: nat)
    requires k < 32
    ensures (w | ((1 as bv32) << k)) & ((1 as bv32) << k) != 0
  {
  }

  lemma SetOther(w: bv32, k: nat, j: nat)
    requires j < 32 && k < 32 && j != k
    ensures (w | ((1 as bv32) << k)) & ((1 as bv32) << j) == w & ((1 as bv32) << j)
  {
    MasksApart(j, k);
    OrApart(w, 1 << k, 1 << j);
  }

  lemma ClearSame(w: bv32, k: nat)
    requires k < 32
    ensures (w & !((1 as bv32) << k)) & ((1 as bv32) << k) == 0
  {
  }

  lemma ClearOther(w: bv32, k: nat, j: nat)
    requires j < 32 && k < 32 && j != k
    ensures (w & !((1 as bv32) << k)) & ((1 as bv32) << j) == w & ((1 as bv32) << j)
  {
    MasksApart(j, k);
    AndNotApart(w, 1 << k, 1 << j);
  }

  /** Setting a bit changes that bit and no other. */
  lemma SetBit(w: bv32, k: nat, j: nat)
    requires j < 32 && k < 32
    ensures Bit(WithBit(w, k), j) <==> j == k || Bit(w, j)
  {
    if j == k {
      SetSame(w, k);
    } else {
      SetOther(w, k, j);
    }
  }

  /** Clearing a bit changes that bit and no other. */
  lemma ClearBit(w: bv32, k: nat, j: nat)
    requires j < 32 && k < 32
    ensures Bit(WithoutBit(w, k), j) <==> j != k && Bit(w, j)
  {
    if j == k {
      ClearSame(w, k);
    } else {
      ClearOther(w, k, j);
    }
  }

  // ----- What and and or do at every bit

  lemma MaskIsOneBit(k: nat)
    requires k < 32
    ensures ((1 as bv32) << k) != 0 && ((1 as bv32) << k) & (((1 as bv32) << k) - 1) == 0
  {
  }

  lemma AndMeets(w: bv32, v: bv32, m: bv32)
    ensures m & (m - 1) == 0 ==> ((w & v) & m != 0 <==> w & m != 0 && v & m != 0)
  {
  }

  lemma OrMeets(w: bv32, v: bv32, m: bv32)
    ensures m & (m - 1) == 0 ==> ((w | v) & m != 0 <==> w & m != 0 || v & m != 0)
  {
  }

  lemma AndAtBit(w: bv32, v: bv32, k: nat)
    requires k < 32
    ensures (w & v) & ((1 as bv32) << k) != 0 <==> w & ((1 as bv32) << k) != 0 && v & ((1 as bv32) << k) != 0
  {
    MaskIsOneBit(k);
    AndMeets(w, v, 1 << k);
  }

  lemma OrAtBit(w: bv32, v: bv32, k: nat)
    requires k < 32
    ensures (w | v) & ((1 as bv32) << k) != 0 <==> w & ((1 as bv32) << k) != 0 || v & ((1 as bv32) << k) != 0
  {
    MaskIsOneBit(k);
    OrMeets(w, v, 1 << k);
  }

  /** A bit of the conjunction is set exactly if it is set in both words. */
  lemma AndBit(w: bv32, v: bv32, k: nat)
    requires k < 32
    ensures Bit(w & v, k) <==> Bit(w, k) && Bit(v, k)
  {
    AndAtBit(w, v, k);
  }

  /** A bit of the disjunction is set exactly if it is set in one of the words. */
  lemma OrBit(w: bv32, v: bv32, k: nat)
    requires k < 32
    ensures Bit(w | v, k) <==> Bit(w, k) || Bit(v, k)
  {
    OrAtBit(w, v, k);
  }
}
