/** Conversions to signed C integers: two's complement wrap-around at their width. */
module Integers {

  function Int32(x: int): (r: int)
    ensures -0x8000_0000 <= r < 0x8000_0000
  {
    (x + 0x8000_0000) % 0x1_0000_0000 - 0x8000_0000
  }

  function Int64(x: int): (r: int)
    ensures -0x8000_0000_0000_0000 <= r < 0x8000_0000_0000_0000
  {
    (x + 0x8000_0000_0000_0000) % 0x1_0000_0000_0000_0000 - 0x8000_0000_0000_0000
  }

  /** Wrapping after every addition is wrapping once at the end. */
  lemma Int32Add(x: int, y: int)
    ensures Int32(Int32(x) + y) == Int32(x + y)
  {
  }

  lemma Int32Keeps(x: int)
    requires -0x8000_0000 <= x < 0x8000_0000
    ensures Int32(x) == x
  {
  }

  lemma Int32OfUnsigned(n: nat)
    ensures Int32(n) == if n % 0x1_0000_0000 < 0x8000_0000 then n % 0x1_0000_0000 else n % 0x1_0000_0000 - 0x1_0000_0000
  {
    var r := n % 0x1_0000_0000;
    assert (n + 0x8000_0000) % 0x1_0000_0000 == (r + 0x8000_0000) % 0x1_0000_0000;
  }
}
