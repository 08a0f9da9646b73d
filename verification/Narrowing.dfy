/** `string16_to_string8`: keeping every other byte of a buffer, possibly in place. */
module Narrowing {
  import opened Bytes

  /** The little-endian UTF-16 form of a byte string. */
  function Widen(b: seq<Byte>): (w: seq<Byte>)
    ensures |w| == 2 * |b|
    ensures forall j | 0 <= j < |b| :: w[2 * j] == b[j] && w[2 * j + 1] == 0
  {
    if b == [] then [] else Widen(b[..|b| - 1]) + [b[|b| - 1], 0]
  }

  function Index(j: nat): (i: nat)
    ensures i <= 2 * j && i < TWO32 - 1
  {
    assert 2 * j == 2 * j / TWO32 * TWO32 + 2 * j % TWO32;
    2 * j % TWO32
  }

  /** The source index is a 32-bit counter: it is right for every `j` exactly when `len` is at most 2^31. */
  lemma IndexExact(len: nat)
    ensures (forall j: nat | j < len :: Index(j) == 2 * j) <==> len <= 0x8000_0000
  {
    if len > 0x8000_0000 {
      assert Index(0x8000_0000) == 0;
    }
  }

  lemma IndexStep(j: nat)
    ensures Index(j + 1) == (Index(j) + 2) % TWO32
    ensures j < 0x8000_0000 ==> Index(j) == 2 * j
  {
  }

  /**
   For `len` up to 2^31 the bytes at the even positions of the source, as they were on
   entry, arrive in order, whether or not both buffers are the same; beyond that the
   counter wraps around and, in separate buffers, the first half comes again.
   */
  method String16ToString8(src: array<Byte>, dst: array<Byte>, len: nat)
    requires len < TWO32 && len <= dst.Length
    requires len > 0 ==> 2 * len - 1 <= src.Length || TWO32 - 1 <= src.Length
    modifies dst
    ensures len <= 0x8000_0000 ==> forall j | 0 <= j < len :: dst[j] == old(src[2 * j])
    ensures src != dst ==> forall j | 0 <= j < len :: dst[j] == old(src[Index(j)])
    ensures forall j | len <= j < dst.Length :: dst[j] == old(dst[j])
  {
    hide Index;
    var i, j := 0, 0;
    IndexStep(0);
    while j < len
      invariant 0 <= j <= len && i == Index(j)
      invariant src != dst || len <= 0x8000_0000 ==> forall k | 0 <= k < j :: dst[k] == old(src[Index(k)])
      invariant forall k | j <= k < dst.Length :: dst[k] == old(dst[k])
    {
      IndexStep(j);
      dst[j] := src[i];
      i := (i + 2) % TWO32;
      j := j + 1;
    }
    forall k | 0 <= k < len && len <= 0x8000_0000 ensures dst[k] == old(src[2 * k]) {
      IndexStep(k);
    }
  }

  /** Narrowing undoes widening, in place or not. */
  method NarrowWidened(src: array<Byte>, dst: array<Byte>, ghost text: seq<Byte>, len: nat)
    requires len == |text| <= 0x8000_0000 && len <= dst.Length
    requires Widen(text) <= src[..]
    modifies dst
    ensures dst[..len] == text
  {
    assert forall j | 0 <= j < len :: src[2 * j] == Widen(text)[2 * j];
    String16ToString8(src, dst, len);
  }

  /** The other way round, widening restores the source exactly when every odd byte was zero. */
  lemma WidenUndoesNarrowing(src: seq<Byte>, text: seq<Byte>)
    requires |src| == 2 * |text| && forall j | 0 <= j < |text| :: text[j] == src[2 * j]
    ensures Widen(text) == src <==> forall j | 0 <= j < |text| :: src[2 * j + 1] == 0
  {
    hide Widen;
    var w := Widen(text);
    if forall j | 0 <= j < |text| :: src[2 * j + 1] == 0 {
      forall i | 0 <= i < |src| ensures w[i] == src[i] {
        var j := i / 2;
        assert i == 2 * j || i == 2 * j + 1;
      }
    }
  }
}
