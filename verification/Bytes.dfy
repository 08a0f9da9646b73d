/** Bytes and little-endian 32-bit numbers. */
module Bytes {

  type Byte = b: int | 0 <= b < 256

  const TWO32: int := 0x1_0000_0000

  function Le32(s: seq<Byte>, at: nat): (n: nat)
    requires at + 4 <= |s|
    ensures n < TWO32
  {
    var b0: int, b1: int, b2: int, b3: int := s[at], s[at + 1], s[at + 2], s[at + 3];
    b0 + 0x100 * (b1 + 0x100 * (b2 + 0x100 * b3))
  }

  function ToLe32(n: nat): (s: seq<Byte>)
    requires n < TWO32
    ensures |s| == 4 && Le32(s, 0) == n
  {
    var n1 := n / 0x100;
    var n2 := n1 / 0x100;
    [n % 0x100, n1 % 0x100, n2 % 0x100, n2 / 0x100]
  }

  lemma LowDigit(a: int, x: int, b: int, y: int)
    requires 0 <= a < 0x100 && 0 <= b < 0x100 && a + 0x100 * x == b + 0x100 * y
    ensures a == b && x == y
  {
  }

  /** Four bytes are determined by their number. */
  lemma Le32Injective(s: seq<Byte>, t: seq<Byte>)
    requires |s| == |t| == 4 && Le32(s, 0) == Le32(t, 0)
    ensures s == t
  {
    var s1: int, s2: int, s3: int := s[1], s[2], s[3];
    var t1: int, t2: int, t3: int := t[1], t[2], t[3];
    LowDigit(s[0], s1 + 0x100 * (s2 + 0x100 * s3), t[0], t1 + 0x100 * (t2 + 0x100 * t3));
    LowDigit(s1, s2 + 0x100 * s3, t1, t2 + 0x100 * t3);
    LowDigit(s2, s3, t2, t3);
  }

  lemma DigitOf(a: int, x: int)
    requires 0 <= a < 0x100
    ensures (a + 0x100 * x) % 0x100 == a && (a + 0x100 * x) / 0x100 == x
  {
  }

  /** The bytes are the digits of the number in base 256, lowest first. */
  lemma LowestByteFirst(s: seq<Byte>, at: nat)
    requires at + 4 <= |s|
    ensures var n := Le32(s, at);
            && n % 0x100 == s[at] && n / 0x100 % 0x100 == s[at + 1]
            && n / 0x100 / 0x100 % 0x100 == s[at + 2] && n / 0x100 / 0x100 / 0x100 == s[at + 3]
  {
    var b0: int, b1: int, b2: int, b3: int := s[at], s[at + 1], s[at + 2], s[at + 3];
    DigitOf(b0, b1 + 0x100 * (b2 + 0x100 * b3));
    DigitOf(b1, b2 + 0x100 * b3);
    DigitOf(b2, b3);
  }
}
