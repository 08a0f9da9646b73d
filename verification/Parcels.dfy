/**
 Writing LightFlattenable values into a Parcel and reading them back.  The
 primitives below the two templates are modelled as a byte sequence with a
 cursor, every in-place block rounded up to four bytes on both sides.
 */
module Parcels {
  import opened Bytes
  import opened Integers

  datatype Status = NoError | NoMemory | NotEnoughData | Failed(code: int)

  /** What `flatten` reports, and what it leaves in its buffer. */
  datatype Flat = Flat(st: Status, bytes: seq<Byte>)

  /** What `unflatten` reports, and what it makes of the destination. */
  datatype Unflat<T> = Unflat(st: Status, val: T)

  /** The LightFlattenable protocol of a class `T`. */
  datatype Codec<!T> = Codec(fixed: bool, size: T -> nat, flatten: T -> Flat, unflatten: (T, seq<Byte>) -> Unflat<T>)

  datatype Item<!T> = Item(codec: Codec<T>, val: T)

  // ----- Sizes on the wire

  const SIZE_MAX: int := 0xFFFF_FFFF_FFFF_FFFF

  /** `size_t` (64 bits) from `int32_t`. */
  function SizeOfInt32(s: int): nat
    requires -0x8000_0000 <= s < 0x8000_0000
  {
    if s >= 0 then s else s + SIZE_MAX + 1
  }

  function EncodeInt32(s: int): (b: seq<Byte>)
    requires -0x8000_0000 <= s < 0x8000_0000
    ensures |b| == 4
  {
    ToLe32(if s >= 0 then s else s + TWO32)
  }

  function DecodeInt32(b: seq<Byte>, at: nat): (s: int)
    requires at + 4 <= |b|
    ensures -0x8000_0000 <= s < 0x8000_0000
  {
    var n := Le32(b, at);
    if n < 0x8000_0000 then n else n - TWO32
  }

  lemma FieldKept(s: int)
    requires -0x8000_0000 <= s < 0x8000_0000
    ensures DecodeInt32(EncodeInt32(s), 0) == s
  {
    hide ToLe32, Le32;
  }

  /** A size survives the int32 field exactly when it is below 2^31, or so near 2^64 that sign extension restores it. */
  lemma SizeFieldExact(n: nat)
    requires n <= SIZE_MAX
    ensures SizeOfInt32(DecodeInt32(EncodeInt32(Int32(n)), 0)) == n
       <==> n < 0x8000_0000 || n > SIZE_MAX - 0x8000_0000
  {
    hide Int32, EncodeInt32, DecodeInt32;
    FieldKept(Int32(n));
    Int32OfUnsigned(n);
    var q := n / TWO32;
    assert n == q * TWO32 + n % TWO32 && 0 <= q < TWO32;
  }

  // ----- The bytes that stand for a value

  function PadSize(n: nat): nat {
    (n + 3) / 4 * 4
  }

  /** It is the least multiple of four that is not smaller. */
  lemma PadIsLeast(n: nat, m: nat)
    ensures PadSize(n) % 4 == 0 && (m % 4 == 0 ==> (n <= m <==> PadSize(n) <= m))
  {
  }

  function Zeros(n: nat): (z: seq<Byte>)
    ensures |z| == n
  {
    seq(n, _ => 0)
  }

  function Padded(b: seq<Byte>): (p: seq<Byte>)
    ensures |p| == PadSize(|b|) && p[..|b|] == b
  {
    b + Zeros(PadSize(|b|) - |b|)
  }

  /** A buffer of `n` bytes after these were put at its start. */
  function Filled(b: seq<Byte>, n: nat): (f: seq<Byte>)
    ensures |f| == n && (|b| == n ==> f == b)
  {
    if |b| >= n then b[..n] else b + Zeros(n - |b|)
  }

  /** The size field, which only the variable-size classes have. */
  function Field<T>(item: Item<T>): seq<Byte> {
    if item.codec.fixed then [] else EncodeInt32(Int32(item.codec.size(item.val)))
  }

  /** The flattened value, rounded up; nothing for size zero. */
  function Body<T>(item: Item<T>): seq<Byte> {
    var n := item.codec.size(item.val);
    if n == 0 then [] else Padded(Filled(item.codec.flatten(item.val).bytes, n))
  }

  function Encoding<T>(item: Item<T>): seq<Byte> {
    Field(item) + Body(item)
  }

  /** A field of the size unless the class has a fixed one, the flattened bytes, and zeros up to a multiple of four. */
  lemma EncodingLayout<T>(item: Item<T>)
    requires item.codec.size(item.val) < 0x8000_0000
    ensures var n, field, e := item.codec.size(item.val), if item.codec.fixed then 0 else 4, Encoding(item);
            && |e| == field + (if n == 0 then 0 else PadSize(n))
            && (field == 4 ==>
                  && n % 0x100 == e[0] && n / 0x100 % 0x100 == e[1]
                  && n / 0x100 / 0x100 % 0x100 == e[2] && n / 0x100 / 0x100 / 0x100 == e[3])
            && (n > 0 && |item.codec.flatten(item.val).bytes| == n ==>
                  && e[field..field + n] == item.codec.flatten(item.val).bytes
                  && forall k | field + n <= k < |e| :: e[k] == 0)
  {
    hide Int32, ToLe32, Le32;
    var n, e := item.codec.size(item.val), Encoding(item);
    Int32Keeps(n);
    if !item.codec.fixed {
      LowestByteFirst(ToLe32(n), 0);
      assert e[..4] == ToLe32(n);
    }
  }

  /** Writing `b` at the cursor: over what is there, and beyond the end if need be. */
  function Overwrite(data: seq<Byte>, pos: nat, b: seq<Byte>): (r: seq<Byte>)
    requires pos <= |data|
    ensures |r| >= pos + |b| && r[..pos] == data[..pos] && r[pos..pos + |b|] == b
  {
    data[..pos] + b + if pos + |b| <= |data| then data[pos + |b|..] else []
  }

  /** It changes nothing behind the bytes, and makes the data no longer than need be. */
  lemma OverwriteElsewhere(data: seq<Byte>, pos: nat, b: seq<Byte>)
    requires pos <= |data|
    ensures var r := Overwrite(data, pos, b);
            && |r| == (if pos + |b| <= |data| then |data| else pos + |b|)
            && forall k | pos + |b| <= k < |data| :: r[k] == data[k]
  {
  }

  lemma OverwriteTwice(data: seq<Byte>, pos: nat, a: seq<Byte>, b: seq<Byte>)
    requires pos <= |data|
    ensures Overwrite(Overwrite(data, pos, a), pos + |a|, b) == Overwrite(data, pos, a + b)
  {
    var mid := Overwrite(data, pos, a);
    assert mid[..pos + |a|] == data[..pos] + a;
  }

  lemma OverwriteNothing(data: seq<Byte>, pos: nat)
    requires pos <= |data|
    ensures Overwrite(data, pos, []) == data
  {
  }

  // ----- What a read finds

  datatype ReadResult<T> = ReadResult(st: Status, val: T, pos: nat)

  /** The outcome of reading at `pos`: the value, or why there is none, and where the cursor ends up. */
  function ReadFrom<T>(c: Codec<T>, data: seq<Byte>, pos: nat, dst: T): ReadResult<T>
    requires pos <= |data|
  {
    if !c.fixed && pos + 4 > |data| then ReadResult(NotEnoughData, dst, pos)
    else
      var at := if c.fixed then pos else pos + 4;
      var size := if c.fixed then c.size(dst) else SizeOfInt32(DecodeInt32(data, pos));
      if size == 0 then ReadResult(NoError, dst, at)
      else if at + PadSize(size) > |data| then ReadResult(NoMemory, dst, at)
      else
        var u := c.unflatten(dst, data[at..at + size]);
        ReadResult(u.st, u.val, at + PadSize(size))
  }

  /** A variable-size class needs its size field. */
  predicate FieldMissing<T>(c: Codec<T>, data: seq<Byte>, pos: nat) {
    !c.fixed && |data| < pos + 4
  }

  /** Where the block begins, and how many bytes it is said to have. */
  function BlockStart<T>(c: Codec<T>, pos: nat): nat {
    if c.fixed then pos else pos + 4
  }

  function BlockSize<T>(c: Codec<T>, data: seq<Byte>, pos: nat, dst: T): nat
    requires !FieldMissing(c, data, pos)
  {
    if c.fixed then c.size(dst) else SizeOfInt32(DecodeInt32(data, pos))
  }

  predicate BlockMissing<T>(c: Codec<T>, data: seq<Byte>, pos: nat, dst: T)
    requires !FieldMissing(c, data, pos)
  {
    |data| < BlockStart(c, pos) + PadSize(BlockSize(c, data, pos, dst))
  }

  /** What `unflatten` makes of the block. */
  function Block<T>(c: Codec<T>, data: seq<Byte>, pos: nat, dst: T): Unflat<T>
    requires !FieldMissing(c, data, pos) && !BlockMissing(c, data, pos, dst)
  {
    var at := BlockStart(c, pos);
    c.unflatten(dst, data[at..at + BlockSize(c, data, pos, dst)])
  }

  /**
   How a read ends, in all cases: a missing size field and a missing block are two different errors,
   and both leave the value alone; otherwise the status is that of unflatten, or NoError
   for size zero, which leaves the value alone too.
   */
  ghost predicate ReadEnds<T>(c: Codec<T>, data: seq<Byte>, pos: nat, dst: T, st: Status, r: T, pos': nat) {
    if FieldMissing(c, data, pos) then
      st == NotEnoughData && r == dst && pos' == pos
    else
      && (BlockSize(c, data, pos, dst) == 0 ==> st == NoError && r == dst && pos' == BlockStart(c, pos))
      && (BlockMissing(c, data, pos, dst) ==> st == NoMemory && r == dst && pos' == BlockStart(c, pos))
      && (BlockSize(c, data, pos, dst) > 0 && !BlockMissing(c, data, pos, dst) ==>
            && Block(c, data, pos, dst) == Unflat(st, r)
            && pos' == BlockStart(c, pos) + PadSize(BlockSize(c, data, pos, dst)))
  }

  /** A read succeeds exactly if the size is zero, or the block is there and unflatten succeeds. */
  lemma ReadSucceedsIff<T>(c: Codec<T>, data: seq<Byte>, pos: nat, dst: T)
    requires pos <= |data|
    ensures var r := ReadFrom(c, data, pos, dst);
            && ReadEnds(c, data, pos, dst, r.st, r.val, r.pos)
            && (r.st == NoError <==>
                  && !FieldMissing(c, data, pos)
                  && (BlockSize(c, data, pos, dst) == 0 ||
                      (!BlockMissing(c, data, pos, dst) && Block(c, data, pos, dst).st == NoError)))
  {
    hide DecodeInt32, SizeOfInt32;
  }

  /**
   What the protocol asks of one value and the destination it is read into: below 2^31
   bytes, a fixed-size destination as large as the value, and, unless the size is zero, a
   flatten that succeeds and an unflatten that undoes it.
   */
  predicate Fit<T(==)>(item: Item<T>, dst: T) {
    var c, v := item.codec, item.val;
    && c.size(v) < 0x8000_0000
    && (c.fixed ==> c.size(dst) == c.size(v))
    && (c.size(v) > 0 ==>
          && c.flatten(v).st == NoError && |c.flatten(v).bytes| == c.size(v)
          && c.unflatten(dst, c.flatten(v).bytes) == Unflat(NoError, v))
  }

  /** What a destination holds after the item was read into it. */
  function Restored<T>(item: Item<T>, dst: T): T {
    if item.codec.size(item.val) == 0 then dst else item.val
  }

  lemma DecodeAt(before: seq<Byte>, b: seq<Byte>, after: seq<Byte>)
    requires |b| == 4
    ensures DecodeInt32(before + b + after, |before|) == DecodeInt32(b, 0)
  {
  }

  /** The size that the reader works with is the size of the value written. */
  lemma SizeRead<T>(item: Item<T>, dst: T, before: seq<Byte>, after: seq<Byte>)
    requires Fit(item, dst) && !item.codec.fixed
    ensures var data := before + Encoding(item) + after;
            |before| + 4 <= |data| && SizeOfInt32(DecodeInt32(data, |before|)) == item.codec.size(item.val)
  {
    hide DecodeInt32, EncodeInt32, SizeOfInt32, Int32, Body;
    assert before + Encoding(item) + after == before + Field(item) + (Body(item) + after);
    DecodeAt(before, Field(item), Body(item) + after);
    SizeFieldExact(item.codec.size(item.val));
  }

  lemma SliceOfMiddle(before: seq<Byte>, field: seq<Byte>, body: seq<Byte>, after: seq<Byte>, n: nat)
    requires n <= |body|
    ensures var at := |before| + |field|;
            (before + (field + body) + after)[at..at + n] == body[..n]
  {
  }

  /**
   Reading what was written, wherever it stands in the parcel: a value of non-zero size is
   restored, one of size zero leaves the destination alone, and exactly the bytes of
   the encoding are consumed.
   */
  lemma ReadsBack<T>(item: Item<T>, dst: T, before: seq<Byte>, after: seq<Byte>)
    requires Fit(item, dst)
    ensures ReadFrom(item.codec, before + Encoding(item) + after, |before|, dst)
         == ReadResult(NoError, Restored(item, dst), |before| + |Encoding(item)|)
  {
    hide DecodeInt32, EncodeInt32, SizeOfInt32, Int32, Padded, Filled;
    if !item.codec.fixed {
      SizeRead(item, dst, before, after);
    }
    if item.codec.size(item.val) > 0 {
      SliceOfMiddle(before, Field(item), Body(item), after, item.codec.size(item.val));
    }
  }

  /** A class that keeps the protocol for all its values keeps it for each of them. */
  lemma LawfulFits<T(!new)>(item: Item<T>, dst: T)
    requires var c := item.codec;
             && (forall v | c.size(v) > 0 :: c.flatten(v).st == NoError && |c.flatten(v).bytes| == c.size(v))
             && (forall v, d | c.size(v) > 0 :: c.unflatten(d, c.flatten(v).bytes) == Unflat(NoError, v))
             && (c.fixed ==> forall v, d :: c.size(v) == c.size(d))
    requires item.codec.size(item.val) < 0x8000_0000
    ensures Fit(item, dst)
  {
    assert item.codec.fixed ==> item.codec.size(item.val) == item.codec.size(dst);
  }

  // ----- The parcel

  class Parcel {
    var data: seq<Byte>
    var pos: nat
    const capacity: nat   // growing beyond it fails

    constructor (capacity: nat)
      ensures Valid() && data == [] && pos == 0 && this.capacity == capacity
    {
      data, pos := [], 0;
      this.capacity := capacity;
    }

    ghost predicate Valid()
      reads this
    {
      pos <= |data| <= capacity
    }

    /** Both write primitives: put the bytes at the cursor and move it behind them, if they fit. */
    method Put(b: seq<Byte>) returns (ok: bool)
      requires Valid()
      modifies this
      ensures Valid()
      ensures ok <==> old(pos) + |b| <= capacity
      ensures data == if ok then Overwrite(old(data), old(pos), b) else old(data)
      ensures pos == if ok then old(pos) + |b| else old(pos)
    {
      ok := pos + |b| <= capacity;
      if ok {
        data := Overwrite(data, pos, b);
        pos := pos + |b|;
      }
    }

    method WriteInt32(val: int) returns (st: Status)
      requires Valid() && -0x8000_0000 <= val < 0x8000_0000
      modifies this
      ensures Valid()
      ensures st == if old(pos) + 4 <= capacity then NoError else NoMemory
      ensures data == if st == NoError then Overwrite(old(data), old(pos), EncodeInt32(val)) else old(data)
      ensures pos == if st == NoError then old(pos) + 4 else old(pos)
    {
      var ok := Put(EncodeInt32(val));
      st := if ok then NoError else NoMemory;
    }

    method ReadInt32() returns (st: Status, val: int)
      requires Valid()
      modifies this`pos
      ensures Valid()
      ensures if old(pos) + 4 <= |data|
              then st == NoError && val == DecodeInt32(data, old(pos)) && pos == old(pos) + 4
              else st == NotEnoughData && pos == old(pos)
      ensures -0x8000_0000 <= val < 0x8000_0000
    {
      if pos + 4 > |data| {
        return NotEnoughData, 0;
      }
      val := DecodeInt32(data, pos);
      pos := pos + 4;
      st := NoError;
    }

    method ReadInplace(size: nat) returns (ok: bool, bytes: seq<Byte>)
      requires Valid()
      modifies this`pos
      ensures Valid()
      ensures ok <==> old(pos) + PadSize(size) <= |data|
      ensures if ok then bytes == data[old(pos)..old(pos) + size] && pos == old(pos) + PadSize(size) else pos == old(pos)
    {
      ok, bytes := pos + PadSize(size) <= |data|, [];
      if ok {
        bytes := data[pos..pos + size];
        pos := pos + PadSize(size);
      }
    }

    /**
     `Parcel::write(LightFlattenable)`: at the cursor, over or beyond what is there, the
     encoding of the value with the status of its flatten; or, if it does not fit, no
     more than the size field.
     */
    method Write<T>(c: Codec<T>, v: T) returns (st: Status)
      requires Valid()
      modifies this
      ensures Valid()
      ensures old(pos) + |Encoding(Item(c, v))| <= capacity ==>
                && data == Overwrite(old(data), old(pos), Encoding(Item(c, v)))
                && pos == old(pos) + |Encoding(Item(c, v))|
                && st == if c.size(v) == 0 then NoError else c.flatten(v).st
      ensures old(pos) + |Encoding(Item(c, v))| > capacity ==>
                && st == NoMemory
                && var done := if old(pos) + |Field(Item(c, v))| <= capacity then Field(Item(c, v)) else [];
                   data == Overwrite(old(data), old(pos), done) && pos == old(pos) + |done|
    {
      hide EncodeInt32, Padded, Filled, Int32;
      ghost var item := Item(c, v);
      assert Overwrite(data, pos, []) == data;
      OverwriteTwice(data, pos, Field(item), Body(item));
      assert Field(item) + [] == Field(item) && [] + Body(item) == Body(item);
      var size := c.size(v);
      if !c.fixed {
        var err := WriteInt32(Int32(size));
        if err != NoError {
          return err;
        }
      }
      if size != 0 {
        var f := c.flatten(v);
        var ok := Put(Padded(Filled(f.bytes, size)));
        if !ok {
          return NoMemory;
        }
        return f.st;
      }
      return NoError;
    }

    /** `Parcel::read(LightFlattenable)`, on any bytes whatever. */
    method Read<T>(c: Codec<T>, dst: T) returns (st: Status, r: T)
      requires Valid()
      modifies this`pos
      ensures Valid()
      ensures ReadResult(st, r, pos) == ReadFrom(c, data, old(pos), dst)
      ensures ReadEnds(c, data, old(pos), dst, st, r, pos)
    {
      ReadSucceedsIff(c, data, pos, dst);
      hide ReadEnds, DecodeInt32, SizeOfInt32;
      var size: nat;
      r := dst;
      if c.fixed {
        size := c.size(dst);
      } else {
        var s;
        st, s := ReadInt32();
        if st != NoError {
          return;
        }
        size := SizeOfInt32(s);
      }
      if size != 0 {
        var ok, bytes := ReadInplace(size);
        if !ok {
          return NoMemory, r;
        }
        var u := c.unflatten(r, bytes);
        return u.st, u.val;
      }
      st := NoError;
    }
  }

  // ----- Whole parcels

  function Encodings<T>(items: seq<Item<T>>, k: nat): seq<Byte>
    requires k <= |items|
  {
    if k == 0 then [] else Encodings(items, k - 1) + Encoding(items[k - 1])
  }

  lemma {:induction false} EncodingsPrefix<T>(items: seq<Item<T>>, j: nat, k: nat)
    requires j <= k <= |items|
    ensures Encodings(items, j) <= Encodings(items, k)
  {
    hide Encoding;
    if j < k { EncodingsPrefix(items, j, k - 1); }
  }

  /** No flatten that is called fails. */
  predicate Flattens<T>(item: Item<T>) {
    item.codec.size(item.val) > 0 ==> item.codec.flatten(item.val).st == NoError
  }

  method WriteAll<T>(p: Parcel, items: seq<Item<T>>) returns (st: Status)
    requires p.Valid() && forall k | 0 <= k < |items| :: Flattens(items[k])
    modifies p
    ensures p.Valid()
    ensures st == NoError <==> old(p.pos) + |Encodings(items, |items|)| <= p.capacity
    ensures st == NoError ==>
              && p.data == Overwrite(old(p.data), old(p.pos), Encodings(items, |items|))
              && p.pos == old(p.pos) + |Encodings(items, |items|)|
  {
    hide Encoding, Overwrite;
    ghost var data, pos := p.data, p.pos;
    assert Overwrite(data, pos, []) == data by { OverwriteNothing(data, pos); }
    for k := 0 to |items|
      invariant p.Valid() && p.data == Overwrite(data, pos, Encodings(items, k))
      invariant p.pos == pos + |Encodings(items, k)| <= p.capacity
    {
      EncodingsPrefix(items, k + 1, |items|);
      OverwriteTwice(data, pos, Encodings(items, k), Encoding(items[k]));
      assert Flattens(items[k]) && Item(items[k].codec, items[k].val) == items[k];
      st := p.Write(items[k].codec, items[k].val);
      if st != NoError {
        return;
      }
    }
    st := NoError;
  }

  lemma ReadsBackKth<T>(items: seq<Item<T>>, k: nat, dst: T, before: seq<Byte>, after: seq<Byte>)
    requires k < |items| && Fit(items[k], dst)
    ensures |Encodings(items, k)| <= |Encodings(items, |items|)|
    ensures ReadFrom(items[k].codec, before + Encodings(items, |items|) + after, |before| + |Encodings(items, k)|, dst)
         == ReadResult(NoError, Restored(items[k], dst), |before| + |Encodings(items, k + 1)|)
  {
    hide Encoding, ReadFrom, Fit, Restored;
    var all, done, enc := Encodings(items, |items|), Encodings(items, k), Encoding(items[k]);
    EncodingsPrefix(items, k + 1, |items|);
    var rest := all[|done| + |enc|..];
    assert all == done + enc + rest;
    assert before + all + after == (before + done) + enc + (rest + after);
    ReadsBack(items[k], dst, before + done, rest + after);
  }

  method ReadAll<T>(p: Parcel, items: seq<Item<T>>, dsts: seq<T>, ghost before: seq<Byte>, ghost after: seq<Byte>)
    returns (outs: seq<T>)
    requires p.Valid() && p.data == before + Encodings(items, |items|) + after && p.pos == |before|
    requires |dsts| == |items| && forall k | 0 <= k < |items| :: Fit(items[k], dsts[k])
    modifies p`pos
    ensures |outs| == |items| && forall k | 0 <= k < |items| :: outs[k] == Restored(items[k], dsts[k])
    ensures p.pos == |before| + |Encodings(items, |items|)|
  {
    hide Encoding, ReadFrom, ReadEnds, Fit, Restored;
    outs := [];
    for k := 0 to |items|
      invariant p.Valid() && p.pos == |before| + |Encodings(items, k)| && |outs| == k
      invariant forall i | 0 <= i < k :: outs[i] == Restored(items[i], dsts[i])
    {
      ReadsBackKth(items, k, dsts[k], before, after);
      var st, r := p.Read(items[k].codec, dsts[k]);
      outs := outs + [r];
    }
  }

  /**
   Any list of values, of one class or of several, written in order anywhere in a parcel
   and read back in order from there, into any destinations that fit.
   */
  method RoundTrip<T>(p: Parcel, items: seq<Item<T>>, dsts: seq<T>) returns (outs: seq<T>)
    requires p.Valid() && p.pos + |Encodings(items, |items|)| <= p.capacity
    requires |dsts| == |items| && forall k | 0 <= k < |items| :: Fit(items[k], dsts[k])
    modifies p
    ensures |outs| == |items| && forall k | 0 <= k < |items| :: outs[k] == Restored(items[k], dsts[k])
    ensures p.data == Overwrite(old(p.data), old(p.pos), Encodings(items, |items|))
    ensures p.pos == old(p.pos) + |Encodings(items, |items|)|
  {
    hide Encoding, Overwrite;
    var start := p.pos;
    assert forall k | 0 <= k < |items| :: Flattens(items[k]);
    var st := WriteAll(p, items);
    ghost var n := |Encodings(items, |items|)|;
    ghost var before, after := p.data[..start], p.data[start + n..];
    assert p.data == before + p.data[start..start + n] + after;
    p.pos := start;
    outs := ReadAll(p, items, dsts, before, after);
  }
}
