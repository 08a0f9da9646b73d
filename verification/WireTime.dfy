/** `anodyne_log_time`: seconds and nanoseconds in 32-bit fields. */
module WireTime {
  import opened Bytes

  const NS_PER_SEC: nat := 1_000_000_000
  const NSEC_MAX: nat := 999_999_999

  datatype Time = Time(sec: nat, nsec: nat)

  predicate Fits(t: Time) {
    t.sec < TWO32 && t.nsec < TWO32
  }

  predicate Less(s: Time, t: Time) {
    s.sec < t.sec || (s.sec == t.sec && s.nsec < t.nsec)
  }

  /** `operator<=` is written as the negation of `operator>`. */
  predicate AtMost(s: Time, t: Time) {
    !(s.sec > t.sec || (s.sec == t.sec && s.nsec > t.nsec))
  }

  /** Nanoseconds since the epoch; the product and the sum are computed in 64 bits. */
  function Nsec(t: Time): nat {
    (t.sec * NS_PER_SEC % 0x1_0000_0000_0000_0000 + t.nsec) % 0x1_0000_0000_0000_0000
  }

  lemma NsecDoesNotWrap(t: Time)
    requires Fits(t)
    ensures Nsec(t) == t.sec * 1_000_000_000 + t.nsec
  {
  }

  /** On normalized times the two-field order is the order of the nanosecond counts, which tell times apart. */
  lemma OrdersAgree(s: Time, t: Time)
    requires Fits(s) && Fits(t) && s.nsec <= NSEC_MAX && t.nsec <= NSEC_MAX
    ensures Less(s, t) <==> Nsec(s) < Nsec(t)
    ensures AtMost(s, t) <==> Nsec(s) <= Nsec(t)
    ensures Nsec(s) == Nsec(t) ==> s == t
  {
    NsecDoesNotWrap(s);
    NsecDoesNotWrap(t);
  }

  /** The bound on the nanosecond field is exact: one more, and the orders come apart. */
  lemma BoundIsExact(bound: nat)
    requires bound < TWO32
    ensures (forall s, t | Fits(s) && Fits(t) && s.nsec <= bound && t.nsec <= bound :: Less(s, t) <==> Nsec(s) < Nsec(t))
       <==> bound <= 999_999_999
  {
    if bound <= NSEC_MAX {
      forall s, t | Fits(s) && Fits(t) && s.nsec <= bound && t.nsec <= bound
        ensures Less(s, t) <==> Nsec(s) < Nsec(t)
      {
        OrdersAgree(s, t);
      }
    } else {
      var s, t := Time(0, NS_PER_SEC), Time(1, 0);
      assert Less(s, t) && Nsec(s) == Nsec(t);
    }
  }

  /** A sequence of normalized times is sorted by the fields exactly when it is sorted by the count. */
  lemma SortedAlike(ts: seq<Time>)
    requires forall k | 0 <= k < |ts| :: Fits(ts[k]) && ts[k].nsec <= NSEC_MAX
    ensures (forall i, j | 0 <= i < j < |ts| :: AtMost(ts[i], ts[j]))
       <==> (forall i, j | 0 <= i < j < |ts| :: Nsec(ts[i]) <= Nsec(ts[j]))
  {
    forall i, j | 0 <= i < j < |ts| ensures AtMost(ts[i], ts[j]) <==> Nsec(ts[i]) <= Nsec(ts[j]) {
      OrdersAgree(ts[i], ts[j]);
    }
  }

  // ----- The wire form

  function FromBytes(b: seq<Byte>): (t: Time)
    requires |b| >= 8
    ensures Fits(t)
  {
    Time(Le32(b, 0), Le32(b, 4))
  }

  function ToBytes(t: Time): (b: seq<Byte>)
    requires Fits(t)
    ensures |b| == 8
  {
    ToLe32(t.sec) + ToLe32(t.nsec)
  }

  /** The byte constructor and the little-endian encoding undo each other. */
  lemma WireRoundTrip(t: Time, b: seq<Byte>)
    requires Fits(t) && |b| == 8
    ensures FromBytes(ToBytes(t)) == t
    ensures ToBytes(FromBytes(b)) == b
  {
    assert Le32(ToBytes(t), 4) == Le32(ToLe32(t.nsec), 0);
    assert Le32(b[..4], 0) == Le32(b, 0) && Le32(b[4..], 0) == Le32(b, 4);
    Le32Injective(b[..4], ToLe32(Le32(b, 0)));
    Le32Injective(b[4..], ToLe32(Le32(b, 4)));
    assert b == b[..4] + b[4..];
  }

  /** Seconds come first, then nanoseconds, each with its lowest byte first. */
  lemma WireLayout(b: seq<Byte>)
    requires |b| >= 8
    ensures var sec, nsec := FromBytes(b).sec, FromBytes(b).nsec;
            && sec % 0x100 == b[0] && sec / 0x100 % 0x100 == b[1]
            && sec / 0x100 / 0x100 % 0x100 == b[2] && sec / 0x100 / 0x100 / 0x100 == b[3]
            && nsec % 0x100 == b[4] && nsec / 0x100 % 0x100 == b[5]
            && nsec / 0x100 / 0x100 % 0x100 == b[6] && nsec / 0x100 / 0x100 / 0x100 == b[7]
  {
    hide Le32;
    LowestByteFirst(b, 0);
    LowestByteFirst(b, 4);
  }
}
