/**
 Walking a buffer of fanotify events with FAN_EVENT_OK and FAN_EVENT_NEXT.
 Each event starts with a 40-byte header whose first field is its own length.
 */
module Fanotify {
  import opened Bytes
  import opened Integers

  /** `sizeof(struct fanotify_event_metadata)`: length, version, reserved, header length, mask, fd, pid, offset, size. */
  const METADATA_LEN: nat := 4 + 1 + 1 + 2 + 8 + 4 + 4 + 8 + 8

  /** The width of the C type `long`. */
  datatype Abi = Long32 | Long64

  function LongMax(abi: Abi): int {
    match abi case Long32 => 0x7FFF_FFFF case Long64 => 0x7FFF_FFFF_FFFF_FFFF
  }

  /** Conversion to `long`: two's complement wrap-around at its width. */
  function ToLong(abi: Abi, x: int): int {
    match abi case Long32 => Int32(x) case Long64 => Int64(x)
  }

  lemma ToLongKeeps(abi: Abi, x: int)
    requires 0 <= x <= LongMax(abi)
    ensures ToLong(abi, x) == x
  {
  }

  /** An unsigned 32-bit number that does not fit in `long` turns negative. */
  lemma ToLongOfUnsigned(abi: Abi, n: nat)
    requires n < TWO32
    ensures ToLong(abi, n) == if n <= LongMax(abi) then n else n - TWO32
  {
  }

  /** The `event_len` field of the header at `at`, which must lie inside the buffer. */
  function EventLen(buf: seq<Byte>, at: nat): (n: nat)
    requires at + METADATA_LEN <= |buf|
    ensures n < TWO32
  {
    Le32(buf, at)
  }

  /** The length is the first field of the header, lowest byte first. */
  lemma EventLenField(buf: seq<Byte>, at: nat)
    requires at + METADATA_LEN <= |buf|
    ensures var n := EventLen(buf, at);
            && n % 0x100 == buf[at] && n / 0x100 % 0x100 == buf[at + 1]
            && n / 0x100 / 0x100 % 0x100 == buf[at + 2] && n / 0x100 / 0x100 / 0x100 == buf[at + 3]
  {
    hide Le32;
    LowestByteFirst(buf, at);
  }

  /** FAN_EVENT_OK: the header is read only when it is known to fit. */
  predicate EventOk(abi: Abi, buf: seq<Byte>, at: nat, len: int)
    requires at + len <= |buf| <= LongMax(abi) && 0 <= len
  {
    && ToLong(abi, len) >= ToLong(abi, METADATA_LEN)
    && ToLong(abi, EventLen(buf, at)) >= ToLong(abi, METADATA_LEN)
    && ToLong(abi, EventLen(buf, at)) <= ToLong(abi, len)
  }

  /** The buffer begins with a whole event. */
  predicate Starts(buf: seq<Byte>) {
    |buf| >= METADATA_LEN && METADATA_LEN <= EventLen(buf, 0) <= |buf|
  }

  /** The shortest event: one byte fewer is refused, forty are accepted. */
  lemma ShortestEvent(buf: seq<Byte>)
    ensures Starts(buf) ==> |buf| >= 40
    ensures |buf| >= 40 && EventLen(buf, 0) == 40 ==> Starts(buf)
  {
  }

  /** The casts change nothing: neither width of `long` lets a length wrap into range. */
  lemma CastsAreHarmless(abi: Abi, buf: seq<Byte>, at: nat, len: int)
    requires at + len == |buf| <= LongMax(abi) && 0 <= len
    ensures EventOk(abi, buf, at, len) <==> Starts(buf[at..])
  {
    ToLongKeeps(abi, len);
    ToLongKeeps(abi, METADATA_LEN);
    if len >= METADATA_LEN {
      ToLongOfUnsigned(abi, EventLen(buf, at));
      assert EventLen(buf[at..], 0) == EventLen(buf, at);
    }
  }

  // ----- What the walk should find

  /** A whole event: long enough for its header, and as long as it says. */
  predicate WellFormed(rec: seq<Byte>) {
    |rec| >= METADATA_LEN && EventLen(rec, 0) == |rec|
  }

  function Events(buf: seq<Byte>): seq<seq<Byte>> {
    if Starts(buf) then [buf[..EventLen(buf, 0)]] + Events(buf[EventLen(buf, 0)..]) else []
  }

  function Joined(recs: seq<seq<Byte>>): seq<Byte> {
    if recs == [] then [] else recs[0] + Joined(recs[1..])
  }

  /** The events tile a prefix of the buffer, each is whole, and no further one follows. */
  lemma {:induction false} EventsTile(buf: seq<Byte>)
    ensures forall k | 0 <= k < |Events(buf)| :: WellFormed(Events(buf)[k])
    ensures Joined(Events(buf)) <= buf
    ensures !Starts(buf[|Joined(Events(buf))|..])
    ensures METADATA_LEN * |Events(buf)| <= |buf|
  {
    if Starts(buf) {
      var n := EventLen(buf, 0);
      EventsTile(buf[n..]);
      assert buf == buf[..n] + buf[n..];
      assert Events(buf)[1..] == Events(buf[n..]);
      var done := Joined(Events(buf[n..]));
      assert buf[n..][|done|..] == buf[n + |done|..];
    }
  }

  /** Walking undoes joining, for any number of whole events of any size. */
  lemma {:induction false} EventsOfJoined(recs: seq<seq<Byte>>)
    requires forall k | 0 <= k < |recs| :: WellFormed(recs[k])
    ensures Events(Joined(recs)) == recs
  {
    if recs != [] {
      var buf := Joined(recs);
      EventsOfJoined(recs[1..]);
      assert buf[..|recs[0]|] == recs[0] && buf[|recs[0]|..] == Joined(recs[1..]);
      assert EventLen(buf, 0) == EventLen(recs[0], 0);
    }
  }

  /** The walk uses up the whole buffer exactly when the buffer is a join of whole events. */
  lemma ConsumedIffJoined(buf: seq<Byte>)
    ensures Joined(Events(buf)) == buf <==>
            exists recs: seq<seq<Byte>> :: Joined(recs) == buf && forall k | 0 <= k < |recs| :: WellFormed(recs[k])
  {
    EventsTile(buf);
    if recs: seq<seq<Byte>> :| Joined(recs) == buf && forall k | 0 <= k < |recs| :: WellFormed(recs[k]) {
      EventsOfJoined(recs);
    }
  }

  // ----- The walk

  lemma NoEvent(buf: seq<Byte>)
    requires !Starts(buf)
    ensures Events(buf) == []
  {
  }

  lemma SameLen(buf: seq<Byte>, at: nat)
    requires at + METADATA_LEN <= |buf|
    ensures EventLen(buf[at..], 0) == EventLen(buf, at)
  {
  }

  lemma {:induction false} JoinedSnoc(recs: seq<seq<Byte>>, rec: seq<Byte>)
    ensures Joined(recs + [rec]) == Joined(recs) + rec
  {
    if recs != [] {
      JoinedSnoc(recs[1..], rec);
      assert (recs + [rec])[1..] == recs[1..] + [rec];
    }
  }

  /** One round of the loop moves one event from what is left to what has been found. */
  lemma FirstEvent(buf: seq<Byte>, at: nat, recs: seq<seq<Byte>>)
    requires at <= |buf| && Starts(buf[at..])
    ensures var n := EventLen(buf, at);
            && METADATA_LEN <= n <= |buf| - at
            && recs + [buf[at..at + n]] + Events(buf[at + n..]) == recs + Events(buf[at..])
            && |Joined(recs + [buf[at..at + n]])| == |Joined(recs)| + n
  {
    var n, rest := EventLen(buf, at), buf[at..];
    SameLen(buf, at);
    hide Le32;
    assert rest[..n] == buf[at..at + n] && rest[n..] == buf[at + n..];
    assert Events(rest) == [buf[at..at + n]] + Events(buf[at + n..]);
    JoinedSnoc(recs, buf[at..at + n]);
  }

  /**
   The loop over the two macros.  The offset and the remaining length always add up to
   the buffer, so every header read lies inside it, at most one event is found per 40
   bytes, and the result is the same for both widths of `long`.
   */
  method Walk(abi: Abi, buf: seq<Byte>) returns (recs: seq<seq<Byte>>, len: int)
    requires |buf| <= LongMax(abi)
    ensures recs == Events(buf)
    ensures len == |buf| - |Joined(recs)|
    ensures METADATA_LEN * |recs| + len <= |buf|
  {
    hide EventOk, Events;
    recs, len := [], |buf|;
    var at := 0;
    assert [] + Events(buf[0..]) == Events(buf) by { assert buf[0..] == buf; }
    while EventOk(abi, buf, at, len)
      invariant 0 <= at && 0 <= len && at + len == |buf|
      invariant recs + Events(buf[at..]) == Events(buf)
      invariant METADATA_LEN * |recs| <= at && |Joined(recs)| == at
      decreases len
    {
      CastsAreHarmless(abi, buf, at, len);
      var n := EventLen(buf, at);
      FirstEvent(buf, at, recs);
      recs := recs + [buf[at..at + n]];
      len := len - n;
      at := at + n;
    }
    CastsAreHarmless(abi, buf, at, len);
    NoEvent(buf[at..]);
    assert recs + [] == recs;
  }
}
