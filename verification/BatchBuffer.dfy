/**
 The lock-free batching buffer of the file-system tracer (bblog.c).  One 64-bit word
 packs the process id, the next free index, the buffer's address and a
 reference count.  A writer reserves room by adding to it, copies, and gives its
 reference back; if the record does not fit, it takes the whole addition
 back and replaces the buffer.  The run of one buffer, with any number of threads.
 */
module BatchBuffer {
  import opened Sums

  // ----- The packed word

  const TWO32: nat := 0x1_0000_0000
  const TWO48: nat := 0x1_0000_0000_0000
  const TWO64: nat := 0x1_0000_0000_0000_0000

  function Pack(pid: nat, idx: nat, ptr: nat, ref: nat): nat {
    pid * TWO48 + idx * TWO32 + ptr + ref
  }

  function Pid(w: nat): nat { w / TWO48 }

  function Idx(w: nat): nat { w / TWO32 % 0x1_0000 }

  function Ref(w: nat): nat { w % 0x1000 }

  function FetchAdd(w: nat, x: nat): nat { (w + x) % TWO64 }

  function FetchSub(w: nat, x: nat): nat { (w - x) % TWO64 }

  lemma Digit32(hi: nat, lo: nat)
    requires lo < TWO32
    ensures (hi * TWO32 + lo) / TWO32 == hi
  {
  }

  lemma Digit48(hi: nat, lo: nat)
    requires lo < TWO48
    ensures (hi * TWO48 + lo) / TWO48 == hi
  {
  }

  lemma Digit16(hi: nat, lo: nat)
    requires lo < 0x1_0000
    ensures (hi * 0x1_0000 + lo) % 0x1_0000 == lo
  {
  }

  lemma Digit12(hi: nat, lo: nat)
    requires lo < 0x1000
    ensures (hi * 0x1000 + lo) % 0x1000 == lo
  {
  }

  /** The fields come apart again as long as each stays within its width. */
  lemma Unpacked(pid: nat, idx: nat, ptr: nat, ref: nat)
    requires pid < 0x1_0000 && idx < 0x1_0000 && ptr < TWO32 && ptr % 0x1000 == 0 && ref < 0x1000
    ensures var w := Pack(pid, idx, ptr, ref); Pid(w) == pid && Idx(w) == idx && Ref(w) == ref && w < TWO64
  {
    var page := ptr / 0x1000;
    assert ptr == page * 0x1000 && ptr + ref < TWO32;
    Digit48(pid, idx * TWO32 + ptr + ref);
    Digit32(pid * 0x1_0000 + idx, ptr + ref);
    Digit16(pid, idx);
    Digit12(pid * (TWO48 / 0x1000) + idx * (TWO32 / 0x1000) + page, ref);
  }

  /** Process, index, address and count, from the highest bits to the lowest. */
  lemma PackedBits()
    ensures Pack(0x7FFF, 0xABCD, 0x1234_5000, 0x678) == 0x7FFF_ABCD_1234_5678
  {
  }

  /** An index that outgrows its field carries into the process id. */
  lemma Carries(pid: nat, idx: nat, ptr: nat, ref: nat)
    ensures Pack(pid, idx, ptr, ref) == Pack(pid + idx / 0x1_0000, idx % 0x1_0000, ptr, ref)
  {
  }

  /** What a writer of `size` bytes adds: its size to the index, and one reference. */
  function Increment(size: nat): nat {
    size * TWO32 + 1
  }

  // ----- The machine

  const LOGGER_ENTRY_MAX_PAYLOAD: nat := 4076

  /** The bytes of a buffer; the word takes the other eight. */
  const PIBR_BUF_SIZE: nat := LOGGER_ENTRY_MAX_PAYLOAD - 8

  /** Records end below this index. */
  const LIMIT: nat := LOGGER_ENTRY_MAX_PAYLOAD - 32

  const PATH_MAX: nat := 4096

  /** The bytes of the text from which a record is taken. */
  const BUFFER_SIZE: nat := PATH_MAX + PATH_MAX

  /** The longest record: the whole text, less the room for its ending. */
  const MAX_SIZE: nat := BUFFER_SIZE - 2

  /** What `bblog` makes of a counter and a message of these lengths: the size of the record, or -1. */
  function RecordSize(counter: nat, message: nat): int {
    var size := counter + message;
    if size >= BUFFER_SIZE - 2 then -1 else size + 1
  }

  /** The sizes of records are exactly those up to 8190. */
  lemma RecordSizes(size: nat)
    ensures (exists counter: nat, message: nat :: RecordSize(counter, message) == size) <==> 0 < size <= 8190
    ensures forall counter: nat, message: nat :: RecordSize(counter, message) == -1 <==> counter + message >= 8190
  {
    if 0 < size <= MAX_SIZE {
      assert RecordSize(0, size - 1) == size;
    }
  }

  const MAX_PREFIX_LEN: nat := 512

  datatype Writer =
    | Outside                            // not using this buffer
    | Aimed(size: nat)                   // has read the buffer pointer, about to add
    | Writing(lo: nat, size: nat)        // accepted, copying its record
    | Refused(size: nat)                 // did not fit, about to take its addition back
    | Leaving                            // about to replace the buffer
    | Astray                             // has added to the word of a buffer that had been flushed and freed

  /** The bytes that an accepted record may use. */
  datatype Range = Range(lo: nat, size: nat)

  /** The one thread that has replaced the buffer and is to flush it. */
  datatype Flusher =
    | Away
    | Checked                            // has found the buffer to be this process's
    | Spinning(idx: nat)                 // has read the index and waits for it to be there without a reference
    | Done

  datatype Buffer = Buffer(word: nat, writers: seq<Writer>, current: bool, ranges: seq<Range>, flusher: Flusher)

  datatype Step =
    | Aim(tid: nat, size: nat)
    | Add(tid: nat)
    | Finish(tid: nat)
    | Withdraw(tid: nat)
    | Leave(tid: nat)
    | SwapOut
    | Check
    | Look
    | Flush

  /** The process `me`, and what `init_buffer` put into the word: the buffer's process, first free index and address. */
  datatype Setting = Setting(me: nat, pid: nat, base: nat, ptr: nat)

  predicate Proper(c: Setting) {
    c.me < 0x8000 && c.pid < 0x8000 && c.base < MAX_PREFIX_LEN && c.ptr < TWO32 && c.ptr % 0x1000 == 0
  }

  /** Prefixes of up to 511 bytes and process ids of up to 32767 are let through, with any page-aligned 32-bit address. */
  lemma ProperIff(c: Setting)
    ensures Proper(c) <==>
            c.me <= 32767 && c.pid <= 32767 && c.base <= 511 && c.ptr <= 0xFFFF_F000 && c.ptr % 4096 == 0
  {
  }

  predicate Fresh(c: Setting, s: Buffer) {
    && Proper(c) && s.word == Pack(c.pid, c.base, c.ptr, 0) && s.current && s.ranges == [] && s.flusher == Away
    && forall t | 0 <= t < |s.writers| :: s.writers[t].Outside?
  }

  predicate Enabled(c: Setting, s: Buffer, x: Step) {
    match x
    case Aim(t, size) => t < |s.writers| && s.writers[t].Outside? && s.current && 0 < size <= MAX_SIZE
    case Add(t) => t < |s.writers| && s.writers[t].Aimed?
    case Finish(t) => t < |s.writers| && s.writers[t].Writing?
    case Withdraw(t) => t < |s.writers| && s.writers[t].Refused?
    case Leave(t) => t < |s.writers| && s.writers[t].Leaving?
    case SwapOut => true
    case Check => s.flusher.Away? && !s.current && Pid(s.word) == c.me
    case Look => s.flusher.Checked? && (c.pid == c.me ==> Idx(s.word) != c.base)
    case Flush => s.flusher.Spinning? && s.word == Pack(c.me, s.flusher.idx, c.ptr, 0)
  }

  /** A thread can set out to write a record of exactly the sizes that `bblog` passes on. */
  lemma AimIff(c: Setting, s: Buffer, t: nat, size: nat)
    requires t < |s.writers| && s.writers[t].Outside? && s.current
    ensures Enabled(c, s, Aim(t, size)) <==> exists counter: nat, message: nat :: RecordSize(counter, message) == size
  {
    RecordSizes(size);
  }

  /** The test between the addition and the copy. */
  predicate Accepts(c: Setting, s: Buffer, x: Step)
    requires Enabled(c, s, x)
  {
    x.Add? && !s.flusher.Done? && Pid(s.word) == c.me && Idx(s.word) + s.writers[x.tid].size < LIMIT
  }

  function Next(c: Setting, s: Buffer, x: Step): Buffer
    requires Enabled(c, s, x)
  {
    match x
    case Aim(t, size) => s.(writers := s.writers[t := Aimed(size)])
    case Add(t) =>
      var size, lo := s.writers[t].size, Idx(s.word);
      if s.flusher.Done? then
        s.(writers := s.writers[t := Astray])
      else if Accepts(c, s, x) then
        s.(word := FetchAdd(s.word, Increment(size)), writers := s.writers[t := Writing(lo, size)],
           ranges := s.ranges + [Range(lo, size)])
      else
        s.(word := FetchAdd(s.word, Increment(size)), writers := s.writers[t := Refused(size)])
    case Finish(t) => s.(word := FetchSub(s.word, 1), writers := s.writers[t := Outside])
    case Withdraw(t) => s.(word := FetchSub(s.word, Increment(s.writers[t].size)), writers := s.writers[t := Leaving])
    case Leave(t) => s.(writers := s.writers[t := Outside], current := false)
    case SwapOut => s.(current := false)
    case Check => s.(flusher := Checked)
    case Look => s.(flusher := Spinning(Idx(s.word)))
    case Flush => s.(word := 0, flusher := Done)
  }

  datatype Run = Begin | Then(before: Run, step: Step)

  ghost predicate Legal(c: Setting, s0: Buffer, r: Run)
    decreases r, 0
  {
    r.Then? ==> Legal(c, s0, r.before) && Enabled(c, End(c, s0, r.before), r.step)
  }

  ghost function End(c: Setting, s0: Buffer, r: Run): Buffer
    requires Legal(c, s0, r)
    decreases r, 1
  {
    match r
    case Begin => s0
    case Then(before, x) => Next(c, End(c, s0, before), x)
  }

  // ----- What the word means

  function Reserved(ranges: seq<Range>): nat {
    if ranges == [] then 0 else Reserved(ranges[..|ranges| - 1]) + ranges[|ranges| - 1].size
  }

  function RefusedSize(w: Writer): nat {
    if w.Refused? then w.size else 0
  }

  function IsInside(w: Writer): nat {
    if w.Refused? || w.Writing? then 1 else 0
  }

  function RefusedSizes(ws: seq<Writer>): (r: seq<nat>)
    ensures |r| == |ws| && forall t | 0 <= t < |ws| :: r[t] == RefusedSize(ws[t])
  {
    seq(|ws|, t requires 0 <= t < |ws| => RefusedSize(ws[t]))
  }

  function Insides(ws: seq<Writer>): (r: seq<nat>)
    ensures |r| == |ws| && forall t | 0 <= t < |ws| :: r[t] == IsInside(ws[t])
  {
    seq(|ws|, t requires 0 <= t < |ws| => IsInside(ws[t]))
  }

  /** The bytes of refused additions that have not been taken back yet. */
  function Outstanding(s: Buffer): nat {
    Sum(RefusedSizes(s.writers))
  }

  /** The threads between their addition and its undoing. */
  function Inside(s: Buffer): nat {
    Sum(Insides(s.writers))
  }

  /** What the additions so far, not yet taken back, have made of the index. */
  function Total(c: Setting, s: Buffer): nat {
    c.base + Reserved(s.ranges) + Outstanding(s)
  }

  /** The word holds the total, which may have outgrown its field, and counts all threads inside. */
  predicate Counted(c: Setting, s: Buffer) {
    Proper(c) && (!s.flusher.Done? ==> s.word == Pack(c.pid, Total(c, s), c.ptr, Inside(s)))
  }

  /** Fewer threads than the count can hold. */
  const MAX_THREADS: nat := 0xfff

  /** Nobody is waiting or refused with a record longer than the longest. */
  predicate Sized(s: Buffer) {
    forall t | 0 <= t < |s.writers| ::
      var w := s.writers[t]; w.Aimed? || w.Refused? ==> 0 < w.size <= MAX_SIZE
  }

  /** Accepted records end inside the buffer. */
  predicate Short(ranges: seq<Range>) {
    forall k | 0 <= k < |ranges| :: ranges[k].lo + ranges[k].size < LIMIT
  }

  /** Records are accepted only where the carry into the process id makes it this process's. */
  predicate Bounded(c: Setting, s: Buffer) {
    && |s.writers| <= MAX_THREADS && Sized(s) && Short(s.ranges)
    && (s.ranges == [] || (0 <= c.me - c.pid <= 512 && c.base + Reserved(s.ranges) < (c.me - c.pid) * 0x1_0000 + LIMIT))
  }

  lemma WriterSums(ws: seq<Writer>, t: nat, w: Writer)
    requires t < |ws|
    ensures Sum(RefusedSizes(ws[t := w])) + RefusedSize(ws[t]) == Sum(RefusedSizes(ws)) + RefusedSize(w)
    ensures Sum(Insides(ws[t := w])) + IsInside(ws[t]) == Sum(Insides(ws)) + IsInside(w)
  {
    hide Sum;
    assert RefusedSizes(ws[t := w]) == RefusedSizes(ws)[t := RefusedSize(w)];
    assert Insides(ws[t := w]) == Insides(ws)[t := IsInside(w)];
    SumUpdate(RefusedSizes(ws), t, RefusedSize(w));
    SumUpdate(Insides(ws), t, IsInside(w));
  }

  lemma ReservedMore(ranges: seq<Range>, x: Range)
    ensures Reserved(ranges + [x]) == Reserved(ranges) + x.size
  {
    assert (ranges + [x])[..|ranges|] == ranges;
  }

  lemma NobodyCounts(ws: seq<Writer>)
    requires forall t | 0 <= t < |ws| :: ws[t].Outside?
    ensures Sum(RefusedSizes(ws)) == 0 && Sum(Insides(ws)) == 0
  {
    SumOfZeros(RefusedSizes(ws));
    SumOfZeros(Insides(ws));
  }

  lemma InsideAtMost(ws: seq<Writer>)
    ensures Sum(Insides(ws)) <= |ws|
  {
    hide Sum;
    var zeros := seq(|ws|, _ => 0);
    SumOfZeros(zeros);
    SumRise(zeros, Insides(ws), 1);
  }

  lemma OutstandingAtMost(s: Buffer)
    requires Sized(s)
    ensures Outstanding(s) <= MAX_SIZE * |s.writers|
  {
    hide Sum;
    var zeros := seq(|s.writers|, _ => 0);
    SumOfZeros(zeros);
    SumRise(zeros, RefusedSizes(s.writers), MAX_SIZE);
  }

  /** The total never carries beyond the word, and not far without a record having been accepted. */
  lemma TotalBounded(c: Setting, s: Buffer)
    requires Proper(c) && Bounded(c, s)
    ensures Total(c, s) < 1025 * 0x1_0000 && (s.ranges == [] ==> Total(c, s) < 512 * 0x1_0000)
    ensures Inside(s) <= MAX_THREADS
  {
    hide Sum, Sized, Short;
    OutstandingAtMost(s);
    InsideAtMost(s.writers);
    assert MAX_SIZE * |s.writers| <= MAX_SIZE * MAX_THREADS;
  }

  /** What a thread reads from the word. */
  lemma WordRead(c: Setting, s: Buffer)
    requires Counted(c, s) && Bounded(c, s) && !s.flusher.Done?
    ensures Pid(s.word) == c.pid + Total(c, s) / 0x1_0000 && Ref(s.word) == Inside(s)
    ensures Idx(s.word) == Total(c, s) % 0x1_0000
  {
    hide Sum, Pack, Pid, Idx, Ref, Total, Inside, Bounded;
    var total := Total(c, s);
    TotalBounded(c, s);
    Carries(c.pid, total, c.ptr, Inside(s));
    Unpacked(c.pid + total / 0x1_0000, total % 0x1_0000, c.ptr, Inside(s));
  }

  lemma AddsUp(pid: nat, idx: nat, ptr: nat, ref: nat, size: nat)
    requires pid < 0x8000 && idx < 1025 * 0x1_0000 && ptr < TWO32 && ref < 0x1000 && size <= MAX_SIZE
    ensures FetchAdd(Pack(pid, idx, ptr, ref), Increment(size)) == Pack(pid, idx + size, ptr, ref + 1)
  {
    assert Pack(pid, idx, ptr, ref) + Increment(size) == Pack(pid, idx + size, ptr, ref + 1) < TWO64;
  }

  lemma TakesBack(pid: nat, idx: nat, ptr: nat, ref: nat, size: nat)
    requires pid < 0x8000 && idx < 1025 * 0x1_0000 && ptr < TWO32 && 0 < ref < 0x1000 && size <= idx
    ensures FetchSub(Pack(pid, idx, ptr, ref), Increment(size)) == Pack(pid, idx - size, ptr, ref - 1)
    ensures FetchSub(Pack(pid, idx, ptr, ref), 1) == Pack(pid, idx, ptr, ref - 1)
  {
    assert Pack(pid, idx, ptr, ref) - Increment(size) == Pack(pid, idx - size, ptr, ref - 1) < TWO64;
    assert Pack(pid, idx, ptr, ref) - 1 == Pack(pid, idx, ptr, ref - 1) < TWO64;
  }

  // ----- Every step keeps the count

  lemma AddCounts(c: Setting, s: Buffer, x: Step)
    requires Counted(c, s) && Bounded(c, s) && Enabled(c, s, x) && x.Add?
    ensures Counted(c, Next(c, s, x))
  {
    hide Sum, Pack, FetchAdd, Increment, Reserved, Pid, Idx;
    TotalBounded(c, s);
    var size := s.writers[x.tid].size;
    AddsUp(c.pid, Total(c, s), c.ptr, Inside(s), size);
    WriterSums(s.writers, x.tid, Next(c, s, x).writers[x.tid]);
    ReservedMore(s.ranges, Range(Idx(s.word), size));
  }

  lemma UndoCounts(c: Setting, s: Buffer, x: Step)
    requires Counted(c, s) && Bounded(c, s) && Enabled(c, s, x) && (x.Finish? || x.Withdraw?)
    ensures Counted(c, Next(c, s, x))
  {
    hide Sum, Pack, FetchSub, Increment, Reserved;
    TotalBounded(c, s);
    SumHasPart(Insides(s.writers), x.tid);
    SumHasPart(RefusedSizes(s.writers), x.tid);
    WriterSums(s.writers, x.tid, Next(c, s, x).writers[x.tid]);
    TakesBack(c.pid, Total(c, s), c.ptr, Inside(s), RefusedSize(s.writers[x.tid]));
  }

  /** Whoever is accepted finds the total in this process's range, and its record ends inside the buffer. */
  lemma AcceptedInRange(c: Setting, s: Buffer, x: Step)
    requires Counted(c, s) && Bounded(c, s) && Enabled(c, s, x) && Accepts(c, s, x)
    ensures Total(c, s) == (c.me - c.pid) * 0x1_0000 + Idx(s.word) && 0 <= c.me - c.pid <= 512
    ensures Idx(s.word) + s.writers[x.tid].size < LIMIT
  {
    hide Sum, Pack, Pid, Idx, Ref, Total, Reserved;
    WordRead(c, s);
    TotalBounded(c, s);
  }

  lemma StepBounds(c: Setting, s: Buffer, x: Step)
    requires Counted(c, s) && Bounded(c, s) && Enabled(c, s, x)
    ensures Bounded(c, Next(c, s, x))
  {
    hide Sum, Pack, Pid, Idx, Ref, FetchAdd, FetchSub, Increment, Reserved, Counted;
    if Accepts(c, s, x) {
      AcceptedInRange(c, s, x);
      ReservedMore(s.ranges, Range(Idx(s.word), s.writers[x.tid].size));
    }
  }

  lemma StepCounts(c: Setting, s: Buffer, x: Step)
    requires Counted(c, s) && Bounded(c, s) && Enabled(c, s, x)
    ensures Counted(c, Next(c, s, x)) && Bounded(c, Next(c, s, x))
  {
    StepBounds(c, s, x);
    hide Sum, Pack, Reserved, Bounded, Pid, Idx, FetchAdd, FetchSub, Increment;
    match x
    case Add(_) => AddCounts(c, s, x);
    case Finish(_) => UndoCounts(c, s, x);
    case Withdraw(_) => UndoCounts(c, s, x);
    case Aim(t, size) => WriterSums(s.writers, t, Aimed(size));
    case Leave(t) => WriterSums(s.writers, t, Outside);
    case _ =>
  }

  lemma FreshCounts(c: Setting, s: Buffer)
    requires Fresh(c, s)
    ensures Counted(c, s) && Sized(s) && Outstanding(s) == 0 && Inside(s) == 0
  {
    NobodyCounts(s.writers);
  }

  /** In every run of fewer threads than the count can hold, the word says what it should. */
  lemma {:induction false} RunCounts(c: Setting, s0: Buffer, r: Run)
    requires Fresh(c, s0) && Legal(c, s0, r) && |s0.writers| <= MAX_THREADS
    ensures Counted(c, End(c, s0, r)) && Bounded(c, End(c, s0, r))
  {
    match r
    case Begin => FreshCounts(c, s0);
    case Then(before, x) =>
      RunCounts(c, s0, before);
      StepCounts(c, End(c, s0, before), x);
  }

  // ----- Nothing is written outside the buffer

  /** In this process's own buffer a record is accepted exactly if its last byte is at most the 4043rd. */
  lemma AcceptedIff(c: Setting, s: Buffer, x: Step)
    requires Counted(c, s) && Bounded(c, s) && Enabled(c, s, x) && x.Add? && !s.flusher.Done? && c.pid == c.me
    ensures Accepts(c, s, x) <==> Total(c, s) + s.writers[x.tid].size <= 4043
  {
    hide Sum, Pack, Pid, Idx, Ref, Total, Reserved;
    WordRead(c, s);
    TotalBounded(c, s);
  }

  /** In every run of at most 4095 threads, every accepted record lies inside the 4068 bytes of the buffer. */
  lemma RecordsInside(c: Setting, s0: Buffer, r: Run)
    requires Fresh(c, s0) && Legal(c, s0, r) && |s0.writers| <= MAX_THREADS
    ensures PIBR_BUF_SIZE == 4068
    ensures forall k | 0 <= k < |End(c, s0, r).ranges| ::
              End(c, s0, r).ranges[k].lo + End(c, s0, r).ranges[k].size <= PIBR_BUF_SIZE
  {
    RunCounts(c, s0, r);
  }

  // ----- When the accepted records tile the buffer

  /** Each record begins where the one accepted before it ends. */
  predicate Tiled(base: nat, ranges: seq<Range>) {
    forall k | 0 <= k < |ranges| :: ranges[k].lo == base + Reserved(ranges[..k])
  }

  predicate Apart(a: Range, b: Range) {
    a.lo + a.size <= b.lo || b.lo + b.size <= a.lo
  }

  predicate Disjoint(ranges: seq<Range>) {
    forall i, j | 0 <= i < j < |ranges| :: Apart(ranges[i], ranges[j])
  }

  lemma {:induction false} ReservedGrows(ranges: seq<Range>, i: nat, j: nat)
    requires i <= j <= |ranges|
    ensures Reserved(ranges[..i]) <= Reserved(ranges[..j])
  {
    if i < j {
      ReservedGrows(ranges, i, j - 1);
      assert ranges[..j][..j - 1] == ranges[..j - 1];
    }
  }

  lemma TiledIsDisjoint(base: nat, ranges: seq<Range>)
    requires Tiled(base, ranges)
    ensures Disjoint(ranges)
  {
    forall i, j | 0 <= i < j < |ranges| ensures Apart(ranges[i], ranges[j]) {
      ReservedGrows(ranges, i + 1, j);
      assert ranges[..i + 1][..i] == ranges[..i];
    }
  }

  lemma TiledMore(base: nat, ranges: seq<Range>, x: Range)
    ensures Tiled(base, ranges + [x]) <==> Tiled(base, ranges) && x.lo == base + Reserved(ranges)
  {
    hide Reserved;
    var more := ranges + [x];
    assert forall k | 0 <= k <= |ranges| :: more[..k] == ranges[..k];
    assert ranges[..|ranges|] == ranges;
    assert more[|ranges|] == x && forall k | 0 <= k < |ranges| :: more[k] == ranges[k];
  }

  lemma TiledEnd(base: nat, ranges: seq<Range>)
    requires Tiled(base, ranges) && Short(ranges) && base < LIMIT
    ensures base + Reserved(ranges) < LIMIT
  {
    if ranges != [] {
      assert ranges[|ranges| - 1].lo == base + Reserved(ranges[..|ranges| - 1]);
    }
  }

  /**
   Records were accepted only while the refused additions still to be taken back left the
   index field as it was: while there were none, if the buffer is this process's own.
   */
  ghost predicate Clean(c: Setting, s0: Buffer, r: Run)
    requires Legal(c, s0, r)
  {
    r.Then? ==>
      && Clean(c, s0, r.before)
      && (Accepts(c, End(c, s0, r.before), r.step) ==> Outstanding(End(c, s0, r.before)) % 0x1_0000 == 0)
  }

  /** In this process's own buffer that means that nothing refused was outstanding at all. */
  lemma OwnBuffer(c: Setting, s: Buffer, x: Step)
    requires Counted(c, s) && Bounded(c, s) && Enabled(c, s, x) && Accepts(c, s, x) && c.pid == c.me
    ensures Outstanding(s) % 0x1_0000 == 0 <==> Outstanding(s) == 0
    ensures Total(c, s) + s.writers[x.tid].size < LIMIT
  {
    hide Sum, Pack, Pid, Idx, Reserved, Outstanding;
    AcceptedInRange(c, s, x);
  }

  lemma NothingTiled(base: nat)
    ensures Tiled(base, [])
  {
  }

  /** If the records so far lie end to end, so does the next one exactly if the index field is undisturbed. */
  lemma NextTiledIff(c: Setting, s: Buffer, x: Step)
    requires Counted(c, s) && Bounded(c, s) && Enabled(c, s, x) && Accepts(c, s, x) && Tiled(c.base, s.ranges)
    ensures Idx(s.word) == c.base + Reserved(s.ranges) <==> Outstanding(s) % 0x1_0000 == 0
  {
    hide Sum, Pack, Pid, Idx, Reserved, Outstanding, Tiled;
    TiledEnd(c.base, s.ranges);
    WordRead(c, s);
  }

  /** The accepted records lie end to end exactly in the clean runs. */
  lemma {:induction false} TiledIffClean(c: Setting, s0: Buffer, r: Run)
    requires Fresh(c, s0) && Legal(c, s0, r) && |s0.writers| <= MAX_THREADS
    ensures Tiled(c.base, End(c, s0, r).ranges) <==> Clean(c, s0, r)
  {
    hide Tiled, Sum, Pack, Reserved, Outstanding, Pid, Idx;
    match r
    case Begin => NothingTiled(c.base);
    case Then(before, x) =>
      TiledIffClean(c, s0, before);
      RunCounts(c, s0, before);
      var s := End(c, s0, before);
      if Accepts(c, s, x) {
        TiledMore(c.base, s.ranges, Range(Idx(s.word), s.writers[x.tid].size));
        if Tiled(c.base, s.ranges) {
          NextTiledIff(c, s, x);
        }
      }
  }

  // ----- The flush

  lemma SameLow(k: int, x: int)
    ensures (k * TWO32 + x) % TWO32 == x % TWO32
  {
    var q := x / TWO32;
    assert k * TWO32 + x == (k + q) * TWO32 + x % TWO32;
  }

  lemma LowAdd(w: nat, x: int, size: nat)
    requires w % TWO32 == x % TWO32
    ensures FetchAdd(w, Increment(size)) % TWO32 == (x + 1) % TWO32
  {
    var v: int := w + Increment(size);
    var k: int := size - TWO32 * (v / TWO64) + w / TWO32 - x / TWO32;
    assert v == TWO64 * (v / TWO64) + v % TWO64;
    assert v % TWO64 == k * TWO32 + (x + 1);
    SameLow(k, x + 1);
  }

  lemma LowSub(w: nat, x: int, size: nat)
    requires w % TWO32 == x % TWO32
    ensures FetchSub(w, Increment(size)) % TWO32 == (x - 1) % TWO32
  {
    var v: int := w - Increment(size);
    var k: int := 0 - size - TWO32 * (v / TWO64) + w / TWO32 - x / TWO32;
    assert v == TWO64 * (v / TWO64) + v % TWO64;
    assert v % TWO64 == k * TWO32 + (x - 1);
    SameLow(k, x - 1);
  }

  lemma FinishIsEmptyWithdrawal(w: nat)
    ensures FetchSub(w, 1) == FetchSub(w, Increment(0))
  {
  }

  /** Whatever happens to the index, the low half of the word is the address plus the threads inside. */
  predicate LowCounted(c: Setting, s: Buffer) {
    !s.flusher.Done? ==> s.word % TWO32 == (c.ptr + Inside(s)) % TWO32
  }

  lemma StepLowCounts(c: Setting, s: Buffer, x: Step)
    requires LowCounted(c, s) && Enabled(c, s, x)
    ensures LowCounted(c, Next(c, s, x))
  {
    hide Sum, FetchAdd, FetchSub, Increment, Pid, Idx, Pack;
    var s', low := Next(c, s, x), c.ptr + Inside(s);
    if s.flusher.Done? {
      return;
    }
    match x
    case Add(t) =>
      WriterSums(s.writers, t, s'.writers[t]);
      LowAdd(s.word, low, s.writers[t].size);
    case Finish(t) =>
      WriterSums(s.writers, t, s'.writers[t]);
      FinishIsEmptyWithdrawal(s.word);
      LowSub(s.word, low, 0);
    case Withdraw(t) =>
      WriterSums(s.writers, t, s'.writers[t]);
      LowSub(s.word, low, s.writers[t].size);
    case Aim(t, _) => WriterSums(s.writers, t, s'.writers[t]);
    case Leave(t) => WriterSums(s.writers, t, s'.writers[t]);
    case _ =>
  }

  lemma {:induction false} RunLowCounts(c: Setting, s0: Buffer, r: Run)
    requires Fresh(c, s0) && Legal(c, s0, r)
    ensures LowCounted(c, End(c, s0, r)) && |End(c, s0, r).writers| == |s0.writers|
  {
    match r
    case Begin =>
      NobodyCounts(s0.writers);
      SameLow(c.pid * 0x1_0000 + c.base, c.ptr);
    case Then(before, x) =>
      RunLowCounts(c, s0, before);
      StepLowCounts(c, End(c, s0, before), x);
  }

  /** The comparison of the flush succeeds only if the count in the word is zero. */
  lemma FlushSeesNobody(c: Setting, s: Buffer)
    requires Proper(c) && LowCounted(c, s) && Enabled(c, s, Flush) && !s.flusher.Done? && |s.writers| < TWO32
    ensures Inside(s) == 0
  {
    hide Sum, Pid, Idx;
    InsideAtMost(s.writers);
    SameLow(c.me * 0x1_0000 + s.flusher.idx, c.ptr);
  }

  predicate NobodyInside(s: Buffer) {
    forall t | 0 <= t < |s.writers| :: !s.writers[t].Writing? && !s.writers[t].Refused?
  }

  lemma NobodyInsideIff(s: Buffer)
    ensures NobodyInside(s) <==> Inside(s) == 0
    ensures Inside(s) == 0 ==> Outstanding(s) == 0
  {
    hide Sum;
    if Inside(s) == 0 {
      forall t | 0 <= t < |s.writers| ensures IsInside(s.writers[t]) == 0 {
        SumHasPart(Insides(s.writers), t);
      }
      SumOfZeros(RefusedSizes(s.writers));
    } else if NobodyInside(s) {
      SumOfZeros(Insides(s.writers));
    }
  }

  lemma SameIndex(c: Setting, i: nat, j: nat)
    requires Pack(c.me, i, c.ptr, 0) == Pack(c.me, j, c.ptr, 0)
    ensures i == j
  {
  }

  /**
   In every run of fewer than 2^32 threads the flush waits until no thread is between its
   addition and its undoing.  In this process's own buffer the index it has read is then
   the end of the accepted bytes, and in a clean run the records lie end to end up to it.
   */
  lemma FlushFindsNoWriter(c: Setting, s0: Buffer, r: Run)
    requires Fresh(c, s0) && Legal(c, s0, r) && r.Then? && r.step.Flush? && |s0.writers| < TWO32
    ensures var s := End(c, s0, r.before);
            && NobodyInside(s)
            && (|s0.writers| <= MAX_THREADS && c.pid == c.me ==> s.flusher.idx == c.base + Reserved(s.ranges))
            && (|s0.writers| <= MAX_THREADS && Clean(c, s0, r) ==> Tiled(c.base, s.ranges) && Disjoint(s.ranges))
  {
    hide Sum, Pack, Pid, Idx, Tiled, Disjoint, NobodyInside, Outstanding, Inside, Reserved;
    var s := End(c, s0, r.before);
    RunLowCounts(c, s0, r.before);
    FlushSeesNobody(c, s);
    NobodyInsideIff(s);
    if |s0.writers| <= MAX_THREADS {
      RunCounts(c, s0, r.before);
      if c.pid == c.me {
        SameIndex(c, s.flusher.idx, Total(c, s));
      }
      if Clean(c, s0, r) {
        TiledIffClean(c, s0, r.before);
        TiledIsDisjoint(c.base, s.ranges);
      }
    }
  }

  /** Unless there is something to flush, the flush returns before it begins to wait. */
  lemma {:induction false} SomethingToFlush(c: Setting, s0: Buffer, r: Run)
    requires Fresh(c, s0) && Legal(c, s0, r) && c.pid == c.me
    ensures End(c, s0, r).flusher.Spinning? ==> End(c, s0, r).flusher.idx != c.base
  {
    hide Pack, Pid, Idx, FetchAdd, FetchSub, Increment;
    if r.Then? { SomethingToFlush(c, s0, r.before); }
  }

  /** The ending that the flush writes, two braces and a zero from the byte before the index on, lies inside the buffer. */
  lemma EndingInside(c: Setting, s0: Buffer, r: Run)
    requires Fresh(c, s0) && Legal(c, s0, r) && r.Then? && r.step.Flush? && |s0.writers| <= MAX_THREADS && c.pid == c.me
    ensures var idx := End(c, s0, r.before).flusher.idx;
            c.base <= idx - 1 && idx - 1 + 3 <= PIBR_BUF_SIZE == 4068
  {
    hide Sum, Pack, Pid, Idx, Tiled, Disjoint, NobodyInside, Clean;
    FlushFindsNoWriter(c, s0, r);
    SomethingToFlush(c, s0, r.before);
    RunCounts(c, s0, r.before);
  }

  lemma ForeignRead(c: Setting, s: Buffer)
    requires Counted(c, s) && Bounded(c, s) && s.ranges == [] && |s.writers| <= 7 && !s.flusher.Done?
    ensures Pid(s.word) == c.pid
  {
    hide Sum, Pack, Pid, Idx;
    WordRead(c, s);
    OutstandingAtMost(s);
  }

  /** With at most seven threads a buffer of another process takes no record and is never flushed. */
  lemma {:induction false} ForeignUntouched(c: Setting, s0: Buffer, r: Run)
    requires Fresh(c, s0) && Legal(c, s0, r) && |s0.writers| <= 7 && c.pid != c.me
    ensures End(c, s0, r).ranges == [] && End(c, s0, r).flusher == Away
    ensures |End(c, s0, r).writers| == |s0.writers|
  {
    hide Sum, Pack, Pid, Idx, FetchAdd, FetchSub, Increment, Counted, Bounded;
    if r.Then? {
      ForeignUntouched(c, s0, r.before);
      var s := End(c, s0, r.before);
      RunCounts(c, s0, r.before);
      ForeignRead(c, s);
    }
  }
}
