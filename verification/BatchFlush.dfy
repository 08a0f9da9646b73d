/**
 What the flush of a batching buffer can run into: threads that still hold the address of the
 buffer when it is freed, and an index that never comes back.
 */
module BatchFlush {
  import opened Sums
  import opened BatchBuffer
  import opened BatchLimit

  /** The run `later` begins with the run `r`. */
  ghost predicate GoesOn(r: Run, later: Run) {
    later == r || (later.Then? && GoesOn(r, later.before))
  }

  // ----- After the flush

  /** A flusher has replaced the buffer, and one that is done left nobody inside. */
  predicate Settled(s: Buffer) {
    (!s.flusher.Away? ==> !s.current) && (s.flusher.Done? ==> NobodyInside(s))
  }

  lemma {:induction false} RunSettles(c: Setting, s0: Buffer, r: Run)
    requires Fresh(c, s0) && Legal(c, s0, r) && |s0.writers| < TWO32
    ensures Settled(End(c, s0, r)) && |End(c, s0, r).writers| == |s0.writers|
  {
    hide Pack, Pid, Idx, FetchAdd, FetchSub, Increment, Clean, Tiled, Disjoint;
    match r
    case Begin =>
    case Then(before, x) =>
      RunSettles(c, s0, before);
      if x.Flush? {
        FlushFindsNoWriter(c, s0, r);
      }
  }

  /** After the flush nobody begins to use the buffer; who was about to add to it still is, or has. */
  lemma {:induction false} AimedOrAstray(c: Setting, s0: Buffer, r: Run, later: Run, t: nat)
    requires Fresh(c, s0) && Legal(c, s0, r) && Legal(c, s0, later) && GoesOn(r, later) && |s0.writers| < TWO32
    requires End(c, s0, r).flusher.Done? && t < |s0.writers|
    ensures var s, s' := End(c, s0, r), End(c, s0, later);
            && s'.flusher.Done? && |s'.writers| == |s.writers| == |s0.writers|
            && (s'.writers[t].Aimed? || s'.writers[t].Astray? <==> s.writers[t].Aimed? || s.writers[t].Astray?)
  {
    hide Pack, Pid, Idx, FetchAdd, FetchSub, Increment;
    RunSettles(c, s0, r);
    if later != r {
      AimedOrAstray(c, s0, r, later.before, t);
      RunSettles(c, s0, later.before);
    }
  }

  lemma {:induction false} NobodyAstrayBefore(c: Setting, s0: Buffer, r: Run)
    requires Fresh(c, s0) && Legal(c, s0, r)
    ensures !End(c, s0, r).flusher.Done? ==> forall t | 0 <= t < |End(c, s0, r).writers| :: !End(c, s0, r).writers[t].Astray?
  {
    hide Pack, Pid, Idx, FetchAdd, FetchSub, Increment;
    if r.Then? { NobodyAstrayBefore(c, s0, r.before); }
  }

  /** Thread `t` can still add to the buffer after it is freed. */
  ghost predicate CanStray(c: Setting, s0: Buffer, r: Run, t: nat)
    requires Legal(c, s0, r)
  {
    exists later :: Legal(c, s0, later) && GoesOn(r, later)
                    && t < |End(c, s0, later).writers| && End(c, s0, later).writers[t].Astray?
  }

  /** A thread can touch the freed buffer exactly if it held the buffer's address when the flush succeeded. */
  lemma StraysIffAimed(c: Setting, s0: Buffer, r: Run, t: nat)
    requires Fresh(c, s0) && Legal(c, s0, r) && r.Then? && r.step.Flush? && |s0.writers| < TWO32 && t < |s0.writers|
    ensures End(c, s0, r).word == 0
    ensures t < |End(c, s0, r).writers| && (CanStray(c, s0, r, t) <==> End(c, s0, r).writers[t].Aimed?)
  {
    hide Pack, Pid, Idx, FetchAdd, FetchSub, Increment;
    RunSettles(c, s0, r);
    NobodyAstrayBefore(c, s0, r.before);
    var s := End(c, s0, r);
    if s.writers[t].Aimed? {
      var later := Then(r, Add(t));
      assert GoesOn(r, r) && GoesOn(r, later) && Legal(c, s0, later);
      assert End(c, s0, later).writers[t].Astray?;
    }
    if later :| Legal(c, s0, later) && GoesOn(r, later)
                && t < |End(c, s0, later).writers| && End(c, s0, later).writers[t].Astray? {
      AimedOrAstray(c, s0, r, later, t);
    }
  }

  // ----- When the flush can end

  /** The record sizes of those of the threads in `group` that are about to add. */
  function SizesIn(ws: seq<Writer>, group: set<nat>): (r: seq<nat>)
    ensures |r| == |ws| && forall t | 0 <= t < |ws| :: r[t] == if t in group && ws[t].Aimed? then ws[t].size else 0
  {
    seq(|ws|, t requires 0 <= t < |ws| => if t in group && ws[t].Aimed? then ws[t].size else 0)
  }

  predicate AllAimed(ws: seq<Writer>, group: set<nat>) {
    forall t | t in group :: t < |ws| && ws[t].Aimed?
  }

  /** The records of `group` bring the accepted bytes up to index `idx`, inside the buffer. */
  ghost predicate Fills(c: Setting, s: Buffer, idx: nat, group: set<nat>) {
    && AllAimed(s.writers, group) && c.base + Reserved(s.ranges) + Sum(SizesIn(s.writers, group)) == idx
    && (group != {} ==> idx < LIMIT)
  }

  lemma SizesAfter(ws: seq<Writer>, t: nat, w: Writer, group: set<nat>)
    requires t < |ws| && !w.Aimed? && t !in group
    ensures SizesIn(ws[t := w], group) == SizesIn(ws, group)
    ensures ws[t].Aimed? ==> Sum(SizesIn(ws, group + {t})) == Sum(SizesIn(ws, group)) + ws[t].size
  {
    hide Sum;
    if ws[t].Aimed? {
      assert SizesIn(ws, group + {t}) == SizesIn(ws, group)[t := ws[t].size];
      SumUpdate(SizesIn(ws, group), t, ws[t].size);
    }
  }

  lemma NobodyAdds(ws: seq<Writer>)
    ensures Sum(SizesIn(ws, {})) == 0
  {
    SumOfZeros(SizesIn(ws, {}));
  }

  /** What could be filled after a step could be filled before it. */
  lemma FillsBefore(c: Setting, s: Buffer, x: Step, idx: nat, group: set<nat>) returns (before: set<nat>)
    requires Counted(c, s) && Bounded(c, s) && c.pid == c.me && Settled(s)
    requires s.flusher == Spinning(idx) && Enabled(c, s, x) && Next(c, s, x).flusher == Spinning(idx)
    requires Fills(c, Next(c, s, x), idx, group)
    ensures Fills(c, s, idx, before)
  {
    hide Sum, Pack, Pid, Idx, FetchAdd, FetchSub, Increment, Reserved, Counted;
    var s' := Next(c, s, x);
    before := group;
    if s'.writers != s.writers {
      assert AllAimed(s'.writers, group);
      SizesAfter(s.writers, x.tid, s'.writers[x.tid], group);
      if Accepts(c, s, x) {
        OwnBuffer(c, s, x);
        NobodyAdds(s'.writers);
        ReservedMore(s.ranges, Range(Idx(s.word), s.writers[x.tid].size));
        before := group + {x.tid};
      }
    }
  }

  /** Until it is done a spinning flusher waits for the index it has read. */
  lemma {:induction false} SpinsOn(c: Setting, s0: Buffer, r: Run, later: Run)
    requires Legal(c, s0, r) && Legal(c, s0, later) && GoesOn(r, later) && End(c, s0, r).flusher.Spinning?
    ensures End(c, s0, later).flusher.Done? || End(c, s0, later).flusher == End(c, s0, r).flusher
  {
    hide Pack, Pid, Idx, FetchAdd, FetchSub, Increment;
    if later != r { SpinsOn(c, s0, r, later.before); }
  }

  lemma {:induction false} FillsEarlier(c: Setting, s0: Buffer, r: Run, later: Run, group: set<nat>) returns (before: set<nat>)
    requires Fresh(c, s0) && |s0.writers| <= MAX_THREADS && c.pid == c.me
    requires Legal(c, s0, r) && Legal(c, s0, later) && GoesOn(r, later)
    requires End(c, s0, r).flusher.Spinning? && End(c, s0, later).flusher.Spinning?
    requires Fills(c, End(c, s0, later), End(c, s0, r).flusher.idx, group)
    ensures Fills(c, End(c, s0, r), End(c, s0, r).flusher.idx, before)
    decreases later
  {
    hide Fills, Pack, Pid, Idx, FetchAdd, FetchSub, Increment;
    before := group;
    if later != r {
      SpinsOn(c, s0, r, later.before);
      SpinsOn(c, s0, r, later);
      RunCounts(c, s0, later.before);
      RunSettles(c, s0, later.before);
      before := FillsBefore(c, End(c, s0, later.before), later.step, End(c, s0, r).flusher.idx, group);
      before := FillsEarlier(c, s0, r, later.before, before);
    }
  }

  /** From `r` on, the flush can still succeed. */
  ghost predicate CanEnd(c: Setting, s0: Buffer, r: Run)
    requires Legal(c, s0, r)
  {
    exists later :: Legal(c, s0, later) && GoesOn(r, later) && End(c, s0, later).flusher.Done?
  }

  lemma {:induction false} EndedWasFilled(c: Setting, s0: Buffer, r: Run, later: Run) returns (group: set<nat>)
    requires Fresh(c, s0) && |s0.writers| <= MAX_THREADS && c.pid == c.me
    requires Legal(c, s0, r) && Legal(c, s0, later) && GoesOn(r, later)
    requires End(c, s0, r).flusher.Spinning? && End(c, s0, later).flusher.Done?
    ensures Fills(c, End(c, s0, r), End(c, s0, r).flusher.idx, group)
    decreases later
  {
    hide Pack, Pid, Idx, FetchAdd, FetchSub, Increment, Tiled, Disjoint, Clean, NobodyInside, Sum, Reserved;
    SpinsOn(c, s0, r, later.before);
    var s := End(c, s0, later.before);
    if s.flusher.Done? {
      group := EndedWasFilled(c, s0, r, later.before);
    } else {
      FlushFindsNoWriter(c, s0, later);
      NobodyAdds(s.writers);
      group := FillsEarlier(c, s0, r, later.before, {});
    }
  }

  /** Somebody inside can get out, and nothing else changes by it. */
  lemma GetsOut(c: Setting, s: Buffer, group: set<nat>) returns (x: Step)
    requires s.flusher.Spinning? && Inside(s) > 0 && AllAimed(s.writers, group)
    ensures Enabled(c, s, x)
    ensures var s' := Next(c, s, x);
            && s'.flusher == s.flusher && s'.ranges == s.ranges && Inside(s') < Inside(s)
            && AllAimed(s'.writers, group) && SizesIn(s'.writers, group) == SizesIn(s.writers, group)
  {
    hide Sum, Pack, Pid, Idx, FetchAdd, FetchSub, Increment;
    NobodyInsideIff(s);
    var t :| 0 <= t < |s.writers| && (s.writers[t].Writing? || s.writers[t].Refused?);
    x := if s.writers[t].Writing? then Finish(t) else Withdraw(t);
    WriterSums(s.writers, t, Next(c, s, x).writers[t]);
    SizesAfter(s.writers, t, Next(c, s, x).writers[t], group);
  }

  /** With nobody inside, a thread of the group is accepted. */
  lemma GetsIn(c: Setting, s: Buffer, group: set<nat>, t: nat)
    requires Counted(c, s) && Bounded(c, s) && c.pid == c.me && s.flusher.Spinning? && Inside(s) == 0
    requires Fills(c, s, s.flusher.idx, group) && t in group
    ensures Enabled(c, s, Add(t)) && Next(c, s, Add(t)).flusher == s.flusher
    ensures Fills(c, Next(c, s, Add(t)), s.flusher.idx, group - {t})
  {
    hide Sum, Pack, Pid, Idx, FetchAdd, FetchSub, Increment, Reserved;
    var size, s' := s.writers[t].size, Next(c, s, Add(t));
    NobodyInsideIff(s);
    WordRead(c, s);
    assert group - {t} + {t} == group;
    SizesAfter(s.writers, t, s'.writers[t], group - {t});
    assert Total(c, s) + size < LIMIT;
    ReservedMore(s.ranges, Range(Idx(s.word), size));
  }

  lemma {:induction false} GoesOnFrom(r: Run, x: Step, later: Run)
    requires GoesOn(Then(r, x), later)
    ensures GoesOn(r, later)
  {
    if later == Then(r, x) {
      assert GoesOn(r, r);
    } else {
      GoesOnFrom(r, x, later.before);
    }
  }

  /** Let everybody inside get out, then the threads of the group write their records one by one. */
  lemma {:induction false} FilledCanEnd(c: Setting, s0: Buffer, r: Run, group: set<nat>) returns (later: Run)
    requires Fresh(c, s0) && |s0.writers| <= MAX_THREADS && c.pid == c.me
    requires Legal(c, s0, r) && End(c, s0, r).flusher.Spinning?
    requires Fills(c, End(c, s0, r), End(c, s0, r).flusher.idx, group)
    ensures Legal(c, s0, later) && GoesOn(r, later) && End(c, s0, later).flusher.Done?
    decreases |group|, Inside(End(c, s0, r))
  {
    hide Pack, Pid, Idx, FetchAdd, FetchSub, Increment, Sum, Reserved, Inside;
    var s := End(c, s0, r);
    RunCounts(c, s0, r);
    if Inside(s) > 0 {
      var x := GetsOut(c, s, group);
      later := FilledCanEnd(c, s0, Then(r, x), group);
      GoesOnFrom(r, x, later);
    } else if t :| t in group {
      GetsIn(c, s, group, t);
      assert |group - {t}| < |group|;
      later := FilledCanEnd(c, s0, Then(r, Add(t)), group - {t});
      GoesOnFrom(r, Add(t), later);
    } else {
      assert group == {};
      NobodyAdds(s.writers);
      NobodyInsideIff(s);
      assert Enabled(c, s, Flush);
      later := Then(r, Flush);
      assert GoesOn(r, r);
    }
  }

  /**
   The flush of this process's own buffer can end exactly if the accepted records, with those of
   some of the threads about to add, come to the index that it has read.
   */
  lemma SpinEndsIff(c: Setting, s0: Buffer, r: Run)
    requires Fresh(c, s0) && |s0.writers| <= MAX_THREADS && c.pid == c.me
    requires Legal(c, s0, r) && End(c, s0, r).flusher.Spinning?
    ensures CanEnd(c, s0, r) <==> exists group :: Fills(c, End(c, s0, r), End(c, s0, r).flusher.idx, group)
  {
    hide Fills;
    if later :| Legal(c, s0, later) && GoesOn(r, later) && End(c, s0, later).flusher.Done? {
      var group := EndedWasFilled(c, s0, r, later);
    }
    if group :| Fills(c, End(c, s0, r), End(c, s0, r).flusher.idx, group) {
      var later := FilledCanEnd(c, s0, r, group);
    }
  }

  lemma OwnEnd(c: Setting, s: Buffer)
    requires Proper(c) && Bounded(c, s) && c.pid == c.me
    ensures c.base + Reserved(s.ranges) < LIMIT
  {
  }

  /**
   If nobody else is about to add when the index is read, the flush can end exactly if the refused
   additions still to be taken back do not show in it.
   */
  lemma QuietLookEndsIff(c: Setting, s0: Buffer, r: Run)
    requires Fresh(c, s0) && |s0.writers| <= MAX_THREADS && c.pid == c.me
    requires Legal(c, s0, r) && r.Then? && r.step.Look?
    requires forall t | 0 <= t < |End(c, s0, r).writers| :: !End(c, s0, r).writers[t].Aimed?
    ensures CanEnd(c, s0, r) <==> Outstanding(End(c, s0, r)) % 0x1_0000 == 0
  {
    hide Pack, Pid, Idx, Reserved, Sum, Outstanding;
    var s := End(c, s0, r);
    SpinEndsIff(c, s0, r);
    RunCounts(c, s0, r);
    WordRead(c, s);
    OwnEnd(c, s);
    NobodyAdds(s.writers);
    if group :| Fills(c, s, s.flusher.idx, group) {
      assert group == {};
    }
    if Outstanding(s) % 0x1_0000 == 0 {
      assert Fills(c, s, s.flusher.idx, {});
    }
  }

  // ----- One writer is enough

  lemma WordFields(idx: nat, ref: nat)
    requires idx < 0x1_0000 && ref < 0x10
    ensures Pid(Word(idx, ref)) == 1 && Idx(Word(idx, ref)) == idx && Word(idx, ref) == Pack(1, idx, 0x1000, ref)
  {
    Unpacked(1, idx, 0x1000, ref);
  }

  lemma ExampleStart(n: nat) returns (s0: Buffer)
    ensures Fresh(EXAMPLE, s0) && |s0.writers| == n
  {
    s0 := Buffer(Pack(1, 100, 0x1000, 0), seq(n, _ => Outside), true, [], Away);
  }

  /** The only writer writes a record, and then reads the buffer's address again. */
  lemma WrittenAndAimed(s0: Buffer) returns (r: Run)
    requires Fresh(EXAMPLE, s0) && |s0.writers| >= 1
    ensures Legal(EXAMPLE, s0, r)
    ensures End(EXAMPLE, s0, r) == Buffer(Word(120, 0), s0.writers[0 := Aimed(20)], true, [Range(100, 20)], Away)
  {
    hide Word, Idx;
    var c := EXAMPLE;
    assert s0.word == Word(100, 0) by { FreshWord(s0); }
    var s1 := Next(c, s0, Aim(0, 20));
    ExampleAdd(s1, 0, 100, 0);
    var s2 := Next(c, s1, Add(0));
    ExampleUndo(s2, Finish(0), 120, 1);
    var r1 := Then(Then(Then(Begin, Aim(0, 20)), Add(0)), Finish(0));
    assert Legal(c, s0, r1);
    r := Then(r1, Aim(0, 20));
  }

  /** The flusher comes while it is between reading the address and adding to the word. */
  lemma FlushedWhileAimed(s0: Buffer) returns (r: Run)
    requires Fresh(EXAMPLE, s0) && |s0.writers| >= 1
    ensures Legal(EXAMPLE, s0, r) && r.Then? && r.step.Flush?
    ensures |End(EXAMPLE, s0, r).writers| == |s0.writers| && End(EXAMPLE, s0, r).writers[0].Aimed?
  {
    hide Word, Idx, Pid, Pack;
    var c := EXAMPLE;
    var r1 := WrittenAndAimed(s0);
    WordFields(120, 0);
    var s1 := End(c, s0, r1);
    var r2 := Then(r1, SwapOut);
    assert Legal(c, s0, r2) && End(c, s0, r2) == s1.(current := false);
    var r3 := Then(r2, Check);
    assert Legal(c, s0, r3) && End(c, s0, r3) == s1.(current := false, flusher := Checked);
    var r4 := Then(r3, Look);
    assert Legal(c, s0, r4) && End(c, s0, r4) == s1.(current := false, flusher := Spinning(120));
    r := Then(r4, Flush);
    assert End(c, s0, r).writers == s1.writers;
  }

  /** The flusher reads the index while the addition of the only writer, refused, is still in it. */
  lemma LookedTooEarly(s0: Buffer) returns (r: Run)
    requires Fresh(EXAMPLE, s0) && |s0.writers| >= 1
    ensures Legal(EXAMPLE, s0, r) && r.Then? && r.step.Look?
    ensures End(EXAMPLE, s0, r).writers == s0.writers[0 := Refused(4000)]
  {
    hide Word, Idx;
    var c := EXAMPLE;
    assert s0.word == Word(100, 0) by { FreshWord(s0); }
    var s1 := Next(c, s0, Aim(0, 4000));
    ExampleAdd(s1, 0, 100, 0);
    var s2 := Next(c, Next(c, s1, Add(0)), SwapOut);
    WordFields(4100, 1);
    var r1 := Then(Then(Then(Begin, Aim(0, 4000)), Add(0)), SwapOut);
    assert Legal(c, s0, r1) && End(c, s0, r1) == s2;
    var r2 := Then(r1, Check);
    assert Legal(c, s0, r2) && End(c, s0, r2) == s2.(flusher := Checked);
    r := Then(r2, Look);
  }

  /** Whatever `n` threads do, none of them touches the buffer after it is freed. */
  ghost predicate NeverAstray(n: nat) {
    forall c, s0, r, t | Fresh(c, s0) && |s0.writers| == n && Legal(c, s0, r) && 0 <= t < |End(c, s0, r).writers| ::
      !End(c, s0, r).writers[t].Astray?
  }

  lemma NeverAstrayIff(n: nat)
    requires n < TWO32
    ensures NeverAstray(n) <==> n == 0
  {
    hide Pack, Pid, Idx, FetchAdd, FetchSub, Increment;
    if n == 0 {
      forall c, s0, r | Fresh(c, s0) && |s0.writers| == n && Legal(c, s0, r) ensures |End(c, s0, r).writers| == 0 {
        RunSettles(c, s0, r);
      }
    } else {
      var s0 := ExampleStart(n);
      var r := FlushedWhileAimed(s0);
      var later := Then(r, Add(0));
      assert Legal(EXAMPLE, s0, later) && End(EXAMPLE, s0, later).writers[0].Astray?;
    }
  }

  /** Whatever `n` threads do, a flusher that spins on this process's own buffer can still succeed. */
  ghost predicate NeverStuck(n: nat) {
    forall c, s0, r | && Fresh(c, s0) && |s0.writers| == n && c.pid == c.me
                      && Legal(c, s0, r) && End(c, s0, r).flusher.Spinning? :: CanEnd(c, s0, r)
  }

  /** Without writers there is nothing to flush. */
  lemma {:induction false} NothingToFlush(c: Setting, s0: Buffer, r: Run)
    requires Fresh(c, s0) && |s0.writers| == 0 && c.pid == c.me && Legal(c, s0, r)
    ensures var s := End(c, s0, r); s.word == s0.word && |s.writers| == 0 && (s.flusher.Away? || s.flusher.Checked?)
  {
    hide Pack, Pid, Idx, FetchAdd, FetchSub, Increment;
    if r.Then? {
      NothingToFlush(c, s0, r.before);
      Unpacked(c.pid, c.base, c.ptr, 0);
    }
  }

  lemma NeverStuckIff(n: nat)
    requires n <= MAX_THREADS
    ensures NeverStuck(n) <==> n == 0
  {
    hide Pack, Pid, Idx, FetchAdd, FetchSub, Increment, CanEnd, Sum;
    if n == 0 {
      forall c, s0, r | && Fresh(c, s0) && |s0.writers| == n && c.pid == c.me
                        && Legal(c, s0, r) ensures !End(c, s0, r).flusher.Spinning? {
        NothingToFlush(c, s0, r);
      }
    } else {
      var s0 := ExampleStart(n);
      var r := LookedTooEarly(s0);
      NobodyCounts(s0.writers);
      WriterSums(s0.writers, 0, Refused(4000));
      QuietLookEndsIff(EXAMPLE, s0, r);
      assert !CanEnd(EXAMPLE, s0, r);
    }
  }
}
