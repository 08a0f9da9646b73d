/**
 How many threads the batching buffer can serve: with two, accepted records never
 overlap; with three, they can.
 */
module BatchLimit {
  import opened Sums
  import opened BatchBuffer

  // ----- Two writers

  /** The writer has turned away from this buffer for good, or is about to. */
  predicate Past(s: Buffer, t: nat)
    requires t < |s.writers|
  {
    var w := s.writers[t];
    w.Refused? || w.Leaving? || (w.Outside? && !s.current)
  }

  /** A refused addition is large enough to get everyone refused, or there is nobody left to refuse. */
  predicate Blocks(c: Setting, s: Buffer, t: nat)
    requires t < |s.writers|
  {
    s.writers[t].Refused? ==>
      || c.pid != c.me || c.base + Reserved(s.ranges) + s.writers[t].size >= LIMIT
      || forall u | 0 <= u < |s.writers| && u != t :: Past(s, u)
  }

  ghost predicate Calm(c: Setting, s: Buffer) {
    && |s.writers| <= 2 && Counted(c, s) && Bounded(c, s)
    && c.base + Reserved(s.ranges) < LIMIT
    && forall t {:trigger Blocks(c, s, t)} | 0 <= t < |s.writers| :: Blocks(c, s, t)
  }

  lemma TwoFit(c: Setting, s: Buffer)
    requires Calm(c, s) && !s.flusher.Done?
    ensures Pid(s.word) == c.pid && Idx(s.word) == Total(c, s)
  {
    hide Sum, Reserved, Pack, Pid, Idx, Outstanding, Blocks;
    OutstandingAtMost(s);
    WordRead(c, s);
  }

  /** Whoever is accepted was alone: nothing refused was outstanding. */
  lemma AcceptedAlone(c: Setting, s: Buffer, x: Step)
    requires Calm(c, s) && Enabled(c, s, x) && Accepts(c, s, x)
    ensures Outstanding(s) == 0 && Idx(s.word) == c.base + Reserved(s.ranges)
  {
    hide Sum, Reserved, Pack, Pid, Idx;
    TwoFit(c, s);
    forall t | 0 <= t < |s.writers| ensures RefusedSize(s.writers[t]) == 0 {
      assert Blocks(c, s, t);
      assert t != x.tid ==> !Past(s, x.tid);
      SumHasPart(RefusedSizes(s.writers), t);
    }
    SumOfZeros(RefusedSizes(s.writers));
  }

  /** A refusal blocks the other writer, unless that one is past. */
  lemma RefusalBlocks(c: Setting, s: Buffer, x: Step)
    requires Calm(c, s) && Enabled(c, s, x) && x.Add? && !Accepts(c, s, x)
    ensures Blocks(c, Next(c, s, x), x.tid)
  {
    if s.flusher.Done? {
      return;
    }
    hide Sum, Reserved, Pack, Pid, Idx;
    TwoFit(c, s);
    if u :| 0 <= u < |s.writers| && u != x.tid && !Past(s, u) {
      assert forall t | 0 <= t < |s.writers| :: RefusedSize(s.writers[t]) == 0;
      SumOfZeros(RefusedSizes(s.writers));
    } else {
      forall u | 0 <= u < |s.writers| && u != x.tid ensures Past(Next(c, s, x), u) {
        assert Past(s, u);
      }
    }
  }

  lemma StepKeepsCalm(c: Setting, s: Buffer, x: Step)
    requires Calm(c, s) && Enabled(c, s, x)
    ensures Calm(c, Next(c, s, x))
  {
    hide Sum, Reserved, Pack, Pid, Idx, FetchAdd, FetchSub, Increment;
    var s' := Next(c, s, x);
    StepCounts(c, s, x);
    if x.Add? && Accepts(c, s, x) {
      AcceptedAlone(c, s, x);
      ReservedMore(s.ranges, Range(Idx(s.word), s.writers[x.tid].size));
    }
    forall t | 0 <= t < |s'.writers| ensures Blocks(c, s', t) {
      assert Blocks(c, s, t);
      if x.Add? && !Accepts(c, s, x) && t == x.tid {
        RefusalBlocks(c, s, x);
      } else if s'.writers[t].Refused? {
        assert s.writers[t] == s'.writers[t] && Reserved(s.ranges) <= Reserved(s'.ranges);
        forall u | 0 <= u < |s.writers| && u != t && Past(s, u) ensures Past(s', u) {
        }
      }
    }
  }

  /** With at most two writers every run is clean. */
  lemma {:induction false} TwoWritersAreClean(c: Setting, s0: Buffer, r: Run)
    requires Fresh(c, s0) && |s0.writers| <= 2 && Legal(c, s0, r)
    ensures Calm(c, End(c, s0, r)) && Clean(c, s0, r)
  {
    match r
    case Begin =>
      FreshCounts(c, s0);
    case Then(before, x) =>
      TwoWritersAreClean(c, s0, before);
      var s := End(c, s0, before);
      StepKeepsCalm(c, s, x);
      if Accepts(c, s, x) {
        AcceptedAlone(c, s, x);
      }
  }

  // ----- Three writers

  const EXAMPLE := Setting(1, 1, 100, 0x1000)

  /** The word of the example, by its index and its count. */
  function Word(idx: nat, ref: nat): nat {
    Pack(1, idx, 0x1000, ref)
  }

  lemma ExampleAdd(s: Buffer, t: nat, idx: nat, ref: nat)
    requires Enabled(EXAMPLE, s, Add(t)) && !s.flusher.Done? && s.word == Word(idx, ref) && idx < 0x1_0000 && ref < 0x10
    requires s.writers[t].size <= MAX_SIZE
    ensures var size, s' := s.writers[t].size, Next(EXAMPLE, s, Add(t));
            && s'.word == Word(idx + size, ref + 1)
            && if idx + size < LIMIT
               then s' == Buffer(s'.word, s.writers[t := Writing(idx, size)], s.current, s.ranges + [Range(idx, size)], s.flusher)
               else s' == Buffer(s'.word, s.writers[t := Refused(size)], s.current, s.ranges, s.flusher)
  {
    Unpacked(1, idx, 0x1000, ref);
    AddsUp(1, idx, 0x1000, ref, s.writers[t].size);
  }

  lemma ExampleUndo(s: Buffer, x: Step, idx: nat, ref: nat)
    requires Enabled(EXAMPLE, s, x) && (x.Finish? || x.Withdraw?) && s.word == Word(idx, ref)
    requires RefusedSize(s.writers[x.tid]) <= idx < 0x1_0000 && 0 < ref < 0x10
    ensures Next(EXAMPLE, s, x).word == Word(idx - RefusedSize(s.writers[x.tid]), ref - 1)
  {
    hide Pack, FetchSub, Increment;
    TakesBack(1, idx, 0x1000, ref, RefusedSize(s.writers[x.tid]));
  }

  lemma FreshWord(s0: Buffer)
    requires Fresh(EXAMPLE, s0)
    ensures s0.word == Word(100, 0)
  {
  }

  /** Two refusals overlap; one is taken back, and a third writer gets in above the other. */
  lemma AcceptedAbove(s0: Buffer) returns (r: Run)
    requires Fresh(EXAMPLE, s0) && |s0.writers| >= 3
    ensures Legal(EXAMPLE, s0, r)
    ensures End(EXAMPLE, s0, r) == Buffer(Word(130, 2), s0.writers[0 := Leaving][1 := Refused(10)][2 := Writing(110, 20)],
                                          true, [Range(110, 20)], Away)
  {
    hide Word;
    var c := EXAMPLE;
    assert s0.word == Word(100, 0) by { FreshWord(s0); }
    var r1 := Then(Then(Then(Begin, Aim(0, 4000)), Aim(1, 10)), Aim(2, 20));
    var s1 := End(c, s0, r1);
    assert s1 == s0.(writers := s0.writers[0 := Aimed(4000)][1 := Aimed(10)][2 := Aimed(20)]);
    ExampleAdd(s1, 0, 100, 0);
    var s2 := Next(c, s1, Add(0));
    ExampleAdd(s2, 1, 4100, 1);
    var s3 := Next(c, s2, Add(1));
    ExampleUndo(s3, Withdraw(0), 4110, 2);
    var s4 := Next(c, s3, Withdraw(0));
    ExampleAdd(s4, 2, 110, 1);
    r := Then(Then(Then(Then(r1, Add(0)), Add(1)), Withdraw(0)), Add(2));
  }

  /** When that other refusal is taken back too, the next record lands inside the one just written. */
  lemma ThreeWritersOverlap(s0: Buffer) returns (r: Run)
    requires Fresh(EXAMPLE, s0) && |s0.writers| >= 3
    ensures Legal(EXAMPLE, s0, r)
    ensures End(EXAMPLE, s0, r).ranges == [Range(110, 20), Range(120, 20)]
  {
    hide Word;
    var c := EXAMPLE;
    var r4 := AcceptedAbove(s0);
    var s4 := End(c, s0, r4);
    ExampleUndo(s4, Withdraw(1), 130, 2);
    var s5 := Next(c, s4, Withdraw(1));
    ExampleUndo(s5, Finish(2), 120, 1);
    var s6 := Next(c, s5, Finish(2));
    var s7 := Next(c, s6, Aim(2, 20));
    ExampleAdd(s7, 2, 120, 0);
    var r5 := Then(r4, Withdraw(1));
    assert Legal(c, s0, r5) && End(c, s0, r5) == s5;
    var r6 := Then(r5, Finish(2));
    assert Legal(c, s0, r6) && End(c, s0, r6) == s6;
    var r7 := Then(r6, Aim(2, 20));
    assert Legal(c, s0, r7) && End(c, s0, r7) == s7;
    r := Then(r7, Add(2));
    assert s7.ranges == [Range(110, 20)];
  }

  // ----- The exact number

  /** Whatever `n` threads do, no two accepted records share a byte. */
  ghost predicate NeverOverlaps(n: nat) {
    forall c, s0, r | Fresh(c, s0) && |s0.writers| == n && Legal(c, s0, r) :: Disjoint(End(c, s0, r).ranges)
  }

  /** Accepted records never overlap exactly if at most two threads write. */
  lemma SafeForTwoWritersOnly(n: nat)
    ensures NeverOverlaps(n) <==> n <= 2
  {
    if n <= 2 {
      forall c, s0, r | Fresh(c, s0) && |s0.writers| == n && Legal(c, s0, r)
        ensures Disjoint(End(c, s0, r).ranges)
      {
        TwoWritersAreClean(c, s0, r);
        TiledIffClean(c, s0, r);
        TiledIsDisjoint(c.base, End(c, s0, r).ranges);
      }
    } else {
      var s0 := Buffer(Word(100, 0), seq(n, _ => Outside), true, [], Away);
      assert Fresh(EXAMPLE, s0);
      var r := ThreeWritersOverlap(s0);
      var ranges := End(EXAMPLE, s0, r).ranges;
      assert !Apart(ranges[0], ranges[1]);
    }
  }
}
