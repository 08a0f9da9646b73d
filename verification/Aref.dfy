/**
 The shared reference count of aref.h, run by any number of threads over the
 atomic operations of any architecture.  A thread calls get or put only while
 it holds a reference, and may hand a reference to another thread.
 */
module Aref {
  import opened Atomics
  import opened Counting
  import opened Sums

  /**
   `held[t]` counts the references that thread `t` owns; a get or put changes it
   when its atomic add takes effect.  `releasing` holds the threads that have seen
   the previous count one and are about to call `release`.
   */
  datatype Shared = Shared(m: State, held: seq<nat>, releasing: set<nat>, released: nat)

  datatype Move =
    | Get(tid: nat)
    | Put(tid: nat)
    | Step(l: Label)
    | Hand(giver: nat, taker: nat)
    | Release(tid: nat)

  function References(a: Shared): nat {
    Sum(a.held)
  }

  /** After `aref_init`: the count is one and thread `owner` holds the reference. */
  predicate Fresh(a: Shared, owner: nat) {
    && Initial(a.m, ONE)
    && owner < |a.m.threads| == |a.held|
    && (forall t | 0 <= t < |a.held| :: a.held[t] == if t == owner then 1 else 0)
    && a.releasing == {} && a.released == 0
  }

  /** The thread is outside every call and owns a reference. */
  predicate Holder(a: Shared, t: nat) {
    t < |a.m.threads| && t < |a.held| && a.m.threads[t].Idle? && t !in a.releasing && a.held[t] >= 1
  }

  predicate Allowed(arch: Arch, a: Shared, mv: Move) {
    match mv
    case Get(t) => Holder(a, t)
    case Put(t) => Holder(a, t)
    case Step(l) => !l.Call? && Enabled(arch, a.m, l) && l.tid < |a.held|
    case Hand(giver, taker) => Holder(a, giver) && taker < |a.held| && giver != taker
    case Release(t) => t in a.releasing
  }

  /** The references a thread owns after its get or put took effect. */
  function Moved(op: Op, held: nat): nat {
    if op == INC then held + 1 else if held == 0 then 0 else held - 1
  }

  function Perform(arch: Arch, a: Shared, mv: Move): Shared
    requires Allowed(arch, a, mv)
  {
    match mv
    case Get(t) => a.(m := Next(arch, a.m, Call(t, INC)))
    case Put(t) => a.(m := Next(arch, a.m, Call(t, DEC)))
    case Step(l) =>
      var th := a.m.threads[l.tid];
      a.(m := Next(arch, a.m, l),
         held := if Effect(arch, a.m, l) then a.held[l.tid := Moved(th.op, a.held[l.tid])] else a.held,
         releasing := if l.Return? && th.op == DEC && th.ret == ONE then a.releasing + {l.tid} else a.releasing)
    case Hand(giver, taker) =>
      a.(held := a.held[giver := a.held[giver] - 1][taker := a.held[taker] + 1])
    case Release(t) => a.(releasing := a.releasing - {t}, released := a.released + 1)
  }

  // ----- The invariant

  /** The thread will call `release`, or is about to. */
  predicate Owes(arch: Arch, a: Shared, t: nat) {
    t in a.releasing ||
    (t < |a.m.threads| && var th := a.m.threads[t]; Settled(arch, th) && th.op == DEC && Outcome(th) == ONE)
  }

  ghost predicate ThreadsInOrder(arch: Arch, a: Shared) {
    && |a.held| == |a.m.threads|
    && (forall t | t in a.releasing :: t < |a.m.threads| && a.m.threads[t].Idle?)
    && (forall t | 0 <= t < |a.m.threads| && !a.m.threads[t].Idle? ::
          && (a.m.threads[t].op == INC || a.m.threads[t].op == DEC)
          && (!Settled(arch, a.m.threads[t]) ==> a.held[t] >= 1))
  }

  ghost predicate OnlyDebtor(arch: Arch, a: Shared, t: nat) {
    Owes(arch, a, t) && forall u: nat | Owes(arch, a, u) :: u == t
  }

  /** Release has run, or exactly one thread owes it, precisely when no reference is left. */
  ghost predicate ReleasedOnce(arch: Arch, a: Shared) {
    if References(a) > 0 then
      a.released == 0 && forall t: nat :: !Owes(arch, a, t)
    else if a.released == 0 then
      exists t: nat :: OnlyDebtor(arch, a, t)
    else
      a.released == 1 && forall t: nat :: !Owes(arch, a, t)
  }

  ghost predicate Sound(arch: Arch, a: Shared) {
    && Coherent(arch, a.m)
    && ThreadsInOrder(arch, a)
    && a.m.word == WordOf(References(a))
    && ReleasedOnce(arch, a)
  }

  // ----- Runs

  datatype Moves = Nothing | Also(before: Moves, move: Move)

  ghost predicate Proper(arch: Arch, a0: Shared, r: Moves)
    decreases r, 0
  {
    r.Also? ==> Proper(arch, a0, r.before) && Allowed(arch, Reached(arch, a0, r.before), r.move)
  }

  ghost function Reached(arch: Arch, a0: Shared, r: Moves): Shared
    requires Proper(arch, a0, r)
    decreases r, 1
  {
    match r
    case Nothing => a0
    case Also(before, mv) => Perform(arch, Reached(arch, a0, before), mv)
  }

  /** At no point of the run did more than `limit` references exist. */
  ghost predicate AtMost(arch: Arch, a0: Shared, r: Moves, limit: nat)
    requires Proper(arch, a0, r)
  {
    References(Reached(arch, a0, r)) <= limit && (r.Also? ==> AtMost(arch, a0, r.before, limit))
  }

  // ----- Every move keeps the invariant

  lemma FreshIsSound(arch: Arch, a: Shared, owner: nat)
    requires Fresh(a, owner)
    ensures Sound(arch, a) && References(a) == 1
  {
    SumOfZeros(a.held[owner := 0]);
    SumUpdate(a.held, owner, 0);
    assert WordOf(1) == After(INC, WordOf(0));
  }

  lemma SameDebts(arch: Arch, a: Shared, a': Shared)
    requires ReleasedOnce(arch, a) && References(a') == References(a) && a'.released == a.released
    requires forall t: nat :: Owes(arch, a', t) <==> Owes(arch, a, t)
    ensures ReleasedOnce(arch, a')
  {
    if References(a) == 0 && a.released == 0 {
      var t: nat :| OnlyDebtor(arch, a, t);
      assert OnlyDebtor(arch, a', t);
    }
  }

  lemma CallKeeps(arch: Arch, a: Shared, mv: Move)
    requires Sound(arch, a) && Allowed(arch, a, mv) && (mv.Get? || mv.Put?)
    ensures Sound(arch, Perform(arch, a, mv))
  {
    StepKeepsCoherent(arch, a.m, Call(mv.tid, if mv.Get? then INC else DEC));
    SameDebts(arch, a, Perform(arch, a, mv));
  }

  lemma HandKeeps(arch: Arch, a: Shared, mv: Move)
    requires Sound(arch, a) && Allowed(arch, a, mv) && mv.Hand?
    ensures Sound(arch, Perform(arch, a, mv))
    ensures var a' := Perform(arch, a, mv);
            && References(a') == References(a) && |a'.held| == |a.held|
            && a'.held[mv.giver] == a.held[mv.giver] - 1 && a'.held[mv.taker] == a.held[mv.taker] + 1
  {
    hide Sum, WordOf, Coherent, Settled;
    SumUpdate(a.held, mv.giver, a.held[mv.giver] - 1);
    SumUpdate(a.held[mv.giver := a.held[mv.giver] - 1], mv.taker, a.held[mv.taker] + 1);
    SameDebts(arch, a, Perform(arch, a, mv));
  }

  lemma ReleaseKeeps(arch: Arch, a: Shared, mv: Move)
    requires Sound(arch, a) && Allowed(arch, a, mv) && mv.Release?
    ensures References(a) == 0 && a.released == 0
    ensures Sound(arch, Perform(arch, a, mv))
  {
    var a' := Perform(arch, a, mv);
    assert Owes(arch, a, mv.tid);
    forall t: nat ensures !Owes(arch, a', t) {
      assert Owes(arch, a, t) ==> t == mv.tid;
    }
  }

  /** A step without effect keeps every debt; a return only moves it from the call to `releasing`. */
  lemma SilentKeeps(arch: Arch, a: Shared, l: Label)
    requires Sound(arch, a) && Allowed(arch, a, Step(l)) && !Effect(arch, a.m, l)
    ensures Sound(arch, Perform(arch, a, Step(l)))
  {
    hide Sum, WordOf, Coherent;
    StepKeepsCoherent(arch, a.m, l);
    StepMeaning(arch, a.m, l);
    if !l.Return? {
      SilentStep(arch, a.m, l);
    }
    SameDebts(arch, a, Perform(arch, a, Step(l)));
  }

  lemma GetKeeps(arch: Arch, a: Shared, l: Label)
    requires Sound(arch, a) && Allowed(arch, a, Step(l)) && Effect(arch, a.m, l)
    requires a.m.threads[l.tid].op == INC
    ensures Sound(arch, Perform(arch, a, Step(l)))
  {
    hide Sum, Coherent;
    StepKeepsCoherent(arch, a.m, l);
    StepMeaning(arch, a.m, l);
    SumUpdate(a.held, l.tid, a.held[l.tid] + 1);
    SumHasPart(a.held, l.tid);
    DecUndoesInc(ZERO);
    assert forall t: nat | Owes(arch, Perform(arch, a, Step(l)), t) :: Owes(arch, a, t);
  }

  /** A put takes one reference away, and makes its thread the one debtor exactly if that was the last. */
  lemma PutKeeps(arch: Arch, a: Shared, l: Label)
    requires Sound(arch, a) && Allowed(arch, a, Step(l)) && Effect(arch, a.m, l)
    requires a.m.threads[l.tid].op == DEC && References(a) <= MODULUS
    ensures Sound(arch, Perform(arch, a, Step(l)))
  {
    hide Sum, Coherent;
    var a', n := Perform(arch, a, Step(l)), References(a);
    StepKeepsCoherent(arch, a.m, l);
    StepMeaning(arch, a.m, l);
    SumUpdate(a.held, l.tid, a.held[l.tid] - 1);
    SumHasPart(a.held, l.tid);
    DecUndoesInc(WordOf(n - 1));
    OneOnlyAtOne(n);
    assert forall t: nat | t != l.tid :: Owes(arch, a', t) <==> Owes(arch, a, t);
    assert n == 1 ==> OnlyDebtor(arch, a', l.tid);
  }

  lemma MoveKeeps(arch: Arch, a: Shared, mv: Move)
    requires Sound(arch, a) && Allowed(arch, a, mv) && References(a) <= MODULUS
    ensures Sound(arch, Perform(arch, a, mv))
  {
    match mv
    case Get(_) => CallKeeps(arch, a, mv);
    case Put(_) => CallKeeps(arch, a, mv);
    case Hand(_, _) => HandKeeps(arch, a, mv);
    case Release(_) => ReleaseKeeps(arch, a, mv);
    case Step(l) =>
      if !Effect(arch, a.m, l) {
        SilentKeeps(arch, a, l);
      } else if a.m.threads[l.tid].op == INC {
        GetKeeps(arch, a, l);
      } else {
        PutKeeps(arch, a, l);
      }
  }

  lemma {:induction false} RunIsSound(arch: Arch, a0: Shared, owner: nat, r: Moves)
    requires Fresh(a0, owner) && Proper(arch, a0, r) && AtMost(arch, a0, r, MODULUS)
    ensures Sound(arch, Reached(arch, a0, r))
  {
    match r
    case Nothing => FreshIsSound(arch, a0, owner);
    case Also(before, mv) =>
      RunIsSound(arch, a0, owner, before);
      MoveKeeps(arch, Reached(arch, a0, before), mv);
  }

  // ----- What the protocol promises

  /** Nobody holds a reference and no get or put can still take effect. */
  ghost predicate Abandoned(arch: Arch, a: Shared) {
    && References(a) == 0
    && (forall t | 0 <= t < |a.held| :: a.held[t] == 0)
    && (forall t | 0 <= t < |a.m.threads| :: a.m.threads[t].Idle? || Settled(arch, a.m.threads[t]))
  }

  /** Every get and put has returned, release included. */
  predicate AllReturned(a: Shared) {
    a.releasing == {} && forall t | 0 <= t < |a.m.threads| :: a.m.threads[t].Idle?
  }

  /**
   In every interleaving in which no more than 2^32 references ever exist: the count
   is the number of references held; release has run at most once, and only when
   nobody can reach the object any more; and once every reference has been put and
   every call has finished, it has run exactly once.
   */
  lemma ReleaseRunsOnce(arch: Arch, a0: Shared, owner: nat, r: Moves)
    requires Fresh(a0, owner) && Proper(arch, a0, r) && AtMost(arch, a0, r, MODULUS)
    ensures var a := Reached(arch, a0, r);
            && a.m.word == WordOf(References(a))
            && a.released <= 1
            && (a.released == 1 || a.releasing != {} ==> Abandoned(arch, a))
            && (References(a) == 0 && AllReturned(a) ==> a.released == 1)
  {
    RunIsSound(arch, a0, owner, r);
    var a := Reached(arch, a0, r);
    forall t | 0 <= t < |a.held| ensures a.held[t] <= References(a) {
      SumHasPart(a.held, t);
    }
    if t :| t in a.releasing {
      assert Owes(arch, a, t);
    }
  }
}
