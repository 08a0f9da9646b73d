/**
 What callers may conclude from linearizability: the contract of one
 compare-and-swap among many calls, and the race to set a clear bit.
 */
module Races {
  import opened Atomics
  import opened Histories
  import opened Linearizability
  import opened Bits
  import opened Counting

  // ----- What one call does to the word (atomic.h)

  lemma FoundNext(h: seq<Event>, order: seq<nat>, w0: Word, p: nat)
    requires ListsCalls(h, order) && p < |order|
    ensures Found(h, order, w0, p + 1) == After(h[order[p]].op, Found(h, order, w0, p))
  {
    hide After;
    var ops := Ops(h, order[..p + 1]);
    assert ops[..p] == Ops(h, order[..p]);
  }

  /** An addition is one of numbers, an and and an or act on every bit, a CAS replaces what it expects. */
  ghost predicate Does(op: Op, before: Word, after: Word) {
    match op
    case Add(v) => forall m: nat, n: nat | WordOf(m) == before && WordOf(n) == v :: WordOf(m + n) == after
    case And(v) => forall k: nat | k < 32 :: Bit(after.bits, k) <==> Bit(before.bits, k) && Bit(v.bits, k)
    case Or(v) => forall k: nat | k < 32 :: Bit(after.bits, k) <==> Bit(before.bits, k) || Bit(v.bits, k)
    case Cas(o, n) => after == if before == o then n else before
  }

  lemma MeetBit(x: bv32, y: bv32, k: nat)
    requires k < 32
    ensures Bit(Meet(x, y), k) <==> Bit(x, k) && Bit(y, k)
  {
    hide Bit;
    AndBit(x, y, k);
  }

  lemma JoinBit(x: bv32, y: bv32, k: nat)
    requires k < 32
    ensures Bit(Join(x, y), k) <==> Bit(x, k) || Bit(y, k)
  {
    hide Bit;
    OrBit(x, y, k);
  }

  lemma AndDoes(v: Word, w: Word, k: nat)
    requires k < 32
    ensures Bit(After(And(v), w).bits, k) <==> Bit(w.bits, k) && Bit(v.bits, k)
  {
    hide Bit, Meet;
    MeetBit(w.bits, v.bits, k);
  }

  lemma OrDoes(v: Word, w: Word, k: nat)
    requires k < 32
    ensures Bit(After(Or(v), w).bits, k) <==> Bit(w.bits, k) || Bit(v.bits, k)
  {
    hide Bit, Join;
    JoinBit(w.bits, v.bits, k);
  }

  /** Each operation does what it is called after. */
  lemma OperationDoes(op: Op, w: Word)
    ensures Does(op, w, After(op, w))
  {
    hide Bit, WordOf, Plus;
    match op
    case Add(v) =>
      forall m: nat, n: nat | WordOf(m) == w && WordOf(n) == v ensures WordOf(m + n) == After(op, w) {
        AddsNumbers(m, n);
      }
    case And(v) =>
      forall k: nat | k < 32 ensures Bit(After(op, w).bits, k) <==> Bit(w.bits, k) && Bit(v.bits, k) {
        AndDoes(v, w, k);
      }
    case Or(v) =>
      forall k: nat | k < 32 ensures Bit(After(op, w).bits, k) <==> Bit(w.bits, k) || Bit(v.bits, k) {
        OrDoes(v, w, k);
      }
    case Cas(_, _) =>
  }

  /**
   In every run, on every architecture, the word passes from call to call in effect order: each
   does to the word that its predecessor left what it is called after, and one other
   than a CAS is answered with that word.
   */
  lemma EveryCallDoes(arch: Arch, s0: State, w0: Word, r: Run, p: nat)
    requires Initial(s0, w0) && Legal(arch, s0, r) && p < |EffectOrder(arch, s0, r)|
    ensures ListsCalls(History(arch, s0, r), EffectOrder(arch, s0, r))
    ensures var h, order := History(arch, s0, r), EffectOrder(arch, s0, r);
            && Found(h, order, w0, 0) == w0 && Found(h, order, w0, |order|) == End(arch, s0, r).word
            && Does(h[order[p]].op, Found(h, order, w0, p), Found(h, order, w0, p + 1))
            && (!h[order[p]].op.Cas? ==> forall a | Answers(h, order[p], a) :: h[a].ret == Found(h, order, w0, p))
  {
    hide History, EffectOrder, End, Legal, Does, After;
    EveryRunLinearizes(arch, s0, w0, r);
    var h, order := History(arch, s0, r), EffectOrder(arch, s0, r);
    FoundNext(h, order, w0, p);
    OperationDoes(h[order[p]].op, Found(h, order, w0, p));
  }

  // ----- Clearing bits

  /** The operation leaves bit `k` clear if it finds it clear. */
  predicate NeverSets(op: Op, k: nat)
    requires k < 32
  {
    op.And? || (op.Or? && !Bit(op.value.bits, k))
  }

  lemma {:induction false} ClearStaysClear(ops: seq<Op>, w: Word, k: nat, p: nat)
    requires k < 32 && p < |ops| && ops[p].And? && !Bit(ops[p].value.bits, k)
    requires forall q | p < q < |ops| :: NeverSets(ops[q], k)
    ensures !Bit(Fold(ops, w).bits, k)
  {
    hide Bit, After;
    var n := |ops| - 1;
    if p < n {
      ClearStaysClear(ops[..n], w, k, p);
      assert NeverSets(ops[n], k);
    }
    if ops[n].And? {
      AndDoes(ops[n].value, Fold(ops[..n], w), k);
    } else {
      OrDoes(ops[n].value, Fold(ops[..n], w), k);
    }
  }

  /**
   Once an and whose mask lacks bit `k` has taken effect, and no call after it sets the bit, the bit
   is clear in the word, in every run on every architecture.
   */
  lemma BitClearedForGood(arch: Arch, s0: State, w0: Word, r: Run, k: nat, p: nat)
    requires Initial(s0, w0) && Legal(arch, s0, r) && k < 32 && p < |EffectOrder(arch, s0, r)|
    ensures ListsCalls(History(arch, s0, r), EffectOrder(arch, s0, r))
    ensures var h, order := History(arch, s0, r), EffectOrder(arch, s0, r);
            && h[order[p]].op.And? && !Bit(h[order[p]].op.value.bits, k)
            && (forall q | p < q < |order| :: NeverSets(h[order[q]].op, k))
            ==> !Bit(End(arch, s0, r).word.bits, k)
  {
    hide History, EffectOrder, End, Legal, Bit;
    EveryRunLinearizes(arch, s0, w0, r);
    var h, order := History(arch, s0, r), EffectOrder(arch, s0, r);
    assert order[..|order|] == order;
    var ops := Ops(h, order);
    if ops[p].And? && !Bit(ops[p].value.bits, k) && forall q | p < q < |ops| :: NeverSets(ops[q], k) {
      ClearStaysClear(ops, w0, k, p);
    }
  }

  // ----- Compare-and-swap (atomic.h)

  /** The answer `a` tells what the CAS at place `p` of the order did to the word. */
  ghost predicate CasTold(h: seq<Event>, order: seq<nat>, w0: Word, p: nat, a: nat)
    requires ListsCalls(h, order) && p < |order| && a < |h| && h[a].Respond? && h[order[p]].op.Cas?
  {
    var op, before, after := h[order[p]].op, Found(h, order, w0, p), Found(h, order, w0, p + 1);
    && (h[a].ret == ZERO <==> before == op.oldValue)
    && (h[a].ret == ZERO ==> after == op.newValue)
    && (h[a].ret != ZERO ==> h[a].ret == ONE && after == before)
  }

  lemma CasInOrder(h: seq<Event>, order: seq<nat>, w0: Word, w: Word, p: nat, a: int)
    requires Linearizes(h, order, w0, w) && p < |order| && Answers(h, order[p], a) && h[order[p]].op.Cas?
    ensures CasTold(h, order, w0, p, a)
  {
    hide Found;
    FoundNext(h, order, w0, p);
    assert h[a].ret == Reply(h[order[p]].op, Found(h, order, w0, p));
  }

  /**
   A CAS answers zero exactly when it stored the new value over the expected old
   one, and otherwise leaves the word as it found it.
   */
  lemma CasContract(arch: Arch, s0: State, w0: Word, r: Run, p: nat, a: int)
    requires Initial(s0, w0) && Legal(arch, s0, r)
    requires p < |EffectOrder(arch, s0, r)|
    requires Answers(History(arch, s0, r), EffectOrder(arch, s0, r)[p], a)
    requires History(arch, s0, r)[EffectOrder(arch, s0, r)[p]].op.Cas?
    ensures ListsCalls(History(arch, s0, r), EffectOrder(arch, s0, r))
    ensures CasTold(History(arch, s0, r), EffectOrder(arch, s0, r), w0, p, a)
  {
    hide History, EffectOrder, End, Legal, CasTold;
    EveryRunLinearizes(arch, s0, w0, r);
    CasInOrder(History(arch, s0, r), EffectOrder(arch, s0, r), w0, End(arch, s0, r).word, p, a);
  }

  // ----- Racing to set a bit

  /** All bits of `b` are set in `w`. */
  predicate Has(w: Word, b: Word) {
    w.bits & b.bits == b.bits
  }

  /** No bit of `b` is set in `w`. */
  predicate Lacks(w: Word, b: Word) {
    w.bits & b.bits == 0
  }

  /** The operation sets all of `b`, or at least never clears any of it. */
  predicate NeverClears(op: Op, b: Word) {
    (op.Or? || op.And?) && Has(op.value, b)
  }

  lemma OrSets(w: Word, v: Word, b: Word)
    requires Has(v, b)
    ensures Has(After(Or(v), w), b)
  {}

  lemma AndKeeps(w: Word, v: Word, b: Word)
    requires Has(v, b)
    ensures Has(w, b) ==> Has(After(And(v), w), b)
    ensures Lacks(w, b) ==> Lacks(After(And(v), w), b)
  {}

  lemma HasOrLacks(w: Word, b: Word)
    requires b != ZERO
    ensures !(Has(w, b) && Lacks(w, b))
  {}

  ghost predicate AnyOr(ops: seq<Op>) {
    exists k | 0 <= k < |ops| :: ops[k].Or?
  }

  lemma {:induction false} BitOnceSet(ops: seq<Op>, w: Word, b: Word)
    requires forall k | 0 <= k < |ops| :: NeverClears(ops[k], b)
    requires Lacks(w, b)
    ensures if AnyOr(ops) then Has(Fold(ops, w), b) else Lacks(Fold(ops, w), b)
  {
    hide Has, Lacks;
    if ops == [] {
      assert Fold(ops, w) == w;
    } else {
      var init, op := ops[..|ops| - 1], ops[|ops| - 1];
      BitOnceSet(init, w, b);
      assert AnyOr(ops) <==> AnyOr(init) || op.Or?;
      if op.Or? {
        OrSets(Fold(init, w), op.value, b);
      } else {
        AndKeeps(Fold(init, w), op.value, b);
      }
    }
  }

  /** The call at `i` was answered with a previous value in which `b` was clear. */
  ghost predicate SawClear(h: seq<Event>, i: int, b: Word) {
    0 <= i < |h| && h[i].Invoke? && h[i].op.Or? && exists a :: Answers(h, i, a) && Lacks(h[a].ret, b)
  }

  lemma ClearMeansFirst(h: seq<Event>, order: seq<nat>, w0: Word, w: Word, b: Word, p: nat, a: int)
    requires Linearizes(h, order, w0, w) && b != ZERO && Lacks(w0, b)
    requires forall i | 0 <= i < |h| && h[i].Invoke? :: NeverClears(h[i].op, b)
    requires p < |order| && Answers(h, order[p], a) && h[order[p]].op.Or?
    ensures Lacks(h[a].ret, b) <==> forall q | 0 <= q < p :: !h[order[q]].op.Or?
  {
    hide Has, Lacks, Fold;
    var ops := Ops(h, order[..p]);
    assert forall q | 0 <= q < p :: ops[q] == h[order[q]].op;
    BitOnceSet(ops, w0, b);
    HasOrLacks(Fold(ops, w0), b);
    assert AnyOr(ops) <==> exists q | 0 <= q < p :: h[order[q]].op.Or?;
  }

  /** In any linearizable history at most one `or` call sees the bits clear. */
  lemma AtMostOneWinner(h: seq<Event>, order: seq<nat>, w0: Word, w: Word, b: Word, i: int, j: int)
    requires Linearizes(h, order, w0, w) && b != ZERO && Lacks(w0, b)
    requires forall k | 0 <= k < |h| && h[k].Invoke? :: NeverClears(h[k].op, b)
    requires SawClear(h, i, b) && SawClear(h, j, b)
    ensures i == j
  {
    var a :| Answers(h, i, a) && Lacks(h[a].ret, b);
    var c :| Answers(h, j, c) && Lacks(h[c].ret, b);
    var p :| 0 <= p < |order| && order[p] == i;
    var q :| 0 <= q < |order| && order[q] == j;
    ClearMeansFirst(h, order, w0, w, b, p, a);
    ClearMeansFirst(h, order, w0, w, b, q, c);
  }

  lemma FirstOr(h: seq<Event>, order: seq<nat>, i: nat) returns (p: nat)
    requires ListsCalls(h, order) && i in order && h[i].op.Or?
    ensures p < |order| && h[order[p]].op.Or? && forall q | 0 <= q < p :: !h[order[q]].op.Or?
  {
    p := 0;
    while !h[order[p]].op.Or?
      invariant p < |order|
      invariant forall q | 0 <= q < p :: !h[order[q]].op.Or?
      invariant exists k :: p <= k < |order| && order[k] == i
      decreases |order| - p
    {
      p := p + 1;
    }
  }

  /** Exactly one winner once all threads are idle again, and never two, on every architecture. */
  lemma ExactlyOneWinner(arch: Arch, s0: State, w0: Word, r: Run, b: Word, i: nat) returns (winner: nat)
    requires Initial(s0, w0) && Legal(arch, s0, r) && b != ZERO && Lacks(w0, b)
    requires var h := History(arch, s0, r);
             && (forall k | 0 <= k < |h| && h[k].Invoke? :: NeverClears(h[k].op, b))
             && i < |h| && h[i].Invoke? && h[i].op.Or?
    requires Quiet(End(arch, s0, r))
    ensures SawClear(History(arch, s0, r), winner, b)
    ensures forall j | SawClear(History(arch, s0, r), j, b) :: j == winner
  {
    var h, order, w := History(arch, s0, r), EffectOrder(arch, s0, r), End(arch, s0, r).word;
    EveryRunLinearizes(arch, s0, w0, r);
    QuietRunAnswersAll(arch, s0, w0, r, i);
    var p := FirstOr(h, order, i);
    winner := order[p];
    QuietRunAnswersAll(arch, s0, w0, r, winner);
    var a :| Answers(h, winner, a);
    ClearMeansFirst(h, order, w0, w, b, p, a);
    forall j | SawClear(h, j, b) ensures j == winner {
      AtMostOneWinner(h, order, w0, w, b, j, winner);
    }
  }

  // ----- The final word does not depend on the order

  predicate Within(x: Word, y: Word) {
    x.bits | y.bits == y.bits
  }

  lemma JoinIsLeast(w: Word, v: Word, u: Word)
    ensures Within(w, u) && Within(v, u) ==> Within(After(Or(v), w), u)
  {}

  lemma JoinIsUpper(x: Word, w: Word, v: Word)
    ensures Within(x, w) ==> Within(x, After(Or(v), w))
  {}

  lemma JoinHasMask(w: Word, v: Word)
    ensures Within(v, After(Or(v), w))
  {}

  lemma WithinBothWays(x: Word, y: Word)
    requires Within(x, y) && Within(y, x)
    ensures x == y
  {}

  lemma WithinSelf(x: Word)
    ensures Within(x, x)
  {}

  /** A word in which the start value and every mask are contained contains what the `or`s produce. */
  lemma {:induction false} OrsStayWithin(ops: seq<Op>, w: Word, u: Word)
    requires forall k | 0 <= k < |ops| :: ops[k].Or? && Within(ops[k].value, u)
    requires Within(w, u)
    ensures Within(Fold(ops, w), u)
  {
    if ops != [] {
      OrsStayWithin(ops[..|ops| - 1], w, u);
      JoinIsLeast(Fold(ops[..|ops| - 1], w), ops[|ops| - 1].value, u);
    }
  }

  /** The start value and every mask are contained in what the `or`s produce. */
  lemma {:induction false} OrsContain(ops: seq<Op>, w: Word, k: nat)
    requires forall j | 0 <= j < |ops| :: ops[j].Or?
    ensures Within(w, Fold(ops, w))
    ensures k < |ops| ==> Within(ops[k].value, Fold(ops, w))
  {
    if ops == [] {
      WithinSelf(w);
    } else {
      var n := |ops| - 1;
      var x, v := Fold(ops[..n], w), ops[n].value;
      OrsContain(ops[..n], w, k);
      JoinIsUpper(w, x, v);
      if k == n {
        JoinHasMask(x, v);
      } else if k < n {
        JoinIsUpper(ops[k].value, x, v);
      }
    }
  }

  lemma MasksWithin(ops: seq<Op>, ops': seq<Op>, w: Word)
    requires forall k | 0 <= k < |ops| :: ops[k].Or? && ops[k] in ops'
    requires forall k | 0 <= k < |ops'| :: ops'[k].Or?
    ensures Within(Fold(ops, w), Fold(ops', w))
  {
    forall k | 0 <= k < |ops| ensures Within(ops[k].value, Fold(ops', w)) {
      assert ops[k] in ops';
      var m :| 0 <= m < |ops'| && ops'[m] == ops[k];
      OrsContain(ops', w, m);
    }
    OrsContain(ops', w, 0);
    OrsStayWithin(ops, w, Fold(ops', w));
  }

  /** Two lists of `or`s with the same masks, repeated or reordered at will, give the same word. */
  lemma SameMasksSameWord(ops: seq<Op>, ops': seq<Op>, w: Word)
    requires forall k | 0 <= k < |ops| :: ops[k].Or? && ops[k] in ops'
    requires forall k | 0 <= k < |ops'| :: ops'[k].Or? && ops'[k] in ops
    ensures Fold(ops, w) == Fold(ops', w)
  {
    MasksWithin(ops, ops', w);
    MasksWithin(ops', ops, w);
    WithinBothWays(Fold(ops, w), Fold(ops', w));
  }

  lemma ListedOps(h: seq<Event>, order: seq<nat>, listing: seq<nat>, k: nat)
    requires ListsCalls(h, order) && ListsCalls(h, listing)
    requires k < |order| && order[k] in listing
    ensures Ops(h, order)[k] in Ops(h, listing)
  {
    var m :| 0 <= m < |listing| && listing[m] == order[k];
    assert Ops(h, listing)[m] == Ops(h, order)[k];
  }

  /** Once quiet, the word is the start value or-ed with every mask, listed in any order whatever. */
  lemma AnyOrderGivesTheWord(arch: Arch, s0: State, w0: Word, r: Run, listing: seq<nat>)
    requires Initial(s0, w0) && Legal(arch, s0, r) && Quiet(End(arch, s0, r))
    requires var h := History(arch, s0, r);
             && (forall k | 0 <= k < |h| && h[k].Invoke? :: h[k].op.Or?)
             && ListsCalls(h, listing) && (forall k | 0 <= k < |h| && h[k].Invoke? :: k in listing)
    ensures End(arch, s0, r).word == Fold(Ops(History(arch, s0, r), listing), w0)
  {
    var h, order := History(arch, s0, r), EffectOrder(arch, s0, r);
    EveryRunLinearizes(arch, s0, w0, r);
    assert order[..|order|] == order;
    forall k | 0 <= k < |order| ensures Ops(h, order)[k] in Ops(h, listing) {
      ListedOps(h, order, listing, k);
    }
    forall k | 0 <= k < |listing| ensures Ops(h, listing)[k] in Ops(h, order) {
      QuietRunAnswersAll(arch, s0, w0, r, listing[k]);
      ListedOps(h, listing, order, k);
    }
    SameMasksSameWord(Ops(h, order), Ops(h, listing), w0);
  }
}
