/**
 Linearizability in the sense of Herlihy and Wing, for histories of calls on
 one shared word.  Nothing here mentions how the operations are implemented.
 */
module Histories {
  import opened Atomics

  datatype Event = Invoke(tid: nat, op: Op) | Respond(tid: nat, ret: Word)

  /** The event at `r` is the response to the invocation at `i`. */
  ghost predicate Answers(h: seq<Event>, i: int, r: int) {
    && 0 <= i < r < |h| && h[i].Invoke? && h[r].Respond? && h[i].tid == h[r].tid
    && forall k | i < k < r :: h[k].tid != h[i].tid
  }

  /** `order` lists positions of invocations. */
  ghost predicate ListsCalls(h: seq<Event>, order: seq<nat>) {
    forall p | 0 <= p < |order| :: order[p] < |h| && h[order[p]].Invoke?
  }

  ghost function Ops(h: seq<Event>, order: seq<nat>): (ops: seq<Op>)
    requires ListsCalls(h, order)
    ensures |ops| == |order| && forall p | 0 <= p < |order| :: ops[p] == h[order[p]].op
  {
    seq(|order|, p requires 0 <= p < |order| => h[order[p]].op)
  }

  /** The word that the call at place `p` of the order finds. */
  ghost function Found(h: seq<Event>, order: seq<nat>, w0: Word, p: nat): Word
    requires ListsCalls(h, order) && p <= |order|
  {
    Fold(Ops(h, order[..p]), w0)
  }

  /**
   `order` is a linearization of `h` that takes the word from `w0` to `w`:
   no call twice, every answered call present (calls still pending may be), each
   answer is what the operation returns when the calls run one at a time in this
   order, and a call answered before another began comes before it.
   */
  ghost predicate Linearizes(h: seq<Event>, order: seq<nat>, w0: Word, w: Word) {
    && ListsCalls(h, order)
    && (forall p, q | 0 <= p < q < |order| :: order[p] != order[q])
    && (forall i, r | Answers(h, i, r) :: i in order)
    && (forall p, r | 0 <= p < |order| && Answers(h, order[p], r) ::
          h[r].ret == Reply(h[order[p]].op, Found(h, order, w0, p)))
    && (forall p, q, r | 0 <= p < q < |order| && Answers(h, order[q], r) :: order[p] < r)
    && w == Found(h, order, w0, |order|)
  }

  ghost predicate Linearizable(h: seq<Event>, w0: Word, w: Word) {
    exists order :: Linearizes(h, order, w0, w)
  }

  /** The position of the latest invocation by thread `t`, or -1. */
  ghost function LastCall(h: seq<Event>, t: nat): (i: int)
    ensures -1 <= i < |h|
  {
    if h == [] then -1
    else if h[|h| - 1].Invoke? && h[|h| - 1].tid == t then |h| - 1
    else LastCall(h[..|h| - 1], t)
  }

  /** Thread `t` called `op` at `i` and has done nothing visible since. */
  ghost predicate Open(h: seq<Event>, i: int, t: nat, op: Op) {
    0 <= i < |h| && h[i] == Invoke(t, op) && forall k | i < k < |h| :: h[k].tid != t
  }

  // ----- What each kind of extension does to a linearization

  lemma FoundKept(h: seq<Event>, e: Event, order: seq<nat>, w0: Word, p: nat)
    requires ListsCalls(h, order) && p <= |order|
    ensures ListsCalls(h + [e], order)
    ensures Found(h + [e], order, w0, p) == Found(h, order, w0, p)
  {
    assert Ops(h + [e], order[..p]) == Ops(h, order[..p]);
  }

  lemma AnswersKept(h: seq<Event>, e: Event, i: int, r: int)
    requires r != |h|
    ensures Answers(h + [e], i, r) <==> Answers(h, i, r)
  {
    var h' := h + [e];
    if 0 <= i < r < |h| {
      assert forall k | i <= k <= r :: h'[k] == h[k];
    }
  }

  lemma InvokeKeeps(h: seq<Event>, e: Event, order: seq<nat>, w0: Word, w: Word)
    requires Linearizes(h, order, w0, w) && e.Invoke?
    ensures Linearizes(h + [e], order, w0, w)
  {
    var h' := h + [e];
    forall i, r ensures Answers(h', i, r) <==> Answers(h, i, r) {
      if r != |h| { AnswersKept(h, e, i, r); }
    }
    forall p: nat | p <= |order| ensures Found(h', order, w0, p) == Found(h, order, w0, p) {
      FoundKept(h, e, order, w0, p);
    }
  }

  /** A response adds exactly one answered call: the one its thread had open. */
  lemma RespondAnswers(h: seq<Event>, e: Event, i: int, op: Op)
    requires e.Respond? && Open(h, i, e.tid, op)
    ensures forall j, r :: Answers(h + [e], j, r) <==> Answers(h, j, r) || (j == i && r == |h|)
  {
    var h' := h + [e];
    forall j, r ensures Answers(h', j, r) <==> Answers(h, j, r) || (j == i && r == |h|) {
      if r != |h| {
        AnswersKept(h, e, j, r);
      } else if j < i {
        assert h'[i].tid == e.tid;
      }
    }
  }

  lemma RespondKeeps(h: seq<Event>, e: Event, i: int, op: Op, order: seq<nat>, w0: Word, w: Word)
    requires Linearizes(h, order, w0, w) && e.Respond? && Open(h, i, e.tid, op)
    requires i in order
    requires forall p | 0 <= p < |order| && order[p] == i :: e.ret == Reply(op, Found(h, order, w0, p))
    ensures Linearizes(h + [e], order, w0, w)
  {
    RespondAnswers(h, e, i, op);
    forall p: nat | p <= |order| ensures Found(h + [e], order, w0, p) == Found(h, order, w0, p) {
      FoundKept(h, e, order, w0, p);
    }
  }

  lemma FoundPrefix(h: seq<Event>, order: seq<nat>, i: nat, w0: Word, p: nat)
    requires ListsCalls(h, order) && ListsCalls(h, order + [i]) && p <= |order|
    ensures Found(h, order + [i], w0, p) == Found(h, order, w0, p)
  {
    assert (order + [i])[..p] == order[..p];
  }

  lemma FoundLast(h: seq<Event>, order: seq<nat>, i: nat, w0: Word)
    requires ListsCalls(h, order) && i < |h| && h[i].Invoke?
    ensures ListsCalls(h, order + [i])
    ensures Found(h, order + [i], w0, |order| + 1) == After(h[i].op, Found(h, order, w0, |order|))
  {
    var order' := order + [i];
    assert order'[..|order'|] == order';
    assert order[..|order|] == order;
    assert Ops(h, order') == Ops(h, order) + [h[i].op];
    assert Ops(h, order')[..|order|] == Ops(h, order);
  }

  /** An open call that takes effect now goes last in the order. */
  lemma EffectKeeps(h: seq<Event>, i: nat, t: nat, op: Op, order: seq<nat>, w0: Word, w: Word)
    requires Linearizes(h, order, w0, w) && Open(h, i, t, op) && i !in order
    ensures Linearizes(h, order + [i], w0, After(op, w))
  {
    var order' := order + [i];
    FoundLast(h, order, i, w0);
    forall p: nat | p <= |order| ensures Found(h, order', w0, p) == Found(h, order, w0, p) {
      FoundPrefix(h, order, i, w0, p);
    }
    assert forall r :: !Answers(h, i, r);
  }
}
