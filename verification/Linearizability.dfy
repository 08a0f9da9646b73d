/** Every run of the machine, on every architecture, is linearizable. */
module Linearizability {
  import opened Atomics
  import opened Histories

  function Visible(s: State, l: Label): seq<Event>
    requires l.Return? ==> l.tid < |s.threads| && s.threads[l.tid].Done?
  {
    match l
    case Call(t, op) => [Invoke(t, op)]
    case Return(t) => [Respond(t, s.threads[t].ret)]
    case _ => []
  }

  /** The calls and returns visible to the callers. */
  ghost function History(arch: Arch, s0: State, r: Run): seq<Event>
    requires Legal(arch, s0, r)
  {
    match r
    case Begin => []
    case Then(before, l) => History(arch, s0, before) + Visible(End(arch, s0, before), l)
  }

  /** The calls in the order in which they took effect. */
  ghost function EffectOrder(arch: Arch, s0: State, r: Run): seq<nat>
    requires Legal(arch, s0, r)
  {
    match r
    case Begin => []
    case Then(before, l) =>
      var order := EffectOrder(arch, s0, before);
      var i := LastCall(History(arch, s0, before), l.tid);
      if Effect(arch, End(arch, s0, before), l) && i >= 0 then order + [i] else order
  }

  /** What is known of a thread: its open call, whether it took effect, and the reply it then owes. */
  ghost predicate Serves(arch: Arch, th: Thread, t: nat, h: seq<Event>, order: seq<nat>, w0: Word)
    requires ListsCalls(h, order)
  {
    th.Idle? ||
    var i := LastCall(h, t);
    && Open(h, i, t, th.op)
    && (Settled(arch, th) <==> i in order)
    && (Settled(arch, th) ==>
          forall p | 0 <= p < |order| && order[p] == i :: Outcome(th) == Reply(th.op, Found(h, order, w0, p)))
  }

  ghost predicate Tracks(arch: Arch, s: State, h: seq<Event>, order: seq<nat>, w0: Word) {
    && Linearizes(h, order, w0, s.word)
    && forall t | 0 <= t < |s.threads| :: Serves(arch, s.threads[t], t, h, order, w0)
  }

  lemma LastCallAppend(h: seq<Event>, e: Event, t: nat)
    ensures LastCall(h + [e], t) == if e.Invoke? && e.tid == t then |h| else LastCall(h, t)
  {
    assert (h + [e])[..|h|] == h;
  }

  /** An event of another thread changes nothing for thread `t`. */
  lemma ServesDespiteEvent(arch: Arch, th: Thread, t: nat, h: seq<Event>, e: Event, order: seq<nat>, w0: Word)
    requires ListsCalls(h, order) && Serves(arch, th, t, h, order, w0) && e.tid != t
    ensures ListsCalls(h + [e], order) && Serves(arch, th, t, h + [e], order, w0)
  {
    LastCallAppend(h, e, t);
    forall p: nat | p <= |order|
      ensures ListsCalls(h + [e], order) && Found(h + [e], order, w0, p) == Found(h, order, w0, p)
    {
      FoundKept(h, e, order, w0, p);
    }
  }

  /** The effect of another thread's call changes nothing for thread `t`. */
  lemma ServesDespiteEffect(arch: Arch, th: Thread, t: nat, h: seq<Event>, i: nat, order: seq<nat>, w0: Word)
    requires ListsCalls(h, order) && Serves(arch, th, t, h, order, w0)
    requires i < |h| && h[i].Invoke? && h[i].tid != t
    ensures ListsCalls(h, order + [i]) && Serves(arch, th, t, h, order + [i], w0)
  {
    forall p: nat | p <= |order|
      ensures ListsCalls(h, order + [i]) && Found(h, order + [i], w0, p) == Found(h, order, w0, p)
    {
      FoundPrefix(h, order, i, w0, p);
    }
  }

  lemma EventTracks(arch: Arch, s: State, l: Label, h: seq<Event>, order: seq<nat>, w0: Word)
    requires Enabled(arch, s, l) && Tracks(arch, s, h, order, w0) && (l.Call? || l.Return?)
    ensures Tracks(arch, Next(arch, s, l), h + Visible(s, l), order, w0)
  {
    var s', e, t := Next(arch, s, l), Visible(s, l)[0], l.tid;
    var i := LastCall(h, t);
    assert h + Visible(s, l) == h + [e];
    if l.Call? {
      InvokeKeeps(h, e, order, w0, s.word);
      LastCallAppend(h, e, t);
      assert |h| !in order;
    } else {
      RespondKeeps(h, e, i, s.threads[t].op, order, w0, s.word);
    }
    forall u | 0 <= u < |s.threads| && u != t ensures Serves(arch, s'.threads[u], u, h + [e], order, w0) {
      ServesDespiteEvent(arch, s.threads[u], u, h, e, order, w0);
    }
  }

  lemma EffectTracks(arch: Arch, s: State, l: Label, h: seq<Event>, order: seq<nat>, w0: Word)
    requires Enabled(arch, s, l) && Coherent(arch, s) && Tracks(arch, s, h, order, w0) && Effect(arch, s, l)
    ensures LastCall(h, l.tid) >= 0
    ensures Tracks(arch, Next(arch, s, l), h, order + [LastCall(h, l.tid)], w0)
  {
    var s', t := Next(arch, s, l), l.tid;
    var i := LastCall(h, t);
    StepMeaning(arch, s, l);
    EffectKeeps(h, i, t, s.threads[t].op, order, w0, s.word);
    FoundPrefix(h, order, i, w0, |order|);
    assert order[..|order|] == order;
    forall u | 0 <= u < |s.threads| && u != t ensures Serves(arch, s'.threads[u], u, h, order + [i], w0) {
      ServesDespiteEffect(arch, s.threads[u], u, h, i, order, w0);
    }
  }

  /** A step that neither shows nor takes effect keeps the thread's call and its settlement. */
  lemma SilentTracks(arch: Arch, s: State, l: Label, h: seq<Event>, order: seq<nat>, w0: Word)
    requires Enabled(arch, s, l) && Coherent(arch, s) && Tracks(arch, s, h, order, w0)
    requires !Effect(arch, s, l) && !l.Call? && !l.Return?
    ensures Tracks(arch, Next(arch, s, l), h, order, w0)
  {
    StepMeaning(arch, s, l);
    SilentStep(arch, s, l);
  }

  lemma {:induction false} RunTracks(arch: Arch, s0: State, w0: Word, r: Run)
    requires Initial(s0, w0) && Legal(arch, s0, r)
    ensures Tracks(arch, End(arch, s0, r), History(arch, s0, r), EffectOrder(arch, s0, r), w0)
  {
    match r
    case Begin =>
      assert Ops([], []) == [];
    case Then(before, l) =>
      RunTracks(arch, s0, w0, before);
      RunKeepsCoherent(arch, s0, w0, before);
      var s, h, order := End(arch, s0, before), History(arch, s0, before), EffectOrder(arch, s0, before);
      if l.Call? || l.Return? {
        EventTracks(arch, s, l, h, order, w0);
      } else {
        assert h + Visible(s, l) == h;
        if Effect(arch, s, l) {
          EffectTracks(arch, s, l, h, order, w0);
        } else {
          SilentTracks(arch, s, l, h, order, w0);
        }
      }
  }

  /**
   Linearizability: whatever the architecture and the schedule, the order in which
   the calls took effect linearizes the history and explains the final word.
   */
  lemma EveryRunLinearizes(arch: Arch, s0: State, w0: Word, r: Run)
    requires Initial(s0, w0) && Legal(arch, s0, r)
    ensures Linearizes(History(arch, s0, r), EffectOrder(arch, s0, r), w0, End(arch, s0, r).word)
  {
    RunTracks(arch, s0, w0, r);
  }

  lemma EveryHistoryIsLinearizable(arch: Arch, s0: State, w0: Word, r: Run)
    requires Initial(s0, w0) && Legal(arch, s0, r)
    ensures Linearizable(History(arch, s0, r), w0, End(arch, s0, r).word)
  {
    EveryRunLinearizes(arch, s0, w0, r);
  }

  // ----- Nothing is lost: a call is answered or its thread is still inside it

  ghost predicate Accounted(s: State, h: seq<Event>, i: nat)
    requires i < |h|
  {
    var t := h[i].tid;
    t < |s.threads| && ((exists r :: Answers(h, i, r)) || (!s.threads[t].Idle? && LastCall(h, t) == i))
  }

  lemma EventAccounts(arch: Arch, s: State, l: Label, h: seq<Event>, e: Event, i: nat)
    requires Enabled(arch, s, l) && Visible(s, l) == [e]
    requires i < |h| && h[i].Invoke? && Accounted(s, h, i)
    requires s.threads[l.tid].Done? ==> Open(h, LastCall(h, l.tid), l.tid, s.threads[l.tid].op)
    ensures Accounted(Next(arch, s, l), h + [e], i)
  {
    LastCallAppend(h, e, h[i].tid);
    if r :| Answers(h, i, r) {
      AnswersKept(h, e, i, r);
    } else if h[i].tid == l.tid {
      RespondAnswers(h, e, i, s.threads[l.tid].op);
      assert Answers(h + [e], i, |h|);
    }
  }

  lemma DoneIsOpen(arch: Arch, s0: State, w0: Word, r: Run, l: Label)
    requires Initial(s0, w0) && Legal(arch, s0, r) && Enabled(arch, End(arch, s0, r), l)
    ensures var s, h := End(arch, s0, r), History(arch, s0, r);
            s.threads[l.tid].Done? ==> Open(h, LastCall(h, l.tid), l.tid, s.threads[l.tid].op)
  {
    hide Linearizes, EffectOrder, History, End;
    RunTracks(arch, s0, w0, r);
  }

  lemma StepAccounts(arch: Arch, s: State, l: Label, h: seq<Event>, i: nat)
    requires Enabled(arch, s, l) && i < |h + Visible(s, l)| && (h + Visible(s, l))[i].Invoke?
    requires i < |h| ==> Accounted(s, h, i)
    requires s.threads[l.tid].Done? ==> Open(h, LastCall(h, l.tid), l.tid, s.threads[l.tid].op)
    ensures Accounted(Next(arch, s, l), h + Visible(s, l), i)
  {
    if i >= |h| {
      LastCallAppend(h, Visible(s, l)[0], l.tid);
    } else if Visible(s, l) == [] {
      assert h + Visible(s, l) == h;
    } else {
      EventAccounts(arch, s, l, h, Visible(s, l)[0], i);
    }
  }

  lemma {:induction false} RunAccounts(arch: Arch, s0: State, w0: Word, r: Run, i: nat)
    requires Initial(s0, w0) && Legal(arch, s0, r)
    requires i < |History(arch, s0, r)| && History(arch, s0, r)[i].Invoke?
    ensures Accounted(End(arch, s0, r), History(arch, s0, r), i)
  {
    hide Accounted, Enabled, Next;
    var s, h := End(arch, s0, r.before), History(arch, s0, r.before);
    if i < |h| {
      RunAccounts(arch, s0, w0, r.before, i);
    }
    DoneIsOpen(arch, s0, w0, r.before, r.step);
    StepAccounts(arch, s, r.step, h, i);
  }

  predicate Quiet(s: State) {
    forall t | 0 <= t < |s.threads| :: s.threads[t].Idle?
  }

  /** Once every thread is idle again, every call has been answered and is in the order. */
  lemma QuietRunAnswersAll(arch: Arch, s0: State, w0: Word, r: Run, i: nat)
    requires Initial(s0, w0) && Legal(arch, s0, r)
    requires Quiet(End(arch, s0, r))
    requires i < |History(arch, s0, r)| && History(arch, s0, r)[i].Invoke?
    ensures exists q :: Answers(History(arch, s0, r), i, q)
    ensures i in EffectOrder(arch, s0, r)
  {
    RunAccounts(arch, s0, w0, r, i);
    EveryRunLinearizes(arch, s0, w0, r);
  }
}
