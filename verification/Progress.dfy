/**
 Progress of the retry loops: no schedule of finitely many calls runs for ever
 unless store-conditionals keep failing spuriously, a failed attempt is always
 somebody else's success, and no thread is ever stuck.
 */
module Progress {
  import opened Atomics
  import opened Histories
  import opened Linearizability
  import opened Sums

  // ----- A rank that every step lowers

  /** A snapshot that can no longer be stored over. */
  predicate Stale(arch: Arch, s: State, t: nat)
    requires t < |s.threads|
  {
    s.threads[t].Loaded? && !Settled(arch, s.threads[t]) && !Stores(arch, s, t, false)
  }

  function Weight(arch: Arch, s: State, t: nat): nat
    requires t < |s.threads|
  {
    var th := s.threads[t];
    (if th.Idle? || Settled(arch, th) then 0 else 3 * |s.threads|) +
    match th
    case Idle => 0
    case Done(_, _) => 1
    case Tried(_, _, status) => if Retries(arch, status) then 5 else 2
    case Loaded(_, _) => if Stale(arch, s, t) then 6 else 3
    case Start(_) => 4
  }

  function Weights(arch: Arch, s: State): (ws: seq<nat>)
    ensures |ws| == |s.threads| && forall t | 0 <= t < |ws| :: ws[t] == Weight(arch, s, t)
  {
    seq(|s.threads|, t requires 0 <= t < |s.threads| => Weight(arch, s, t))
  }

  function Rank(arch: Arch, s: State): nat {
    Sum(Weights(arch, s))
  }

  /** How much the other threads' weights can rise in one step. */
  function Disturbance(arch: Arch, s: State, l: Label): nat
    requires Enabled(arch, s, l)
  {
    if Effect(arch, s, l) && !l.Load? then 3 else 0
  }

  lemma OthersRise(arch: Arch, s: State, l: Label, u: nat)
    requires Enabled(arch, s, l) && u < |s.threads| && u != l.tid
    ensures Weight(arch, Next(arch, s, l), u) <= Weight(arch, s, u) + Disturbance(arch, s, l)
  {
    if !Effect(arch, s, l) || l.Load? {
      assert Next(arch, s, l).word == s.word;
      assert u in Next(arch, s, l).monitors <==> u in s.monitors;
    }
  }

  /** What a step may add to the rank: only a new call and a spurious failure add anything. */
  function Allowance(s: State, l: Label): int {
    match l
    case Call(_, _) => 4 + 3 * |s.threads|
    case Try(_, spurious) => if spurious then 2 else -1
    case _ => -1
  }

  lemma OwnChange(arch: Arch, s: State, l: Label)
    requires Enabled(arch, s, l) && Coherent(arch, s)
    ensures Weight(arch, Next(arch, s, l), l.tid) + Disturbance(arch, s, l) * (|s.threads| - 1)
            <= Weight(arch, s, l.tid) + Allowance(s, l)
  {
  }

  lemma StepLowersRank(arch: Arch, s: State, l: Label)
    requires Enabled(arch, s, l) && Coherent(arch, s)
    ensures Rank(arch, Next(arch, s, l)) <= Rank(arch, s) + Allowance(s, l)
  {
    hide Weight, Sum, Disturbance, Allowance;
    var s' := Next(arch, s, l);
    forall u | 0 <= u < |s.threads| && u != l.tid
      ensures Weights(arch, s')[u] <= Weights(arch, s)[u] + Disturbance(arch, s, l)
    {
      OthersRise(arch, s, l, u);
    }
    OwnChange(arch, s, l);
    SumShift(Weights(arch, s), Weights(arch, s'), l.tid, Disturbance(arch, s, l));
  }

  // ----- Every schedule ends

  function Steps(r: Run): nat {
    match r case Begin => 0 case Then(b, _) => Steps(b) + 1
  }

  function Calls(r: Run): nat {
    match r case Begin => 0 case Then(b, l) => Calls(b) + if l.Call? then 1 else 0
  }

  function SpuriousFailures(r: Run): nat {
    match r case Begin => 0 case Then(b, l) => SpuriousFailures(b) + if l.Try? && l.spurious then 1 else 0
  }

  /** The length of any schedule is bounded by its calls and its spurious failures alone. */
  lemma {:induction false} ScheduleIsBounded(arch: Arch, s0: State, w0: Word, r: Run)
    requires Initial(s0, w0) && Legal(arch, s0, r)
    ensures Steps(r) + Rank(arch, End(arch, s0, r)) <= (5 + 3 * |s0.threads|) * Calls(r) + 3 * SpuriousFailures(r)
  {
    match r
    case Begin => SumOfZeros(Weights(arch, s0));
    case Then(before, l) =>
      ScheduleIsBounded(arch, s0, w0, before);
      RunKeepsCoherent(arch, s0, w0, before);
      StepLowersRank(arch, End(arch, s0, before), l);
      var k := 5 + 3 * |s0.threads|;
      assert k * (Calls(before) + 1) == k * Calls(before) + k;
  }

  /** No thread is ever stuck: inside a call it has a step that is neither a call nor a spurious failure. */
  lemma NeverStuck(arch: Arch, s: State, t: nat)
    requires t < |s.threads| && !s.threads[t].Idle?
    ensures exists l: Label :: l.tid == t && Enabled(arch, s, l) && !l.Call? && !(l.Try? && l.spurious)
  {
    var th := s.threads[t];
    var l := match th
      case Start(op) => if OneShot(arch, op) then Instr(t) else Load(t)
      case Loaded(_, _) => Try(t, false)
      case Tried(_, _, _) => Test(t)
      case Done(_, _) => Return(t)
      case Idle => Load(t);
    assert Enabled(arch, s, l);
  }

  /** A run that can only go on by making new calls has answered every call made. */
  lemma StalledRunIsComplete(arch: Arch, s0: State, w0: Word, r: Run, i: nat)
    requires Initial(s0, w0) && Legal(arch, s0, r)
    requires forall l: Label | Enabled(arch, End(arch, s0, r), l) :: l.Call?
    requires i < |History(arch, s0, r)| && History(arch, s0, r)[i].Invoke?
    ensures exists q :: Answers(History(arch, s0, r), i, q)
  {
    var s := End(arch, s0, r);
    forall t | 0 <= t < |s.threads| ensures s.threads[t].Idle? {
      if !s.threads[t].Idle? { NeverStuck(arch, s, t); }
    }
    QuietRunAnswersAll(arch, s0, w0, r, i);
  }

  // ----- A failed attempt is another thread's success

  /** A try that the hardware carried out and that did not store. */
  predicate FailedTry(arch: Arch, s: State, l: Label, t: nat)
    requires Enabled(arch, s, l)
  {
    l == Try(t, false) && !Stores(arch, s, t, false) && !SkipsStore(arch, s.threads[t].op, s.threads[t].prev)
  }

  /** For a CAS loop, a success that changed the value; for LL/SC, any successful store. */
  predicate Interferes(arch: Arch, s: State, l: Label, t: nat)
    requires Enabled(arch, s, l)
  {
    l.tid != t && Effect(arch, s, l) && if LlSc(arch) then l.Try? else Next(arch, s, l).word != s.word
  }

  ghost function FailedTries(arch: Arch, s0: State, r: Run, t: nat): nat
    requires Legal(arch, s0, r)
  {
    match r
    case Begin => 0
    case Then(b, l) => FailedTries(arch, s0, b, t) + if FailedTry(arch, End(arch, s0, b), l, t) then 1 else 0
  }

  ghost function Interferences(arch: Arch, s0: State, r: Run, t: nat): nat
    requires Legal(arch, s0, r)
  {
    match r
    case Begin => 0
    case Then(b, l) => Interferences(arch, s0, b, t) + if Interferes(arch, End(arch, s0, b), l, t) then 1 else 0
  }

  lemma StaleOnlyByInterference(arch: Arch, s: State, l: Label, t: nat)
    requires Enabled(arch, s, l) && Coherent(arch, s) && t < |s.threads|
    ensures Stale(arch, Next(arch, s, l), t) ==> l.tid != t && (Stale(arch, s, t) || Interferes(arch, s, l, t))
    ensures FailedTry(arch, s, l, t) ==> Stale(arch, s, t)
  {
    StepMeaning(arch, s, l);
    if l.tid != t && !Stale(arch, s, t) && !Interferes(arch, s, l, t) {
      assert LlSc(arch) ==> (t in s.monitors <==> t in Next(arch, s, l).monitors);
    }
  }

  /** One thread's failed attempts never outnumber the interfering successes of the others. */
  lemma {:induction false} FailuresArePaidFor(arch: Arch, s0: State, w0: Word, r: Run, t: nat)
    requires Initial(s0, w0) && Legal(arch, s0, r) && t < |s0.threads|
    ensures |End(arch, s0, r).threads| == |s0.threads|
    ensures FailedTries(arch, s0, r, t) + (if Stale(arch, End(arch, s0, r), t) then 1 else 0)
            <= Interferences(arch, s0, r, t)
  {
    RunKeepsCoherent(arch, s0, w0, r);
    if r.Then? {
      FailuresArePaidFor(arch, s0, w0, r.before, t);
      RunKeepsCoherent(arch, s0, w0, r.before);
      StaleOnlyByInterference(arch, End(arch, s0, r.before), r.step, t);
    }
  }
}
