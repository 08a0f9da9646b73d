/**
 The atomic operations of cutils on one shared 32-bit word, as a step machine
 for any number of threads.  Every access to the word is one step and steps of
 different threads interleave freely (sequentially consistent memory).

 The four architecture files differ in how an operation reaches the word:
  - arm64 has a one-step compare-and-swap and builds add, and, or as
    read-then-CAS retry loops;
  - x86_64 has one-step cmpxchg and xadd and builds and, or as CAS loops;
  - arm and mips build everything, CAS included, from load-linked and
    store-conditional, and disagree on what the status register means.
 */
module Atomics {

  /** One 32-bit machine word; addition wraps around. */
  datatype Word = W(bits: bv32)

  const ZERO := W(0)
  const ONE := W(1)

  datatype Arch = Arm64 | X86_64 | Arm | Mips

  datatype Op =
    | Add(value: Word)
    | And(value: Word)
    | Or(value: Word)
    | Cas(oldValue: Word, newValue: Word)

  // ----- The sequential contract that all architectures share (atomic.h)

  /** Addition of words wraps around. */
  function Plus(x: bv32, y: bv32): bv32 {
    x + y
  }

  function Meet(x: bv32, y: bv32): bv32 {
    x & y
  }

  function Join(x: bv32, y: bv32): bv32 {
    x | y
  }

  /** The word after one operation runs alone. */
  function After(op: Op, w: Word): Word {
    match op
    case Add(v) => W(Plus(w.bits, v.bits))
    case And(v) => W(Meet(w.bits, v.bits))
    case Or(v) => W(Join(w.bits, v.bits))
    case Cas(o, n) => if w == o then n else w
  }

  /** What the operation returns: the previous value, or zero for a CAS that stored. */
  function Reply(op: Op, w: Word): Word {
    match op
    case Cas(o, _) => if w == o then ZERO else ONE
    case _ => w
  }

  /** The word after a sequence of operations, run one at a time. */
  function Fold(ops: seq<Op>, w: Word): Word {
    if ops == [] then w else After(ops[|ops| - 1], Fold(ops[..|ops| - 1], w))
  }

  // ----- Which code an operation runs

  predicate LlSc(arch: Arch) {
    arch.Arm? || arch.Mips?
  }

  /** One locked instruction (or compiler builtin) does the whole operation. */
  predicate OneShot(arch: Arch, op: Op) {
    match arch
    case Arm64 => op.Cas?
    case X86_64 => op.Cas? || op.Add?
    case _ => false
  }

  /** The value that the loop body tries to store over `prev`. */
  function Target(op: Op, prev: Word): Word {
    match op
    case Cas(_, n) => n
    case _ => After(op, prev)
  }

  /** The value the C function returns once its loop has ended with `prev`. */
  function Result(op: Op, prev: Word): Word {
    match op
    case Cas(o, _) => if prev != o then ONE else ZERO
    case _ => prev
  }

  /** The comparison inside an LL/SC compare-and-swap failed: it skips the store. */
  predicate SkipsStore(arch: Arch, op: Op, prev: Word) {
    LlSc(arch) && op.Cas? && prev != op.oldValue
  }

  /** The status register after the body, by whether it may leave the loop. */
  function Status(arch: Arch, leave: bool): Word {
    match arch
    case Mips => if leave then ONE else ZERO
    case _ => if leave then ZERO else ONE
  }

  /** The `while` condition of the retry loop. */
  predicate Retries(arch: Arch, status: Word) {
    match arch
    case Mips => status == ZERO
    case _ => status != ZERO
  }

  /** On arm a store-conditional answers zero if it stored, on mips one; each loop reads its own convention. */
  lemma StatusConventions()
    ensures Status(Arm, true) == W(0) && Status(Mips, true) == W(1) && Status(Mips, false) == W(0)
    ensures forall status :: Retries(Arm, status) <==> status != W(0)
    ensures forall status :: Retries(Mips, status) <==> status == W(0)
    ensures forall arch, leave :: Retries(arch, Status(arch, leave)) <==> !leave
  {
  }

  // ----- The machine

  datatype Thread =
    | Idle
    | Start(op: Op)                               // about to read the word
    | Loaded(op: Op, prev: Word)                  // about to try the store
    | Tried(op: Op, prev: Word, status: Word)     // about to test the status
    | Done(op: Op, ret: Word)                     // about to return

  /** `monitors` holds the threads whose exclusive monitor is still open. */
  datatype State = State(word: Word, threads: seq<Thread>, monitors: set<nat>)

  datatype Label =
    | Call(tid: nat, op: Op)
    | Load(tid: nat)
    | Try(tid: nat, spurious: bool)
    | Test(tid: nat)
    | Instr(tid: nat)
    | Return(tid: nat)

  predicate Initial(s: State, w: Word) {
    s.word == w && s.monitors == {} && forall t | 0 <= t < |s.threads| :: s.threads[t].Idle?
  }

  predicate Enabled(arch: Arch, s: State, l: Label) {
    && l.tid < |s.threads|
    && var th := s.threads[l.tid];
       match l
       case Call(_, _) => th.Idle?
       case Load(_) => th.Start? && !OneShot(arch, th.op)
       case Try(_, spurious) => th.Loaded? && (spurious ==> LlSc(arch) && !SkipsStore(arch, th.op, th.prev))
       case Test(_) => th.Tried?
       case Instr(_) => th.Start? && OneShot(arch, th.op)
       case Return(_) => th.Done?
  }

  /** Whether this attempt stores: the CAS compares equal, or the monitor is still open. */
  predicate Stores(arch: Arch, s: State, t: nat, spurious: bool)
    requires t < |s.threads| && s.threads[t].Loaded?
  {
    if LlSc(arch) then
      !SkipsStore(arch, s.threads[t].op, s.threads[t].prev) && t in s.monitors && !spurious
    else
      s.word == s.threads[t].prev
  }

  function Next(arch: Arch, s: State, l: Label): State
    requires Enabled(arch, s, l)
  {
    var t := l.tid;
    var th := s.threads[t];
    match l
    case Call(_, op) => s.(threads := s.threads[t := Start(op)])
    case Load(_) =>
      s.(threads := s.threads[t := Loaded(th.op, s.word)],
         monitors := if LlSc(arch) then s.monitors + {t} else s.monitors)
    case Try(_, spurious) =>
      if Stores(arch, s, t, spurious) then
        State(Target(th.op, th.prev), s.threads[t := Tried(th.op, th.prev, Status(arch, true))], {})
      else if SkipsStore(arch, th.op, th.prev) then
        s.(threads := s.threads[t := Tried(th.op, th.prev, Status(arch, true))])
      else
        s.(threads := s.threads[t := Tried(th.op, th.prev, Status(arch, false))], monitors := s.monitors - {t})
    case Test(_) =>
      s.(threads := s.threads[t := if Retries(arch, th.status) then Start(th.op) else Done(th.op, Result(th.op, th.prev))])
    case Instr(_) =>
      s.(word := After(th.op, s.word), threads := s.threads[t := Done(th.op, Reply(th.op, s.word))])
    case Return(_) => s.(threads := s.threads[t := Idle])
  }

  // ----- Runs

  /** A finite schedule, latest step outermost. */
  datatype Run = Begin | Then(before: Run, step: Label)

  ghost predicate Legal(arch: Arch, s0: State, r: Run)
    decreases r, 0
  {
    r.Then? ==> Legal(arch, s0, r.before) && Enabled(arch, End(arch, s0, r.before), r.step)
  }

  ghost function End(arch: Arch, s0: State, r: Run): State
    requires Legal(arch, s0, r)
    decreases r, 1
  {
    match r
    case Begin => s0
    case Then(before, l) => Next(arch, End(arch, s0, before), l)
  }

  // ----- Where an operation takes effect

  /** The thread's operation has already taken effect, and its reply is settled. */
  predicate Settled(arch: Arch, th: Thread) {
    match th
    case Loaded(op, prev) => SkipsStore(arch, op, prev)
    case Tried(_, _, status) => !Retries(arch, status)
    case Done(_, _) => true
    case _ => false
  }

  /** The reply that a settled thread will deliver. */
  function Outcome(th: Thread): Word
    requires th.Loaded? || th.Tried? || th.Done?
  {
    if th.Done? then th.ret else Result(th.op, th.prev)
  }

  /** The step at which the operation of its thread takes effect. */
  predicate Effect(arch: Arch, s: State, l: Label)
    requires Enabled(arch, s, l)
  {
    match l
    case Instr(_) => true
    case Load(t) => SkipsStore(arch, s.threads[t].op, s.word)
    case Try(t, spurious) => Stores(arch, s, t, spurious)
    case _ => false
  }

  /**
   An open monitor guarantees that the word has not changed since the load, and
   only operations that are built as loops are ever inside one.
   */
  ghost predicate Coherent(arch: Arch, s: State) {
    && (!LlSc(arch) ==> s.monitors == {})
    && (forall t | 0 <= t < |s.threads| && s.threads[t].Loaded? :: !OneShot(arch, s.threads[t].op))
    && forall t | t in s.monitors && t < |s.threads| && s.threads[t].Loaded? :: s.threads[t].prev == s.word
  }

  lemma StepKeepsCoherent(arch: Arch, s: State, l: Label)
    requires Enabled(arch, s, l) && Coherent(arch, s)
    ensures Coherent(arch, Next(arch, s, l))
  {
    var s' := Next(arch, s, l);
    match l
    case Try(t, spurious) => assert Stores(arch, s, t, spurious) ==> s'.monitors == {};
    case _ =>
  }

  /** One step either applies the sequential contract of its thread's operation or leaves the word alone. */
  lemma StepMeaning(arch: Arch, s: State, l: Label)
    requires Enabled(arch, s, l) && Coherent(arch, s)
    ensures var s' := Next(arch, s, l);
            if Effect(arch, s, l) then
              && !Settled(arch, s.threads[l.tid]) && Settled(arch, s'.threads[l.tid])
              && s'.threads[l.tid].op == s.threads[l.tid].op
              && s'.word == After(s.threads[l.tid].op, s.word)
              && Outcome(s'.threads[l.tid]) == Reply(s.threads[l.tid].op, s.word)
            else
              s'.word == s.word
  {
    match l
    case Try(t, spurious) =>
      var th := s.threads[t];
      if Stores(arch, s, t, spurious) {
        assert th.prev == s.word;
      }
    case _ =>
  }

  /** A step without effect or visible event keeps the thread's call, and any reply already settled. */
  lemma SilentStep(arch: Arch, s: State, l: Label)
    requires Enabled(arch, s, l) && Coherent(arch, s) && !Effect(arch, s, l) && !l.Call? && !l.Return?
    ensures var th, th' := s.threads[l.tid], Next(arch, s, l).threads[l.tid];
            && !th.Idle? && !th'.Idle? && th'.op == th.op
            && (Settled(arch, th') <==> Settled(arch, th))
            && (Settled(arch, th) ==> Outcome(th') == Outcome(th))
  {
  }

  lemma {:induction false} RunKeepsCoherent(arch: Arch, s0: State, w0: Word, r: Run)
    requires Initial(s0, w0) && Legal(arch, s0, r)
    ensures Coherent(arch, End(arch, s0, r)) && |End(arch, s0, r).threads| == |s0.threads|
  {
    if r.Then? {
      RunKeepsCoherent(arch, s0, w0, r.before);
      StepKeepsCoherent(arch, End(arch, s0, r.before), r.step);
    }
  }
}
