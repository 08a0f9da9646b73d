/**
 How many references the count can hold: the release protocol is safe up to 2^32 of
 them, and one more lets a put release an object that is still in use.
 */
module ArefLimit {
  import opened Atomics
  import opened Counting
  import opened Sums
  import opened Aref

  lemma OneThreadSum(n: nat)
    ensures Sum([n]) == n
  {
    assert [n][..0] == [];
  }

  lemma {:induction false} AtMostMore(arch: Arch, a0: Shared, r: Moves, n: nat, n': nat)
    requires Proper(arch, a0, r) && AtMost(arch, a0, r, n) && n <= n'
    ensures AtMost(arch, a0, r, n')
  {
    if r.Also? { AtMostMore(arch, a0, r.before, n, n'); }
  }

  /** A lone thread in state `th` owns `now` references and the word is `w`. */
  ghost predicate Adding(arch: Arch, a0: Shared, r: Moves, th: Thread, w: Word, now: nat, limit: nat) {
    && Proper(arch, a0, r) && AtMost(arch, a0, r, limit)
    && var a := Reached(arch, a0, r);
       a.m.threads == [th] && a.m.word == w && a.held == [now] && a.releasing == {} && a.released == 0
  }

  lemma BeginAdd(arch: Arch, a0: Shared, r: Moves, w: Word, n: nat, put: bool, limit: nat) returns (r': Moves)
    requires Adding(arch, a0, r, Idle, w, n, limit) && 0 < n <= limit
    ensures Adding(arch, a0, r', Start(if put then DEC else INC), w, n, limit)
  {
    OneThreadSum(n);
    r' := Also(r, if put then Put(0) else Get(0));
  }

  lemma OneShotAdd(arch: Arch, a0: Shared, r: Moves, op: Op, w: Word, n: nat, limit: nat) returns (r': Moves)
    requires Adding(arch, a0, r, Start(op), w, n, limit) && OneShot(arch, op) && op.Add? && Moved(op, n) <= limit
    ensures Adding(arch, a0, r', Done(op, w), After(op, w), Moved(op, n), limit)
  {
    OneThreadSum(Moved(op, n));
    r' := Also(r, Step(Instr(0)));
  }

  lemma LoadAdd(arch: Arch, a0: Shared, r: Moves, op: Op, w: Word, n: nat, limit: nat) returns (r': Moves)
    requires Adding(arch, a0, r, Start(op), w, n, limit) && !OneShot(arch, op) && op.Add? && n <= limit
    ensures Adding(arch, a0, r', Loaded(op, w), w, n, limit)
    ensures Stores(arch, Reached(arch, a0, r').m, 0, false)
  {
    OneThreadSum(n);
    r' := Also(r, Step(Load(0)));
  }

  lemma StoreAdd(arch: Arch, a0: Shared, r: Moves, op: Op, w: Word, n: nat, limit: nat) returns (r': Moves)
    requires Adding(arch, a0, r, Loaded(op, w), w, n, limit) && op.Add? && Moved(op, n) <= limit
    requires Stores(arch, Reached(arch, a0, r).m, 0, false)
    ensures Adding(arch, a0, r', Tried(op, w, Status(arch, true)), After(op, w), Moved(op, n), limit)
  {
    OneThreadSum(Moved(op, n));
    r' := Also(r, Step(Try(0, false)));
  }

  lemma TestAdd(arch: Arch, a0: Shared, r: Moves, op: Op, w: Word, w': Word, n: nat, limit: nat) returns (r': Moves)
    requires Adding(arch, a0, r, Tried(op, w, Status(arch, true)), w', n, limit) && op.Add? && n <= limit
    ensures Adding(arch, a0, r', Done(op, w), w', n, limit)
  {
    OneThreadSum(n);
    r' := Also(r, Step(Test(0)));
  }

  /** The lone thread runs one whole atomic add and stops just before returning. */
  lemma RunAdd(arch: Arch, a0: Shared, r: Moves, w: Word, n: nat, put: bool, limit: nat) returns (r': Moves)
    requires Adding(arch, a0, r, Idle, w, n, limit) && 0 < n <= limit
    requires put || n < limit
    ensures var op := if put then DEC else INC;
            Adding(arch, a0, r', Done(op, w), After(op, w), if put then n - 1 else n + 1, limit)
  {
    var op := if put then DEC else INC;
    DecUndoesInc(ZERO);
    r' := BeginAdd(arch, a0, r, w, n, put, limit);
    if OneShot(arch, op) {
      r' := OneShotAdd(arch, a0, r', op, w, n, limit);
    } else {
      r' := LoadAdd(arch, a0, r', op, w, n, limit);
      r' := StoreAdd(arch, a0, r', op, w, n, limit);
      r' := TestAdd(arch, a0, r', op, w, After(op, w), Moved(op, n), limit);
    }
  }

  /** A lone thread can gather any number of references. */
  lemma {:induction false} Gather(arch: Arch, a0: Shared, n: nat, limit: nat) returns (r: Moves)
    requires Fresh(a0, 0) && |a0.held| == 1 && 0 < n <= limit
    ensures Adding(arch, a0, r, Idle, WordOf(n), n, limit)
  {
    if n == 1 {
      r := Nothing;
      OneThreadSum(1);
      assert a0.m.threads == [Idle] && a0.held == [1];
      assert WordOf(1) == After(INC, WordOf(0));
    } else {
      r := Gather(arch, a0, n - 1, limit);
      r := RunAdd(arch, a0, r, WordOf(n - 1), n - 1, false, limit);
      OneThreadSum(n);
      DecUndoesInc(ZERO);
      r := Also(r, Step(Return(0)));
    }
  }

  lemma ReturnAndRelease(arch: Arch, a0: Shared, r: Moves, w: Word, n: nat, limit: nat) returns (r': Moves)
    requires Adding(arch, a0, r, Done(DEC, ONE), w, n, limit) && n <= limit
    ensures Proper(arch, a0, r') && AtMost(arch, a0, r', limit)
    ensures Reached(arch, a0, r').released == 1 && Reached(arch, a0, r').held == [n]
  {
    OneThreadSum(n);
    var r1 := Also(r, Step(Return(0)));
    assert Reached(arch, a0, r1).releasing == {0};
    r' := Also(r1, Release(0));
  }

  /** With 2^32 + 1 references, the first put already sees the count one and releases. */
  lemma OneTooMany(arch: Arch, a0: Shared) returns (r: Moves)
    requires Fresh(a0, 0) && |a0.held| == 1
    ensures Proper(arch, a0, r) && AtMost(arch, a0, r, MODULUS + 1)
    ensures Reached(arch, a0, r).released == 1 && References(Reached(arch, a0, r)) == MODULUS
  {
    var n := MODULUS + 1;
    r := Gather(arch, a0, n, n);
    WrapsToOne();
    OneThreadSum(MODULUS);
    r := RunAdd(arch, a0, r, ONE, n, true, n);
    r := ReturnAndRelease(arch, a0, r, After(DEC, ONE), MODULUS, n);
  }

  /** Release never runs while a reference is held, in any run within the limit. */
  ghost predicate NeverEarly(arch: Arch, limit: nat) {
    forall a0, owner, r | Fresh(a0, owner) && Proper(arch, a0, r) && AtMost(arch, a0, r, limit) ::
      Reached(arch, a0, r).released > 0 ==> References(Reached(arch, a0, r)) == 0
  }

  /** The protocol is safe up to 2^32 references and not one further. */
  lemma SafeExactlyUpToModulus(arch: Arch, limit: nat)
    ensures NeverEarly(arch, limit) <==> limit <= MODULUS
  {
    if limit <= MODULUS {
      forall a0, owner, r | Fresh(a0, owner) && Proper(arch, a0, r) && AtMost(arch, a0, r, limit)
        ensures Reached(arch, a0, r).released > 0 ==> References(Reached(arch, a0, r)) == 0
      {
        AtMostMore(arch, a0, r, limit, MODULUS);
        ReleaseRunsOnce(arch, a0, owner, r);
      }
    } else {
      var a0 := Shared(State(ONE, [Idle], {}), [1], {}, 0);
      var r := OneTooMany(arch, a0);
      AtMostMore(arch, a0, r, MODULUS + 1, limit);
      assert Fresh(a0, 0);
    }
  }
}
