/**
 The bodies of the atomic functions as they are written, one call at a time.
 What the other threads do to the word meanwhile is given as a list of turns,
 one for each attempt; once the list is used up, nobody interferes any more.
 */
module Loops {
  import opened Atomics
  import opened Counting

  class Cell {
    var word: Word

    constructor (w: Word)
      ensures word == w
    {
      word := w;
    }
  }

  /**
   What happens around one attempt: the operations of other threads before its read and
   between its read and its store, and whether the store fails for no reason.
   */
  datatype Turn = Turn(before: seq<Op>, between: seq<Op>, spurious: bool)

  /** The word after the first `k` turns, if this call stores nothing. */
  function Seen(turns: seq<Turn>, k: nat, w: Word): Word
    requires k <= |turns|
    decreases k, 0
  {
    if k == 0 then w else Fold(turns[k - 1].between, AtRead(turns, k - 1, w))
  }

  /** The word that attempt `k` reads. */
  function AtRead(turns: seq<Turn>, k: nat, w: Word): Word
    requires k < |turns|
    decreases k, 1
  {
    Fold(turns[k].before, Seen(turns, k, w))
  }

  /** `found` is the word at some moment of the interference, in turn `used` or just before it. */
  predicate Moment(turns: seq<Turn>, used: nat, w: Word, found: Word) {
    used <= |turns| && (found == Seen(turns, used, w) || (used < |turns| && found == AtRead(turns, used, w)))
  }

  /** Some operation in the list stores to the word, even if it stores the same value. */
  predicate Touches(ops: seq<Op>, w: Word) {
    ops != [] &&
    (Touches(ops[..|ops| - 1], w) ||
     var op := ops[|ops| - 1]; !op.Cas? || Fold(ops[..|ops| - 1], w) == op.oldValue)
  }

  /** Turn `k` makes the store of that attempt fail: it touches the word, or fails spuriously. */
  predicate Disturbs(turns: seq<Turn>, k: nat, w: Word)
    requires k < |turns|
  {
    turns[k].spurious || Touches(turns[k].between, AtRead(turns, k, w))
  }

  lemma {:induction false} UntouchedIsUnchanged(ops: seq<Op>, w: Word)
    requires !Touches(ops, w)
    ensures Fold(ops, w) == w
  {
    if ops != [] { UntouchedIsUnchanged(ops[..|ops| - 1], w); }
  }

  /** One compare-and-swap step: zero exactly when the new value was stored. */
  method CompareAndSwap(cell: Cell, oldValue: Word, newValue: Word) returns (status: Word)
    modifies cell
    ensures status == Reply(Cas(oldValue, newValue), old(cell.word))
    ensures cell.word == After(Cas(oldValue, newValue), old(cell.word))
  {
    var prev := cell.word;
    if prev == oldValue {
      cell.word := newValue;
    }
    status := if prev != oldValue then ONE else ZERO;
  }

  /** The value changed under every attempt before the last of the first `used` ones. */
  predicate AllStale(turns: seq<Turn>, used: nat, w: Word)
    requires used <= |turns|
  {
    forall k | 0 <= k < used :: Seen(turns, k + 1, w) != AtRead(turns, k, w)
  }

  /**
   The read-then-CAS loop of add, and, or.  The operation happens once, at its
   successful CAS, on the word that the other threads left there: in the first
   turn at whose end the word is back at the value read, whatever it was in between.
   */
  method CasLoop(cell: Cell, op: Op, turns: seq<Turn>) returns (prev: Word, used: nat)
    requires !op.Cas?
    modifies cell
    ensures used <= |turns| && prev == Seen(turns, used, old(cell.word))
    ensures cell.word == After(op, prev)
    ensures AllStale(turns, if used == 0 then 0 else used - 1, old(cell.word))
    ensures used < |turns| ==> used > 0 && prev == AtRead(turns, used - 1, old(cell.word))
  {
    hide Fold;
    used := 0;
    ghost var w := cell.word;
    var status := ONE;
    prev := cell.word;
    while status != ZERO
      invariant used <= |turns| && (status == ZERO || status == ONE)
      invariant status == ONE ==> cell.word == Seen(turns, used, w) && AllStale(turns, used, w)
      invariant status == ZERO ==>
          && prev == Seen(turns, used, w) && cell.word == After(op, prev)
          && AllStale(turns, if used == 0 then 0 else used - 1, w)
          && (used < |turns| ==> used > 0 && prev == AtRead(turns, used - 1, w))
      decreases |turns| - used, status == ONE
    {
      if used < |turns| {
        cell.word := Fold(turns[used].before, cell.word);
      }
      prev := cell.word;
      if used < |turns| {
        cell.word := Fold(turns[used].between, cell.word);
        used := used + 1;
      }
      status := CompareAndSwap(cell, prev, Target(op, prev));
    }
  }

  predicate AllDisturbed(turns: seq<Turn>, used: nat, w: Word)
    requires used <= |turns|
  {
    forall k | 0 <= k < used :: Disturbs(turns, k, w)
  }

  /**
   The load-linked/store-conditional loop of arm and mips, for every operation and for
   any pattern of spurious failures.  Each architecture reads its own status
   convention, and both do the operation exactly once, on the word found there: at the
   first attempt that nothing disturbs, or whose comparison already fails.
   */
  method LlScLoop(arch: Arch, cell: Cell, op: Op, turns: seq<Turn>) returns (ret: Word, found: Word, used: nat)
    requires LlSc(arch)
    modifies cell
    ensures ret == Reply(op, found) && cell.word == After(op, found)
    ensures used <= |turns| && Moment(turns, used, old(cell.word), found)
    ensures AllDisturbed(turns, if used == 0 then 0 else used - 1, old(cell.word))
    ensures used < |turns| ==>
              || (SkipsStore(arch, op, found) && found == AtRead(turns, used, old(cell.word)))
              || (used > 0 && found == Seen(turns, used, old(cell.word)) && !Disturbs(turns, used - 1, old(cell.word)))
  {
    hide Fold, Touches;
    used := 0;
    ghost var w := cell.word;
    var prev := cell.word;
    var status := Status(arch, false);
    while Retries(arch, status)
      invariant used <= |turns| && (status == Status(arch, false) || status == Status(arch, true))
      invariant status == Status(arch, false) ==> cell.word == Seen(turns, used, w) && AllDisturbed(turns, used, w)
      invariant status == Status(arch, true) ==>
          && Moment(turns, used, w, prev) && cell.word == After(op, prev)
          && AllDisturbed(turns, if used == 0 then 0 else used - 1, w)
          && (used < |turns| ==>
                || (SkipsStore(arch, op, prev) && prev == AtRead(turns, used, w))
                || (used > 0 && prev == Seen(turns, used, w) && !Disturbs(turns, used - 1, w)))
      decreases |turns| - used, Retries(arch, status)
    {
      if used < |turns| {
        cell.word := Fold(turns[used].before, cell.word);
      }
      prev := cell.word;
      if SkipsStore(arch, op, prev) {
        status := Status(arch, true);
      } else {
        var reserved := true;
        if used < |turns| {
          var turn := turns[used];
          reserved := !Touches(turn.between, cell.word) && !turn.spurious;
          if !Touches(turn.between, cell.word) {
            UntouchedIsUnchanged(turn.between, cell.word);
          }
          cell.word := Fold(turn.between, cell.word);
          used := used + 1;
          assert prev == AtRead(turns, used - 1, w) && cell.word == Seen(turns, used, w);
        }
        status := Status(arch, reserved);
        if reserved {
          cell.word := Target(op, prev);
        }
      }
    }
    ret := Result(op, prev);
    found := prev;
  }

  /** `android_atomic_add` of each architecture: one addition at one moment of the interference. */
  method AtomicAdd(arch: Arch, cell: Cell, increment: Word, turns: seq<Turn>) returns (prev: Word, used: nat)
    modifies cell
    ensures Moment(turns, used, old(cell.word), prev)
    ensures cell.word == After(Add(increment), prev)
  {
    hide Fold, After;
    match arch
    case Arm64 =>
      prev, used := CasLoop(cell, Add(increment), turns);
    case X86_64 =>
      used := 0;
      if |turns| > 0 {
        cell.word := Fold(turns[0].before, cell.word);
      }
      prev := cell.word;
      cell.word := After(Add(increment), prev);
    case _ =>
      var found;
      prev, found, used := LlScLoop(arch, cell, Add(increment), turns);
  }

  method ArefGet(arch: Arch, cell: Cell, turns: seq<Turn>) returns (ghost found: Word, used: nat)
    modifies cell
    ensures Moment(turns, used, old(cell.word), found)
    ensures cell.word == After(INC, found)
  {
    var prev;
    prev, used := AtomicAdd(arch, cell, ONE, turns);
    found := prev;
  }

  lemma LastReference(w: Word)
    ensures After(DEC, w) == ZERO <==> w == ONE
  {
  }

  /** `aref_put`: it calls release exactly when its decrement found the count at one. */
  method ArefPut(arch: Arch, cell: Cell, turns: seq<Turn>) returns (releases: bool, ghost found: Word, used: nat)
    modifies cell
    ensures Moment(turns, used, old(cell.word), found)
    ensures cell.word == After(DEC, found)
    ensures releases <==> found == ONE
    ensures releases <==> cell.word == ZERO
  {
    var prev;
    prev, used := AtomicAdd(arch, cell, W(0xFFFF_FFFF), turns);
    found := prev;
    releases := prev == ONE;
    LastReference(prev);
  }
}
