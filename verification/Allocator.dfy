/**
 The resource allocator that bitops.h shows in its usage example: find the
 lowest free id, mark it, and clear it again when it is given back.
 */
module Allocator {
  import opened Bitmask

  datatype Request = Allocate | Free(id: nat)

  // ----- What the allocator should do, on plain sets

  /** The lowest id from `k` on that is not live, or -1 if there is none below `n`. */
  function LowestFree(live: set<nat>, k: nat, n: nat): (r: int)
    requires k <= n
    ensures r == -1 || (k <= r < n && r !in live && forall b: nat | k <= b < r :: b in live)
    ensures r == -1 <==> forall b: nat | k <= b < n :: b in live
    decreases n - k
  {
    if k == n then -1 else if k !in live then k else LowestFree(live, k + 1, n)
  }

  /** The ids that are live after the first `k` requests. */
  function LiveAfter(reqs: seq<Request>, n: nat, k: nat): (live: set<nat>)
    requires k <= |reqs|
    ensures forall b | b in live :: b < n
  {
    if k == 0 then {}
    else
      var live := LiveAfter(reqs, n, k - 1);
      match reqs[k - 1]
      case Free(id) => live - {id}
      case Allocate =>
        var id := LowestFree(live, 0, n);
        if id == -1 then live else live + {id}
  }

  /** What the `k`-th request gets: the id handed out (or -1), or the id given back. */
  function Answer(reqs: seq<Request>, n: nat, k: nat): int
    requires k < |reqs|
  {
    match reqs[k]
    case Free(id) => id
    case Allocate => LowestFree(LiveAfter(reqs, n, k), 0, n)
  }

  // ----- What that means for the clients

  /** An id handed out stays live until it is given back. */
  lemma {:induction false} StaysLive(reqs: seq<Request>, n: nat, i: nat, j: nat, id: nat)
    requires i < j <= |reqs| && reqs[i].Allocate? && Answer(reqs, n, i) == id
    requires forall m | i < m < j :: reqs[m] != Free(id)
    ensures id in LiveAfter(reqs, n, j)
  {
    if i + 1 < j {
      StaysLive(reqs, n, i, j - 1, id);
    }
  }

  /** The `i`-th request was handed the id, and none of the further ones before the `k`-th gives it back. */
  ghost predicate Holds(reqs: seq<Request>, n: nat, k: nat, id: nat, i: nat)
    requires k <= |reqs|
  {
    i < k && reqs[i].Allocate? && Answer(reqs, n, i) == id && forall m | i < m < k :: reqs[m] != Free(id)
  }

  /** An id is live exactly if it was handed out and has not been given back since. */
  lemma {:induction false} LiveIff(reqs: seq<Request>, n: nat, k: nat, id: nat)
    requires k <= |reqs|
    ensures id in LiveAfter(reqs, n, k) <==> exists i: nat :: Holds(reqs, n, k, id, i)
  {
    hide LowestFree;
    if i: nat :| Holds(reqs, n, k, id, i) {
      StaysLive(reqs, n, i, k, id);
    }
    if k > 0 && id in LiveAfter(reqs, n, k) {
      if reqs[k - 1].Allocate? && Answer(reqs, n, k - 1) == id {
        assert Holds(reqs, n, k, id, k - 1);
      } else {
        LiveIff(reqs, n, k - 1, id);
        var i: nat :| Holds(reqs, n, k - 1, id, i);
        assert Holds(reqs, n, k, id, i);
      }
    }
  }

  /** Right after a free an allocation succeeds, with the id just freed or a lower one. */
  lemma FreeMakesRoom(reqs: seq<Request>, n: nat, k: nat, id: nat)
    requires k + 1 < |reqs| && reqs[k] == Free(id) && reqs[k + 1].Allocate? && id < n
    ensures 0 <= Answer(reqs, n, k + 1) <= id
  {
    var now := k + 1;
    LiveIff(reqs, n, now, id);
    assert forall i: nat :: !Holds(reqs, n, now, id, i);
  }

  /** No id is handed out twice unless it was given back in between. */
  lemma NeverHandedOutTwice(reqs: seq<Request>, n: nat, i: nat, j: nat)
    requires i < j < |reqs| && reqs[i].Allocate? && reqs[j].Allocate?
    requires Answer(reqs, n, i) == Answer(reqs, n, j) != -1
    ensures exists m :: i < m < j && reqs[m] == Free(Answer(reqs, n, i))
  {
    var id := Answer(reqs, n, i);
    if forall m | i < m < j :: reqs[m] != Free(id) {
      StaysLive(reqs, n, i, j, id);
    }
  }

  function AllIds(n: nat): (ids: set<nat>)
    ensures |ids| == n && forall b: nat :: b in ids <==> b < n
  {
    if n == 0 then {} else AllIds(n - 1) + {n - 1}
  }

  /** Allocation fails exactly when all ids are live. */
  lemma FailsOnlyWhenFull(reqs: seq<Request>, n: nat, k: nat)
    requires k < |reqs| && reqs[k].Allocate?
    ensures Answer(reqs, n, k) == -1 <==> |LiveAfter(reqs, n, k)| == n
  {
    var live := LiveAfter(reqs, n, k);
    var all := AllIds(n);
    assert live <= all;
    if live != all {
      SmallerSubset(live, all);
    }
  }

  // ----- The allocator itself

  lemma LowestFreeIsUnique(words: seq<bv32>, n: nat, r: int)
    requires n <= 32 * |words| && -1 <= r < n
    requires r == -1 <==> FullBelow(words, n)
    requires r >= 0 ==> !Test(words, r) && FullBelow(words, r)
    ensures r == LowestFree(Live(words, n), 0, n)
  {
    hide Test;
    var s := LowestFree(Live(words, n), 0, n);
    assert forall b: nat | b < n :: b in Live(words, n) <==> Test(words, b);
    assert r >= 0 ==> r !in Live(words, n);
    assert s >= 0 ==> !Test(words, s);
  }

  method ServeOne(a: array<bv32>, numBits: nat, req: Request, ghost live: set<nat>) returns (id: int)
    requires numBits <= INT_MAX && WordsFor(numBits) <= a.Length
    requires req.Free? ==> req.id < numBits
    requires Live(a[..], 32 * WordsFor(numBits)) == live && forall b | b in live :: b < numBits
    modifies a
    ensures id == if req.Free? then req.id else LowestFree(live, 0, numBits)
    ensures Live(a[..], 32 * WordsFor(numBits))
         == if req.Free? then live - {req.id} else if id == -1 then live else live + {id}
  {
    hide Test;
    match req
    case Free(b) =>
      id := b;
      Bitmask.Clear(a, b);
    case Allocate =>
      id := Bitmask.Ffz(a, numBits);
      assert Live(a[..], numBits) == live;
      LowestFreeIsUnique(a[..], numBits, id);
      if id != -1 {
        Bitmask.Set(a, id);
      }
  }

  /**
   Any run of allocations and frees from `bitmask_init`: every request gets what the
   set allocator gives it, the bits are its live set, and no padding bit is ever set.
   */
  method Serve(a: array<bv32>, numBits: nat, reqs: seq<Request>) returns (answers: seq<int>)
    requires numBits <= INT_MAX && WordsFor(numBits) <= a.Length
    requires forall k | 0 <= k < |reqs| :: reqs[k].Free? ==> reqs[k].id < numBits
    modifies a
    ensures |answers| == |reqs| && forall k | 0 <= k < |reqs| :: answers[k] == Answer(reqs, numBits, k)
    ensures Live(a[..], 32 * WordsFor(numBits)) == LiveAfter(reqs, numBits, |reqs|)
  {
    hide Test;
    answers := [];
    Bitmask.Init(a, numBits);
    for k := 0 to |reqs|
      invariant |answers| == k && forall i | 0 <= i < k :: answers[i] == Answer(reqs, numBits, i)
      invariant Live(a[..], 32 * WordsFor(numBits)) == LiveAfter(reqs, numBits, k)
    {
      var id := ServeOne(a, numBits, reqs[k], LiveAfter(reqs, numBits, k));
      answers := answers + [id];
    }
  }

  /** After every run, hence in every state a run reaches, the weight is the number of live ids. */
  method LiveCount(a: array<bv32>, numBits: nat, reqs: seq<Request>) returns (answers: seq<int>, weight: int)
    requires numBits <= INT_MAX && WordsFor(numBits) <= a.Length
    requires forall k | 0 <= k < |reqs| :: reqs[k].Free? ==> reqs[k].id < numBits
    modifies a
    ensures |answers| == |reqs| && forall k | 0 <= k < |reqs| :: answers[k] == Answer(reqs, numBits, k)
    ensures weight == |LiveAfter(reqs, numBits, |reqs|)|
  {
    hide Test;
    answers := Serve(a, numBits, reqs);
    weight := Bitmask.Weight(a, numBits);
    assert Live(a[..], numBits) == LiveAfter(reqs, numBits, |reqs|);
    WeightCountsLive(a[..], numBits);
  }
}
