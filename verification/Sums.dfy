/** Sums over the threads of a machine. */
module Sums {

  function Sum(ws: seq<nat>): nat {
    if ws == [] then 0 else Sum(ws[..|ws| - 1]) + ws[|ws| - 1]
  }

  lemma {:induction false} SumOfZeros(ws: seq<nat>)
    requires forall t | 0 <= t < |ws| :: ws[t] == 0
    ensures Sum(ws) == 0
  {
    if ws != [] { SumOfZeros(ws[..|ws| - 1]); }
  }

  /** If the others rise by at most `d` each, so does the sum. */
  lemma {:induction false} SumRise(a: seq<nat>, b: seq<nat>, d: nat)
    requires |a| == |b| && forall u | 0 <= u < |a| :: b[u] <= a[u] + d
    ensures Sum(b) <= Sum(a) + d * |a|
  {
    if a != [] {
      var n := |a| - 1;
      SumRise(a[..n], b[..n], d);
      assert d * |a| == d * n + d;
    }
  }

  lemma {:induction false} SumShift(a: seq<nat>, b: seq<nat>, t: nat, d: nat)
    requires |a| == |b| && t < |a| && forall u | 0 <= u < |a| && u != t :: b[u] <= a[u] + d
    ensures Sum(b) + a[t] <= Sum(a) + b[t] + d * (|a| - 1)
  {
    var n := |a| - 1;
    if t == n {
      SumRise(a[..n], b[..n], d);
    } else {
      SumShift(a[..n], b[..n], t, d);
      assert d * n == d * (n - 1) + d;
    }
  }

  lemma SumUpdate(a: seq<nat>, t: nat, v: nat)
    requires t < |a|
    ensures Sum(a[t := v]) + a[t] == Sum(a) + v
  {
    SumShift(a, a[t := v], t, 0);
    SumShift(a[t := v], a, t, 0);
  }

  lemma SumHasPart(a: seq<nat>, t: nat)
    requires t < |a|
    ensures a[t] <= Sum(a)
  {
    SumUpdate(a, t, 0);
  }
}
