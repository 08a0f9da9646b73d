/**
 Circular doubly linked lists as values: who is linked to whom, and which
 sequence of nodes each list stands for.
 */
module Rings {

  /**
   `rings` gives the items of each list, by its head; `owner` gives the head of
   the list that a node, head or item, belongs to; `nx` and `pv` are the links.
   */
  datatype Shape<!N> = Shape(rings: map<N, seq<N>>, owner: map<N, N>, nx: map<N, N>, pv: map<N, N>)

  ghost predicate Distinct<N>(c: seq<N>) {
    forall i, j | 0 <= i < j < |c| :: c[i] != c[j]
  }

  /** `y` is linked behind `x`, both ways. */
  ghost predicate Edge<N>(x: N, y: N, nx: map<N, N>, pv: map<N, N>) {
    x in nx && nx[x] == y && y in pv && pv[y] == x
  }

  /** Every node of the walk is linked to the next one, both ways. */
  ghost predicate Linked<N>(w: seq<N>, nx: map<N, N>, pv: map<N, N>) {
    forall i, j | 0 <= i && j == i + 1 < |w| :: Edge(w[i], w[j], nx, pv)
  }

  /** Once round the list, from the head back to the head. */
  function Walk<N>(h: N, items: seq<N>): seq<N> {
    [h] + items + [h]
  }

  ghost predicate Ring<N>(s: Shape<N>, h: N) {
    && h in s.rings
    && Distinct([h] + s.rings[h])
    && h in s.owner && s.owner[h] == h && (forall n | n in s.rings[h] :: n in s.owner && s.owner[n] == h)
    && Linked(Walk(h, s.rings[h]), s.nx, s.pv)
  }

  /** The node is where its owner says: the head itself or one of its items. */
  ghost predicate Housed<N>(s: Shape<N>, n: N) {
    n in s.owner && s.owner[n] in s.rings && (n == s.owner[n] || n in s.rings[s.owner[n]])
  }

  ghost predicate Well<N>(s: Shape<N>) {
    && (forall h {:trigger Ring(s, h)} | h in s.rings :: Ring(s, h))
    && (forall n {:trigger Housed(s, n)} | n in s.owner :: Housed(s, n))
  }

  // ----- Linking a node in

  lemma InsertDistinct<N>(c: seq<N>, k: nat, item: N)
    requires k <= |c| && Distinct(c) && item !in c
    ensures Distinct(c[..k] + [item] + c[k..])
  {
  }

  /** Four link writes put `item` between two neighbours of a walk. */
  lemma InsertLinked<N>(w: seq<N>, k: nat, item: N, nx: map<N, N>, pv: map<N, N>)
    requires k + 1 < |w| && item !in w && Linked(w, nx, pv)
    requires Distinct(w[..|w| - 1]) && Distinct(w[1..])
    ensures Linked(w[..k + 1] + [item] + w[k + 1..],
                   nx[item := w[k + 1]][w[k] := item], pv[item := w[k]][w[k + 1] := item])
  {
    var w' := w[..k + 1] + [item] + w[k + 1..];
    var nx', pv' := nx[item := w[k + 1]][w[k] := item], pv[item := w[k]][w[k + 1] := item];
    forall i, j | 0 <= i && j == i + 1 < |w'| ensures Edge(w'[i], w'[j], nx', pv') {
      if i < k {
        assert w'[i] == w[i] && w'[j] == w[j];
        assert w[..|w| - 1][i] != w[..|w| - 1][k] && w[1..][i] != w[1..][k];
        assert Edge(w[i], w[j], nx, pv);
      } else if k + 1 < i {
        assert w'[i] == w[i - 1] && w'[j] == w[i];
        assert w[..|w| - 1][i - 1] != w[..|w| - 1][k] && w[1..][i - 1] != w[1..][k];
        assert Edge(w[i - 1], w[i], nx, pv);
      }
    }
  }

  lemma WalkDistinct<N>(h: N, items: seq<N>)
    requires Distinct([h] + items)
    ensures Distinct(Walk(h, items)[..|items| + 1]) && Distinct(Walk(h, items)[1..])
  {
    assert Walk(h, items)[..|items| + 1] == [h] + items;
    assert Walk(h, items)[1..] == items + [h];
    assert forall i | 0 <= i < |items| :: items[i] == ([h] + items)[i + 1];
    assert forall i | 0 <= i < |items| :: items[i] != ([h] + items)[0];
  }

  /** The lists after `item` is linked in as the `k`-th item of `h`. */
  ghost function LinkedIn<N>(s: Shape<N>, h: N, k: nat, item: N): Shape<N>
    requires h in s.rings && k <= |s.rings[h]|
  {
    var items := s.rings[h];
    var before, after := Walk(h, items)[k], Walk(h, items)[k + 1];
    Shape(s.rings[h := items[..k] + [item] + items[k..]], s.owner[item := h],
          s.nx[item := after][before := item], s.pv[item := before][after := item])
  }

  /** A list whose nodes keep their links and owner stays a ring. */
  lemma RingKept<N>(s: Shape<N>, s': Shape<N>, h: N)
    requires Ring(s, h) && h in s'.rings && s'.rings[h] == s.rings[h]
    requires forall n | n in s.owner && s.owner[n] == h ::
        && n in s'.owner && s'.owner[n] == h
        && (n in s.nx ==> n in s'.nx && s'.nx[n] == s.nx[n])
        && (n in s.pv ==> n in s'.pv && s'.pv[n] == s.pv[n])
    ensures Ring(s', h)
  {
    var w := Walk(h, s.rings[h]);
    forall i, j | 0 <= i && j == i + 1 < |w| ensures Edge(w[i], w[j], s'.nx, s'.pv) {
      assert Edge(w[i], w[j], s.nx, s.pv);
      assert w[i] in s.owner && s.owner[w[i]] == h;
      assert w[j] in s.owner && s.owner[w[j]] == h;
    }
  }

  lemma WalkOwned<N>(s: Shape<N>, h: N, k: nat)
    requires Ring(s, h) && k < |Walk(h, s.rings[h])|
    ensures var n := Walk(h, s.rings[h])[k]; n in s.owner && s.owner[n] == h
  {
  }

  lemma WalkInsert<N>(h: N, items: seq<N>, k: nat, item: N)
    requires k <= |items|
    ensures var items', w, c := items[..k] + [item] + items[k..], Walk(h, items), [h] + items;
            && Walk(h, items') == w[..k + 1] + [item] + w[k + 1..]
            && [h] + items' == c[..k + 1] + [item] + c[k + 1..]
  {
    assert Walk(h, items)[..k + 1] == [h] + items[..k] == ([h] + items)[..k + 1];
    assert Walk(h, items)[k + 1..] == items[k..] + [h];
    assert ([h] + items)[k + 1..] == items[k..];
  }

  lemma LinkInRing<N>(s: Shape<N>, h: N, k: nat, item: N)
    requires Ring(s, h) && k <= |s.rings[h]| && item !in s.owner
    ensures Ring(LinkedIn(s, h, k, item), h)
  {
    hide Linked, Distinct;
    var items := s.rings[h];
    var w := Walk(h, items);
    WalkDistinct(h, items);
    WalkInsert(h, items, k, item);
    assert item !in w && item !in [h] + items;
    assert w[..|w| - 1] == w[..|items| + 1];
    InsertLinked(w, k, item, s.nx, s.pv);
    InsertDistinct([h] + items, k + 1, item);
  }

  lemma LinkInKeeps<N>(s: Shape<N>, h: N, k: nat, item: N)
    requires Well(s) && h in s.rings && k <= |s.rings[h]| && item !in s.owner
    ensures Well(LinkedIn(s, h, k, item))
  {
    var s', items := LinkedIn(s, h, k, item), s.rings[h];
    assert Ring(s, h);
    LinkInRing(s, h, k, item);
    WalkOwned(s, h, k);
    WalkOwned(s, h, k + 1);
    forall g | g in s'.rings ensures Ring(s', g) {
      if g != h {
        assert Ring(s, g);
        RingKept(s, s', g);
      }
    }
    forall n | n in s'.owner ensures Housed(s', n) {
      assert n != item ==> Housed(s, n);
      assert forall m | m in items :: m in s'.rings[h];
    }
  }

  // ----- Taking a node out

  lemma DeleteLinked<N>(w: seq<N>, k: nat, nx: map<N, N>, pv: map<N, N>)
    requires 0 < k && k + 1 < |w| && Linked(w, nx, pv)
    requires Distinct(w[..|w| - 1]) && Distinct(w[1..])
    ensures Linked(w[..k] + w[k + 1..], nx[w[k - 1] := w[k + 1]] - {w[k]}, pv[w[k + 1] := w[k - 1]] - {w[k]})
  {
    var w' := w[..k] + w[k + 1..];
    var nx', pv' := nx[w[k - 1] := w[k + 1]] - {w[k]}, pv[w[k + 1] := w[k - 1]] - {w[k]};
    var a, b := w[..|w| - 1], w[1..];
    assert forall i | 0 <= i < |w| - 1 :: a[i] == w[i] && b[i] == w[i + 1];
    assert a[k - 1] != a[k] && b[k - 1] != b[k];
    forall i, j | 0 <= i && j == i + 1 < |w'| ensures Edge(w'[i], w'[j], nx', pv') {
      if i < k - 1 {
        assert Edge(w[i], w[j], nx, pv);
        assert a[i] != a[k] && a[i] != a[k - 1] && b[i] != b[k - 1] && b[i] != b[k];
      } else if k - 1 < i {
        assert w'[i] == w[i + 1] && w'[j] == w[i + 2];
        assert Edge(w[i + 1], w[i + 2], nx, pv);
        assert a[i + 1] != a[k] && a[i + 1] != a[k - 1] && b[i + 1] != b[k - 1] && b[i + 1] != b[k];
      }
    }
  }

  /** A sequence without its `k`-th element. */
  function Drop<N>(items: seq<N>, k: nat): seq<N>
    requires k < |items|
  {
    items[..k] + items[k + 1..]
  }

  /** Where `x` stands; in a list of distinct items there is one such place. */
  ghost function IndexOf<N>(items: seq<N>, x: N): (k: nat)
    requires x in items
    ensures k < |items| && items[k] == x
  {
    var k :| 0 <= k < |items| && items[k] == x;
    k
  }

  ghost function Without<N>(items: seq<N>, x: N): seq<N>
    requires x in items
  {
    Drop(items, IndexOf(items, x))
  }

  lemma DropDistinct<N>(c: seq<N>, k: nat)
    requires k < |c| && Distinct(c)
    ensures Distinct(Drop(c, k)) && c[k] !in Drop(c, k)
    ensures k > 0 ==> c[0] != c[k]
  {
  }

  /** The lists after the `k`-th item of `h` is linked out. */
  ghost function LinkedOut<N>(s: Shape<N>, h: N, k: nat): Shape<N>
    requires h in s.rings && k < |s.rings[h]|
  {
    var items := s.rings[h];
    var item := items[k];
    var before, after := Walk(h, items)[k], Walk(h, items)[k + 2];
    Shape(s.rings[h := Drop(items, k)], s.owner - {item},
          s.nx[before := after] - {item}, s.pv[after := before] - {item})
  }

  lemma WalkDrop<N>(h: N, items: seq<N>, k: nat)
    requires k < |items|
    ensures Walk(h, Drop(items, k)) == Walk(h, items)[..k + 1] + Walk(h, items)[k + 2..]
  {
    assert Walk(h, items)[..k + 1] == [h] + items[..k];
    assert Walk(h, items)[k + 2..] == items[k + 1..] + [h];
  }

  lemma LinkOutRing<N>(s: Shape<N>, h: N, k: nat)
    requires Ring(s, h) && k < |s.rings[h]|
    ensures Ring(LinkedOut(s, h, k), h)
  {
    hide Linked, Distinct;
    var s', items := LinkedOut(s, h, k), s.rings[h];
    var w, c := Walk(h, items), [h] + items;
    WalkDistinct(h, items);
    assert w[..|w| - 1] == w[..|items| + 1];
    DeleteLinked(w, k + 1, s.nx, s.pv);
    WalkDrop(h, items, k);
    assert [h] + Drop(items, k) == Drop(c, k + 1);
    DropDistinct(c, k + 1);
    assert w[k + 1] == items[k] == c[k + 1];
    assert h == c[0];
    forall n | n in Drop(items, k) ensures n in items && n in [h] + Drop(items, k) {
    }
  }

  lemma LinkOutKeeps<N>(s: Shape<N>, h: N, k: nat)
    requires Well(s) && h in s.rings && k < |s.rings[h]|
    ensures Well(LinkedOut(s, h, k))
    ensures s.rings[h][k] in s.owner && s.rings[h][k] !in LinkedOut(s, h, k).owner
  {
    var s', items := LinkedOut(s, h, k), s.rings[h];
    assert Ring(s, h);
    LinkOutRing(s, h, k);
    WalkOwned(s, h, k);
    WalkOwned(s, h, k + 1);
    WalkOwned(s, h, k + 2);
    forall g | g in s'.rings ensures Ring(s', g) {
      if g != h {
        assert Ring(s, g);
        RingKept(s, s', g);
      }
    }
    forall n | n in s'.owner ensures Housed(s', n) {
      assert Housed(s, n);
      if n in items {
        var i :| 0 <= i < |items| && items[i] == n;
        assert n == Drop(items, k)[if i < k then i else i - 1];
      }
    }
  }

  // ----- Taking the head out

  /** The lists after the head of a non-empty list is linked out: its first item takes its place. */
  ghost function Beheaded<N>(s: Shape<N>, h: N): Shape<N>
    requires h in s.rings && s.rings[h] != []
  {
    var items := s.rings[h];
    var first, last := items[0], items[|items| - 1];
    Shape((s.rings - {h})[first := items[1..]],
          map n | n in s.owner && n != h :: if s.owner[n] == h then first else s.owner[n],
          s.nx[last := first] - {h}, s.pv[first := last] - {h})
  }

  /** The same ring, walked from its first item on. */
  lemma RotateLinked<N>(h: N, items: seq<N>, nx: map<N, N>, pv: map<N, N>)
    requires items != [] && Linked(Walk(h, items), nx, pv)
    ensures Linked(items + [h, items[0]], nx, pv)
  {
    var w, w' := Walk(h, items), items + [h, items[0]];
    forall i, j | 0 <= i && j == i + 1 < |w'| ensures Edge(w'[i], w'[j], nx, pv) {
      if j <= |items| {
        assert w'[i] == w[i + 1] && w'[j] == w[j + 1];
        assert Edge(w[i + 1], w[j + 1], nx, pv);
      } else {
        assert w'[i] == w[0] && w'[j] == w[1];
        assert Edge(w[0], w[1], nx, pv);
      }
    }
  }

  lemma RotateDistinct<N>(h: N, items: seq<N>)
    requires items != [] && Distinct([h] + items)
    ensures var w := items + [h, items[0]]; Distinct(w[..|w| - 1]) && Distinct(w[1..])
  {
    var c, w := [h] + items, items + [h, items[0]];
    assert w[..|w| - 1] == items + [h] && w[1..] == items[1..] + [h, items[0]];
    assert c[0] == h && forall i | 0 <= i < |items| :: items[i] == c[i + 1];
  }

  lemma BeheadLinked<N>(h: N, items: seq<N>, nx: map<N, N>, pv: map<N, N>)
    requires items != [] && Distinct([h] + items) && Linked(Walk(h, items), nx, pv)
    ensures var first, last := items[0], items[|items| - 1];
            Linked(Walk(first, items[1..]), nx[last := first] - {h}, pv[first := last] - {h})
  {
    hide Linked, Distinct;
    var w, n := items + [h, items[0]], |items|;
    RotateLinked(h, items, nx, pv);
    RotateDistinct(h, items);
    DeleteLinked(w, n, nx, pv);
    assert w[..n] + w[n + 1..] == Walk(items[0], items[1..]);
  }

  lemma BeheadRing<N>(s: Shape<N>, h: N)
    requires Ring(s, h) && s.rings[h] != []
    ensures Ring(Beheaded(s, h), s.rings[h][0])
  {
    var items, c := s.rings[h], [h] + s.rings[h];
    BeheadLinked(h, items, s.nx, s.pv);
    assert [items[0]] + items[1..] == items == c[1..];
    assert forall i | 0 <= i < |items| :: items[i] == c[i + 1] != c[0];
    forall n | n in items ensures n in s.owner && s.owner[n] == h && n != h {
    }
  }

  lemma BeheadKeeps<N>(s: Shape<N>, h: N)
    requires Well(s) && h in s.rings && s.rings[h] != []
    ensures Well(Beheaded(s, h))
  {
    var s', items := Beheaded(s, h), s.rings[h];
    var first := items[0];
    assert Ring(s, h);
    BeheadRing(s, h);
    forall g | g in s'.rings ensures Ring(s', g) {
      if g != first {
        assert Ring(s, g);
        RingKept(s, s', g);
      }
    }
    forall n | n in s'.owner ensures Housed(s', n) {
      assert Housed(s, n);
      assert first in s.rings ==> Ring(s, first);
      assert n in items ==> n == first || n in items[1..];
    }
  }

  // ----- A new list

  ghost function Started<N>(s: Shape<N>, h: N): Shape<N> {
    Shape(s.rings[h := []], s.owner[h := h], s.nx[h := h], s.pv[h := h])
  }

  lemma StartKeeps<N>(s: Shape<N>, h: N)
    requires Well(s) && (h in s.owner ==> h in s.rings && s.rings[h] == [])
    ensures Well(Started(s, h))
  {
    var s' := Started(s, h);
    forall g | g in s'.rings ensures Ring(s', g) {
      if g != h {
        assert Ring(s, g);
        assert h in s.rings ==> Ring(s, h);
        RingKept(s, s', g);
      } else {
        assert Walk<N>(h, []) == [h, h];
      }
    }
    forall n | n in s'.owner ensures Housed(s', n) {
      assert h in s.rings ==> Ring(s, h);
      assert n in s.owner ==> Housed(s, n);
    }
  }

  // ----- What well-formedness means to a user of the lists

  /** `owner` lists exactly the nodes of all lists, and no node is on two of them. */
  lemma OneListEach<N>(s: Shape<N>, n: N, h: N)
    requires Well(s)
    ensures (n in s.owner && s.owner[n] == h) <==> (h in s.rings && (n == h || n in s.rings[h]))
  {
    if n in s.owner {
      assert Housed(s, n);
    }
    if h in s.rings {
      assert Ring(s, h);
    }
  }

  /** `next` and `prev` undo each other and never leave the list. */
  lemma LinksAreInverse<N>(s: Shape<N>, n: N)
    requires Well(s) && n in s.owner
    ensures n in s.nx && s.nx[n] in s.pv && s.pv[s.nx[n]] == n
    ensures n in s.pv && s.pv[n] in s.nx && s.nx[s.pv[n]] == n
    ensures s.nx[n] in s.owner && s.owner[s.nx[n]] == s.owner[n]
  {
    assert Housed(s, n);
    var h := s.owner[n];
    assert Ring(s, h);
    var items, w := s.rings[h], Walk(h, s.rings[h]);
    var k := if n == h then 0 else 1 + IndexOf(items, n);
    assert Edge(w[k], w[k + 1], s.nx, s.pv);
    WalkOwned(s, h, k + 1);
    if n == h {
      assert Edge(w[|items|], w[|items| + 1], s.nx, s.pv);
    } else {
      assert Edge(w[k - 1], w[k], s.nx, s.pv);
    }
  }

  // ----- Following the links

  /** The node reached from `n` by `k` steps along `next`. */
  ghost function Follow<N>(s: Shape<N>, n: N, k: nat): (m: N)
    requires Well(s) && n in s.owner
    ensures m in s.owner && s.owner[m] == s.owner[n]
  {
    if k == 0 then n else
      var m := Follow(s, n, k - 1);
      LinksAreInverse(s, m);
      s.nx[m]
  }

  lemma {:induction false} FollowWalk<N>(s: Shape<N>, h: N, p: nat, k: nat)
    requires Well(s) && h in s.rings && p + k <= |s.rings[h]| + 1
    requires Walk(h, s.rings[h])[p] in s.owner
    ensures Follow(s, Walk(h, s.rings[h])[p], k) == Walk(h, s.rings[h])[p + k]
  {
    if k > 0 {
      FollowWalk(s, h, p, k - 1);
      var w := Walk(h, s.rings[h]);
      assert Ring(s, h);
      assert Edge(w[p + k - 1], w[p + k], s.nx, s.pv);
    }
  }

  ghost predicate Arrives<N>(s: Shape<N>, list: N, n: N, k: nat)
    requires Well(s) && list in s.rings && n in s.owner
  {
    Follow(s, n, k) == list && forall j | 0 <= j < k :: Follow(s, n, j) in s.rings[list]
  }

  /** From `n`, the links lead through items of `list` only and arrive at its head. */
  ghost predicate WalkStays<N>(s: Shape<N>, list: N, n: N)
    requires Well(s)
  {
    list in s.rings && n in s.owner && exists k: nat :: Arrives(s, list, n, k)
  }

  /** A walk that goes on from `n` stays on a list and ends at its head exactly if `n` is on that list. */
  lemma WalkStaysIff<N>(s: Shape<N>, list: N, n: N)
    requires Well(s)
    ensures WalkStays(s, list, n) <==> list in s.rings && (n == list || n in s.rings[list])
  {
    OneListEach(s, n, list);
    OneListEach(s, list, list);
    if list in s.rings && n == list {
      assert Arrives(s, list, n, 0);
    } else if list in s.rings && n in s.rings[list] {
      var items := s.rings[list];
      var p := IndexOf(items, n);
      var w, k := Walk(list, items), |items| - p;
      forall j | 0 <= j <= k ensures Follow(s, n, j) == w[p + 1 + j] {
        FollowWalk(s, list, p + 1, j);
      }
      assert Arrives(s, list, n, k);
    }
  }
}
