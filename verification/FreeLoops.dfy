/**
 The loop of `list_for_each_safe` with a body that may edit any lists in any way: which
 nodes it visits, and exactly when it ends.
 */
module FreeLoops {
  import opened Rings
  import opened Lists

  // ----- Lists as tables

  /** The node is on at most one list. */
  ghost predicate OneList(rings: Table, n: Node) {
    forall g, h | g in rings && h in rings && OnList(rings, g, n) && OnList(rings, h, n) :: g == h
  }

  /** The nodes of one list are different from each other, and are on no other list. */
  ghost predicate Neat(rings: Table, h: Node)
    requires h in rings
  {
    Distinct([h] + rings[h]) && OneList(rings, h) && forall n | n in rings[h] :: OneList(rings, n)
  }

  ghost predicate Tidy(rings: Table) {
    forall h {:trigger Neat(rings, h)} | h in rings :: Neat(rings, h)
  }

  lemma TidyOne(rings: Table, n: Node)
    requires Tidy(rings)
    ensures OneList(rings, n)
  {
    forall g, h | g in rings && h in rings && OnList(rings, g, n) && OnList(rings, h, n) ensures g == h {
      assert Neat(rings, g);
    }
  }

  lemma OneEachIsTidy(rings: Table)
    requires forall h | h in rings :: Distinct([h] + rings[h])
    requires forall n :: OneList(rings, n)
    ensures Tidy(rings)
  {
    forall h | h in rings ensures Neat(rings, h) {
    }
  }

  lemma OnListWithout(h: Node, items: seq<Node>, i: Node, n: Node)
    requires Distinct([h] + items) && i in items
    ensures Distinct([h] + Without(items, i)) && h != i
    ensures n in Without(items, i) <==> n in items && n != i
  {
    var k := IndexOf(items, i);
    var c := [h] + items;
    assert c[k + 1] == i && c[0] == h;
    DropDistinct(c, k + 1);
    assert Rings.Drop(c, k + 1) == [h] + Without(items, i);
    if n in items && n != i {
      var j := IndexOf(items, n);
      assert j != k;
      assert Without(items, i)[if j < k then j else j - 1] == n;
    }
    assert n in Without(items, i) ==> n in Rings.Drop(c, k + 1);
  }

  lemma PushKeepsTidy(rings: Table, h: Node, i: Node, items: seq<Node>)
    requires Tidy(rings) && h in rings && Loose(rings, i)
    requires items == rings[h] + [i] || items == [i] + rings[h]
    ensures Tidy(rings[h := items])
  {
    var rings', c := rings[h := items], [h] + rings[h];
    var k := if items == rings[h] + [i] then |c| else 1;
    forall g | g in rings' ensures Distinct([g] + rings'[g]) {
      assert Neat(rings, g);
      if g == h {
        InsertDistinct(c, k, i);
        assert [h] + items == c[..k] + [i] + c[k..];
      }
    }
    forall n ensures OneList(rings', n) {
      TidyOne(rings, n);
      forall g | g in rings' && OnList(rings', g, n) ensures if n == i then g == h else OnList(rings, g, n) {
      }
    }
    OneEachIsTidy(rings');
  }

  lemma TakeKeepsTidy(rings: Table, h: Node, i: Node)
    requires Tidy(rings) && h in rings && i in rings[h]
    ensures i != h && Tidy(Dropped(rings, h, i))
  {
    assert Neat(rings, h);
    OnListWithout(h, rings[h], i, i);
    var rings' := Dropped(rings, h, i);
    forall g | g in rings' ensures Distinct([g] + rings'[g]) {
      assert Neat(rings, g);
    }
    forall n ensures OneList(rings', n) {
      TidyOne(rings, n);
      OnListWithout(h, rings[h], i, n);
    }
    OneEachIsTidy(rings');
  }

  lemma DistinctTail(c: seq<Node>)
    requires c != [] && Distinct(c)
    ensures Distinct(c[1..]) && forall k | 1 <= k < |c| :: c[k] != c[0]
  {
  }

  /** The items of a list whose head leaves are a list of their own, headed by the first of them. */
  lemma BeheadedNeat(h: Node, items: seq<Node>)
    requires Distinct([h] + items) && items != []
    ensures Distinct([items[0]] + items[1..]) && items[0] != h
  {
    hide Distinct;
    var c := [h] + items;
    DistinctTail(c);
    assert c[1] == items[0];
    assert c[1..] == [items[0]] + items[1..];
  }

  lemma BeheadedOne(rings: Table, h: Node, n: Node)
    requires Tidy(rings) && h in rings && rings[h] != []
    ensures OneList(Dropped(rings, h, h), n)
  {
    var rings', f := Dropped(rings, h, h), rings[h][0];
    TidyOne(rings, n);
    TidyOne(rings, f);
    hide Tidy;
    forall g | g in rings' && OnList(rings', g, n) && g != f ensures OnList(rings, g, n) && g != h {
    }
    assert OnList(rings', f, n) ==> OnList(rings, h, n);
  }

  lemma BeheadKeepsTidy(rings: Table, h: Node)
    requires Tidy(rings) && h in rings && rings[h] != []
    ensures Tidy(Dropped(rings, h, h))
  {
    assert Neat(rings, h);
    BeheadedNeat(h, rings[h]);
    var rings' := Dropped(rings, h, h);
    forall g | g in rings' ensures Distinct([g] + rings'[g]) {
      if g != rings[h][0] {
        assert Neat(rings, g);
      }
    }
    forall n ensures OneList(rings', n) {
      BeheadedOne(rings, h, n);
    }
    OneEachIsTidy(rings');
  }

  lemma StartKeepsTidy(rings: Table, n: Node)
    requires Tidy(rings) && Fit(rings, Start(n))
    ensures Tidy(rings[n := []])
  {
    var rings' := rings[n := []];
    forall g | g in rings' ensures Distinct([g] + rings'[g]) {
      if g != n {
        assert Neat(rings, g);
      }
    }
    forall m ensures OneList(rings', m) {
      TidyOne(rings, m);
    }
    OneEachIsTidy(rings');
  }

  lemma EditKeepsTidy(rings: Table, op: Op)
    requires Tidy(rings) && Fit(rings, op)
    ensures Tidy(Edited(rings, op))
  {
    hide Tidy;
    match op
    case Start(n) => StartKeepsTidy(rings, n);
    case PushTail(h, i) => PushKeepsTidy(rings, h, i, rings[h] + [i]);
    case PushHead(h, i) => PushKeepsTidy(rings, h, i, [i] + rings[h]);
    case TakeOut(i) =>
      forall h | h in rings && OnList(rings, h, i) ensures Tidy(Dropped(rings, h, i)) {
        if i != h {
          TakeKeepsTidy(rings, h, i);
        } else if rings[h] != [] {
          BeheadKeepsTidy(rings, h);
        }
      }
  }

  lemma WithoutEnd(items: seq<Node>, i: Node, more: seq<Node>)
    requires i !in items && (more == items + [i] || more == [i] + items)
    ensures Without(more, i) == items
  {
    var k := IndexOf(more, i);
    if more == items + [i] {
      assert k == |items|;
    } else {
      assert k == 0;
    }
  }

  /** Taking out a node just pushed, at either end of any list, restores all lists. */
  lemma TakeUndoesPush(rings: Table, op: Op)
    requires Fit(rings, op) && (op.PushHead? || op.PushTail?)
    ensures Fit(Edited(rings, op), TakeOut(op.item)) && Edited(Edited(rings, op), TakeOut(op.item)) == rings
  {
    var h, i, rings' := op.head, op.item, Edited(rings, op);
    assert OnList(rings', h, i);
    assert forall g | g in rings' && OnList(rings', g, i) :: g == h;
    WithoutEnd(rings[h], i, rings'[h]);
    assert rings'[h := rings[h]] == rings;
  }

  lemma {:induction false} EditsKeepTidy(rings: Table, ops: seq<Op>, k: nat)
    requires Tidy(rings) && k <= |ops| && AllFit(rings, ops, k)
    ensures Tidy(EditedAll(rings, ops, k))
  {
    hide Tidy;
    if k > 0 {
      EditsKeepTidy(rings, ops, k - 1);
      EditKeepsTidy(EditedAll(rings, ops, k - 1), ops[k - 1]);
    }
  }

  // ----- Where the links lead

  /** The node behind `n` on the list of `h`. */
  ghost function Behind(rings: Table, h: Node, n: Node): Node
    requires OnList(rings, h, n)
  {
    Stop(h, rings[h], if n == h then 0 else IndexOf(rings[h], n) + 1)
  }

  ghost predicate OnSome(rings: Table, n: Node) {
    exists h | h in rings :: OnList(rings, h, n)
  }

  /** Where `next` of `n` leads; a node that was taken out keeps the link it had then. */
  ghost function NextOf(rings: Table, left: map<Node, Node>, n: Node): Node {
    if OnSome(rings, n) then
      var h :| h in rings && OnList(rings, h, n); Behind(rings, h, n)
    else if n in left then left[n] else n
  }

  /** The links kept by the nodes taken out, after one more edit. */
  ghost function LeftBy(rings: Table, left: map<Node, Node>, op: Op): map<Node, Node> {
    if op.TakeOut? then left[op.item := NextOf(rings, left, op.item)] else left
  }

  ghost function LeftAll(rings: Table, left: map<Node, Node>, ops: seq<Op>, k: nat): map<Node, Node>
    requires k <= |ops| && AllFit(rings, ops, k)
  {
    if k == 0 then left
    else LeftBy(EditedAll(rings, ops, k - 1), LeftAll(rings, left, ops, k - 1), ops[k - 1])
  }

  lemma IndexIs(h: Node, items: seq<Node>, k: nat)
    requires Distinct([h] + items) && k < |items|
    ensures items[k] != h && IndexOf(items, items[k]) == k
  {
    var c := [h] + items;
    assert c[0] == h && c[k + 1] == items[k] && c[IndexOf(items, items[k]) + 1] == items[k];
  }

  /** A node pushed at the head stands between the head and what was behind it. */
  lemma HeadPushNeighbours(rings: Table, h: Node, i: Node)
    requires Tidy(rings) && Fit(rings, PushHead(h, i))
    ensures var rings' := Edited(rings, PushHead(h, i));
            && Behind(rings', h, h) == i && Behind(rings', h, i) == Behind(rings, h, h)
  {
    var rings' := Edited(rings, PushHead(h, i));
    EditKeepsTidy(rings, PushHead(h, i));
    assert Neat(rings', h);
    IndexIs(h, rings'[h], 0);
  }

  /** A node pushed at the tail stands between what was last and the head. */
  lemma TailPushNeighbours(rings: Table, h: Node, i: Node)
    requires Tidy(rings) && Fit(rings, PushTail(h, i))
    ensures var rings' := Edited(rings, PushTail(h, i));
            && Behind(rings', h, i) == h
            && Behind(rings', h, if rings[h] == [] then h else rings[h][|rings[h]| - 1]) == i
  {
    var rings', n := Edited(rings, PushTail(h, i)), |rings[h]|;
    EditKeepsTidy(rings, PushTail(h, i));
    assert Neat(rings', h);
    IndexIs(h, rings'[h], n);
    if n > 0 {
      IndexIs(h, rings'[h], n - 1);
      assert rings'[h][n - 1] == rings[h][n - 1];
    }
  }

  lemma NextOnList(rings: Table, left: map<Node, Node>, h: Node, n: Node)
    requires Tidy(rings) && OnList(rings, h, n)
    ensures NextOf(rings, left, n) == Behind(rings, h, n)
  {
    TidyOne(rings, n);
  }

  // ----- The loop

  /** The lists, the links of the nodes taken out, the node to visit and the one saved for after it. */
  datatype Trail = Trail(rings: Table, left: map<Node, Node>, node: Node, saved: Node)

  ghost function Outset(rings: Table, list: Node): Trail {
    var first := NextOf(rings, map[], list);
    Trail(rings, map[], first, NextOf(rings, map[], first))
  }

  /** One round: the body, and then on to the saved node. */
  ghost function Round(t: Trail, body: seq<Op>): Trail
    requires AllFit(t.rings, body, |body|)
  {
    var rings, left := EditedAll(t.rings, body, |body|), LeftAll(t.rings, t.left, body, |body|);
    Trail(rings, left, t.saved, NextOf(rings, left, t.saved))
  }

  /** The loop comes to its `k`-th visit or end, every body until then being fit. */
  ghost predicate Gets(rings: Table, list: Node, bodies: seq<seq<Op>>, k: nat)
    requires k <= |bodies|
    decreases k, 0
  {
    k > 0 ==>
      && Gets(rings, list, bodies, k - 1)
      && var t := At(rings, list, bodies, k - 1);
      t.node != list && AllFit(t.rings, bodies[k - 1], |bodies[k - 1]|)
  }

  ghost function At(rings: Table, list: Node, bodies: seq<seq<Op>>, k: nat): Trail
    requires k <= |bodies| && Gets(rings, list, bodies, k)
    decreases k, 1
  {
    if k == 0 then Outset(rings, list) else Round(At(rings, list, bodies, k - 1), bodies[k - 1])
  }

  lemma AtStart(rings: Table, list: Node, bodies: seq<seq<Op>>)
    ensures Gets(rings, list, bodies, 0) && At(rings, list, bodies, 0) == Outset(rings, list)
  {
  }

  lemma OneMore(rings: Table, list: Node, bodies: seq<seq<Op>>, k: nat)
    requires k < |bodies| && Gets(rings, list, bodies, k) && At(rings, list, bodies, k).node != list
    requires AllFit(At(rings, list, bodies, k).rings, bodies[k], |bodies[k]|)
    ensures Gets(rings, list, bodies, k + 1)
    ensures At(rings, list, bodies, k + 1) == Round(At(rings, list, bodies, k), bodies[k])
  {
  }

  lemma {:induction false} StaysTidy(rings: Table, list: Node, bodies: seq<seq<Op>>, k: nat)
    requires Tidy(rings) && k <= |bodies| && Gets(rings, list, bodies, k)
    ensures Tidy(At(rings, list, bodies, k).rings)
  {
    hide Tidy;
    if k > 0 {
      StaysTidy(rings, list, bodies, k - 1);
      var t := At(rings, list, bodies, k - 1);
      EditsKeepTidy(t.rings, bodies[k - 1], |bodies[k - 1]|);
    }
  }

  // ----- When it ends

  /** How many items of the list a walk from `n` has still to visit. */
  ghost function Ahead(rings: Table, list: Node, n: Node): nat {
    if OnList(rings, list, n) && n != list then |rings[list]| - IndexOf(rings[list], n) else 0
  }

  /** Each step along the list leaves one item less ahead. */
  lemma BehindIsNearer(rings: Table, list: Node, n: Node)
    requires Tidy(rings) && OnList(rings, list, n)
    ensures OnList(rings, list, Behind(rings, list, n))
    ensures Ahead(rings, list, Behind(rings, list, n)) == if n == list then |rings[list]| else Ahead(rings, list, n) - 1
  {
    var k := if n == list then 0 else IndexOf(rings[list], n) + 1;
    assert Neat(rings, list);
    if k < |rings[list]| {
      IndexIs(list, rings[list], k);
    }
  }

  /** Until round `k` every body leaves the saved node on the list. */
  ghost predicate Stays(rings: Table, list: Node, bodies: seq<seq<Op>>, k: nat)
    requires k <= |bodies| && Gets(rings, list, bodies, k)
  {
    k > 0 ==>
      && Stays(rings, list, bodies, k - 1)
      && var t := At(rings, list, bodies, k);
      OnList(t.rings, list, t.node)
  }

  /** By how many items the `i`-th body makes the rest of the walk longer. */
  ghost function Growth(rings: Table, list: Node, bodies: seq<seq<Op>>, i: nat): int
    requires i < |bodies| && Gets(rings, list, bodies, i + 1)
  {
    var t := At(rings, list, bodies, i);
    Ahead(At(rings, list, bodies, i + 1).rings, list, t.saved) - Ahead(t.rings, list, t.saved)
  }

  ghost function Grown(rings: Table, list: Node, bodies: seq<seq<Op>>, k: nat): int
    requires k <= |bodies| && Gets(rings, list, bodies, k)
  {
    if k == 0 then 0 else Grown(rings, list, bodies, k - 1) + Growth(rings, list, bodies, k - 1)
  }

  /** What is still ahead: the items there were, less the visits made, plus what the bodies added. */
  lemma {:induction false} WhatIsAhead(rings: Table, list: Node, bodies: seq<seq<Op>>, k: nat)
    requires Tidy(rings) && list in rings && k <= |bodies| && Gets(rings, list, bodies, k) && Stays(rings, list, bodies, k)
    ensures var t := At(rings, list, bodies, k);
            && OnList(t.rings, list, t.node)
            && Ahead(t.rings, list, t.node) == |rings[list]| - k + Grown(rings, list, bodies, k)
  {
    hide Tidy, Ahead, EditedAll, LeftAll, NextOf, Behind;
    if k == 0 {
      NextOnList(rings, map[], list, list);
      BehindIsNearer(rings, list, list);
    } else {
      WhatIsAhead(rings, list, bodies, k - 1);
      StaysTidy(rings, list, bodies, k - 1);
      var t := At(rings, list, bodies, k - 1);
      NextOnList(t.rings, t.left, list, t.node);
      BehindIsNearer(t.rings, list, t.node);
    }
  }

  /** A loop that stays on its list ends exactly when it has made as many visits as there were items and were added. */
  lemma EndsIff(rings: Table, list: Node, bodies: seq<seq<Op>>, k: nat)
    requires Tidy(rings) && list in rings && k <= |bodies| && Gets(rings, list, bodies, k) && Stays(rings, list, bodies, k)
    ensures At(rings, list, bodies, k).node == list <==> k == |rings[list]| + Grown(rings, list, bodies, k)
  {
    WhatIsAhead(rings, list, bodies, k);
  }

  lemma {:induction false} GrownAtMost(rings: Table, list: Node, bodies: seq<seq<Op>>, k: nat)
    requires k <= |bodies| && Gets(rings, list, bodies, k)
    requires forall i | 0 <= i < k && Gets(rings, list, bodies, i + 1) :: Growth(rings, list, bodies, i) <= 0
    ensures Grown(rings, list, bodies, k) <= 0
  {
    if k > 0 { GrownAtMost(rings, list, bodies, k - 1); }
  }

  /** If no body makes the rest of the walk longer, there are at most as many visits as items. */
  lemma EndsInTime(rings: Table, list: Node, bodies: seq<seq<Op>>, k: nat)
    requires Tidy(rings) && list in rings && k <= |bodies| && Gets(rings, list, bodies, k) && Stays(rings, list, bodies, k)
    requires forall i | 0 <= i < k && Gets(rings, list, bodies, i + 1) :: Growth(rings, list, bodies, i) <= 0
    ensures k <= |rings[list]|
  {
    WhatIsAhead(rings, list, bodies, k);
    GrownAtMost(rings, list, bodies, k);
  }

  // ----- A loop whose bodies edit nothing any more

  ghost predicate Quiet(bodies: seq<seq<Op>>, k: nat) {
    forall i | k <= i < |bodies| :: bodies[i] == []
  }

  lemma SavedIsNext(rings: Table, list: Node, bodies: seq<seq<Op>>, k: nat)
    requires k <= |bodies| && Gets(rings, list, bodies, k)
    ensures var t := At(rings, list, bodies, k); t.saved == NextOf(t.rings, t.left, t.node)
  {
  }

  /** The walk goes on round the list that the node is on. */
  lemma {:induction false} QuietGoesRound(rings: Table, list: Node, bodies: seq<seq<Op>>, k: nat, j: nat, g: Node)
    requires Tidy(rings) && k <= j <= |bodies| && Gets(rings, list, bodies, k) && Quiet(bodies, k)
    requires OnList(At(rings, list, bodies, k).rings, g, At(rings, list, bodies, k).node)
    requires Gets(rings, list, bodies, j)
    ensures At(rings, list, bodies, j).rings == At(rings, list, bodies, k).rings
    ensures var t := At(rings, list, bodies, j);
            && OnList(t.rings, g, t.node) && t.saved == Behind(t.rings, g, t.node)
            && (g == list ==> Ahead(t.rings, list, t.node) == Ahead(t.rings, list, At(rings, list, bodies, k).node) - (j - k))
    decreases j
  {
    hide Tidy, Ahead, NextOf, Behind;
    StaysTidy(rings, list, bodies, j);
    if j == k {
      SavedIsNext(rings, list, bodies, k);
    } else {
      QuietGoesRound(rings, list, bodies, k, j - 1, g);
      var t := At(rings, list, bodies, j - 1);
      assert bodies[j - 1] == [];
      BehindIsNearer(t.rings, g, t.node);
      SavedIsNext(rings, list, bodies, j);
    }
    var t := At(rings, list, bodies, j);
    NextOnList(t.rings, t.left, g, t.node);
  }

  lemma {:induction false} QuietGets(rings: Table, list: Node, bodies: seq<seq<Op>>, k: nat, j: nat)
    requires Tidy(rings) && k <= j <= |bodies| && Gets(rings, list, bodies, k) && Quiet(bodies, k)
    requires var t := At(rings, list, bodies, k);
             OnList(t.rings, list, t.node) && j <= k + Ahead(t.rings, list, t.node)
    ensures Gets(rings, list, bodies, j)
    decreases j
  {
    hide Tidy, NextOf, Behind;
    if j > k {
      QuietGets(rings, list, bodies, k, j - 1);
      QuietGoesRound(rings, list, bodies, k, j - 1, list);
      assert bodies[j - 1] == [];
    }
  }

  /** Once the bodies edit nothing any more, the loop ends exactly if it is on its own list. */
  lemma QuietEndsIff(rings: Table, list: Node, bodies: seq<seq<Op>>, k: nat, g: Node)
    requires Tidy(rings) && k <= |bodies| && Gets(rings, list, bodies, k) && Quiet(bodies, k)
    requires var t := At(rings, list, bodies, k);
             list in t.rings && OnList(t.rings, g, t.node) && k + |t.rings[list]| <= |bodies|
    ensures (exists j | k <= j <= |bodies| :: Gets(rings, list, bodies, j) && At(rings, list, bodies, j).node == list) <==> g == list
  {
    hide Tidy, NextOf, Behind, Gets, At, Quiet;
    var t := At(rings, list, bodies, k);
    if g == list {
      var j := k + Ahead(t.rings, list, t.node);
      QuietGets(rings, list, bodies, k, j);
      QuietGoesRound(rings, list, bodies, k, j, list);
      assert Gets(rings, list, bodies, j) && At(rings, list, bodies, j).node == list;
    }
    if j :| k <= j <= |bodies| && Gets(rings, list, bodies, j) && At(rings, list, bodies, j).node == list {
      QuietGoesRound(rings, list, bodies, k, j, g);
      StaysTidy(rings, list, bodies, k);
      TidyOne(t.rings, list);
    }
  }

  // ----- A loop that never ends

  function Rotated(items: seq<Node>, k: nat): (r: seq<Node>)
    requires items != []
    ensures |r| == |items|
  {
    if k == 0 then items else var r := Rotated(items, k - 1); r[1..] + [r[0]]
  }

  /** Move the node to the end of the list. */
  function ToTheEnd(list: Node, n: Node): seq<Op> {
    [TakeOut(n), PushTail(list, n)]
  }

  function Rotations(list: Node, items: seq<Node>, n: nat): (r: seq<seq<Op>>)
    requires items != []
    ensures |r| == n
  {
    seq(n, i requires 0 <= i => ToTheEnd(list, Rotated(items, i)[0]))
  }

  lemma RotationBody(list: Node, items: seq<Node>, n: nat, i: nat)
    requires items != [] && i < n
    ensures |Rotations(list, items, n)[i]| == 2
    ensures Rotations(list, items, n)[i] == ToTheEnd(list, Rotated(items, i)[0])
  {
  }

  lemma TakeFirst(rings: Table, list: Node)
    requires Tidy(rings) && list in rings && rings[list] != []
    ensures var x, items := rings[list][0], rings[list];
            && Fit(rings, TakeOut(x)) && Edited(rings, TakeOut(x)) == rings[list := items[1..]]
            && Loose(rings[list := items[1..]], x)
  {
    var x, items := rings[list][0], rings[list];
    assert Neat(rings, list);
    IndexIs(list, items, 0);
    assert OnList(rings, list, x);
    TidyOne(rings, x);
    OnListWithout(list, items, x, x);
    assert Without(items, x) == items[1..];
    forall h | h in rings && h != list ensures x !in rings[h] && x != h {
      assert !OnList(rings, h, x);
    }
  }

  lemma RotateOnce(rings: Table, list: Node)
    requires Tidy(rings) && list in rings && rings[list] != []
    ensures var items := rings[list];
            var body := ToTheEnd(list, items[0]);
            AllFit(rings, body, 2) && EditedAll(rings, body, 2) == rings[list := items[1..] + [items[0]]]
  {
    var items := rings[list];
    var body := ToTheEnd(list, items[0]);
    TakeFirst(rings, list);
    assert AllFit(rings, body, 0) && EditedAll(rings, body, 0) == rings;
    assert AllFit(rings, body, 1) && EditedAll(rings, body, 1) == rings[list := items[1..]];
    assert AllFit(rings, body, 2);
  }

  lemma FirstTwo(rings: Table, left: map<Node, Node>, list: Node)
    requires Tidy(rings) && list in rings && |rings[list]| >= 2
    ensures NextOf(rings, left, list) == rings[list][0] != list && NextOf(rings, left, rings[list][0]) == rings[list][1]
  {
    assert Neat(rings, list);
    IndexIs(list, rings[list], 0);
    NextOnList(rings, left, list, list);
    NextOnList(rings, left, list, rings[list][0]);
  }

  lemma RotateRound(t: Trail, list: Node)
    requires Tidy(t.rings) && list in t.rings && |t.rings[list]| >= 2 && t.saved == t.rings[list][1]
    ensures var items := t.rings[list];
            var body, more := ToTheEnd(list, items[0]), items[1..] + [items[0]];
            && AllFit(t.rings, body, 2)
            && var t' := Round(t, body);
            t'.rings == t.rings[list := more] && t'.node == more[0] != list && t'.saved == more[1]
  {
    hide Tidy, NextOf, AllFit, EditedAll, LeftAll;
    var items := t.rings[list];
    RotateOnce(t.rings, list);
    var t' := Round(t, ToTheEnd(list, items[0]));
    EditsKeepTidy(t.rings, ToTheEnd(list, items[0]), 2);
    FirstTwo(t'.rings, t'.left, list);
  }

  /** A body that moves each visited node to the end of its list keeps a list of two or more items going for ever. */
  lemma {:induction false} RotationNeverEnds(rings: Table, list: Node, n: nat, k: nat)
    requires Tidy(rings) && list in rings && |rings[list]| >= 2 && k <= n
    ensures var bodies, items := Rotations(list, rings[list], n), Rotated(rings[list], k);
            && Gets(rings, list, bodies, k)
            && var t := At(rings, list, bodies, k);
            t.rings == rings[list := items] && t.node == items[0] && t.saved == items[1] && t.node != list
  {
    hide Tidy, NextOf, AllFit, Round, ToTheEnd, Gets, At, Rotations;
    var bodies := Rotations(list, rings[list], n);
    if k == 0 {
      AtStart(rings, list, bodies);
      FirstTwo(rings, map[], list);
      assert rings[list := rings[list]] == rings;
    } else {
      RotationNeverEnds(rings, list, n, k - 1);
      var t := At(rings, list, bodies, k - 1);
      StaysTidy(rings, list, bodies, k - 1);
      RotateRound(t, list);
      RotationBody(list, rings[list], n, k - 1);
      OneMore(rings, list, bodies, k - 1);
    }
  }

  // ----- The program

  ghost predicate Known(heap: Heap, left: map<Node, Node>, n: Node)
    reads heap
  {
    n in heap.shape.owner || n in left
  }

  /** The links of the nodes taken out are as `left` says, and lead to nodes that are on a list or have been. */
  ghost predicate Tracks(heap: Heap, left: map<Node, Node>)
    reads heap, heap.shape.owner.Keys, left.Keys
  {
    heap.Valid() && forall n | n in left :: (n !in heap.shape.owner ==> n.next == left[n]) && Known(heap, left, left[n])
  }

  /** Every link is where the table and `left` say. */
  lemma NextIs(heap: Heap, left: map<Node, Node>, n: Node)
    requires Tracks(heap, left) && Known(heap, left, n)
    ensures n.next == NextOf(heap.shape.rings, left, n) && Known(heap, left, n.next)
  {
    forall h | h in heap.shape.rings && OnList(heap.shape.rings, h, n) ensures n in heap.shape.owner && heap.shape.owner[n] == h {
      OneListEach(heap.shape, n, h);
    }
    if n in heap.shape.owner {
      var h := heap.shape.owner[n];
      OneListEach(heap.shape, n, h);
      assert OnList(heap.shape.rings, h, n);
      heap.Neighbours(h, if n == h then 0 else IndexOf(heap.shape.rings[h], n) + 1);
    }
  }

  lemma EmptyTracks(heap: Heap, list: Node)
    requires heap.Valid() && list in heap.shape.rings
    ensures Tracks(heap, map[]) && Known(heap, map[], list)
  {
    assert Ring(heap.shape, list);
  }

  lemma TracksIsValid(heap: Heap, left: map<Node, Node>)
    requires Tracks(heap, left)
    ensures heap.Valid()
  {
  }

  lemma ValidIsTidy(heap: Heap)
    requires heap.Valid()
    ensures Tidy(heap.shape.rings)
  {
    var rings := heap.shape.rings;
    forall h | h in rings ensures Distinct([h] + rings[h]) {
      assert Ring(heap.shape, h);
    }
    forall n ensures OneList(rings, n) {
      forall g, h | g in rings && h in rings && OnList(rings, g, n) && OnList(rings, h, n) ensures g == h {
        OneListEach(heap.shape, n, g);
        OneListEach(heap.shape, n, h);
      }
    }
    OneEachIsTidy(rings);
  }

  /** The node about to be taken out has its link where the table says. */
  lemma TakenLink(heap: Heap, op: Op, left: map<Node, Node>)
    requires Tracks(heap, left) && Fit(heap.shape.rings, op)
    ensures heap.Valid()
    ensures op.TakeOut? ==>
              op.item.next == NextOf(heap.shape.rings, left, op.item) && Known(heap, left, op.item.next)
  {
    hide NextOf;
    if op.TakeOut? {
      var h :| h in heap.shape.rings && OnList(heap.shape.rings, h, op.item);
      OneListEach(heap.shape, op.item, h);
      NextIs(heap, left, op.item);
    }
  }

  method DoOne(heap: Heap, op: Op, ghost left: map<Node, Node>)
    requires Tracks(heap, left) && Fit(heap.shape.rings, op)
    modifies heap, heap.shape.owner.Keys, Pushed(op)
    ensures Tracks(heap, LeftBy(old(heap.shape).rings, left, op))
    ensures heap.shape.rings == Edited(old(heap.shape).rings, op)
    ensures heap.shape.owner.Keys <= old(heap.shape).owner.Keys + Pushed(op)
    ensures old(heap.shape).owner.Keys + left.Keys <= heap.shape.owner.Keys + LeftBy(old(heap.shape).rings, left, op).Keys
  {
    hide Edited, NextOf, Heap.Valid, Fit;
    TakenLink(heap, op, left);
    ghost var left' := LeftBy(heap.shape.rings, left, op);
    heap.Run(op);
    forall n | n in left' ensures (n !in heap.shape.owner ==> n.next == left'[n]) && Known(heap, left', left'[n]) {
      if !op.TakeOut? || n != op.item {
        assert n in left && left'[n] == left[n];
      }
    }
  }

  method DoAll(heap: Heap, ops: seq<Op>, ghost left: map<Node, Node>)
    requires Tracks(heap, left) && AllFit(heap.shape.rings, ops, |ops|)
    modifies heap, heap.shape.owner.Keys, AllPushed(ops)
    ensures Tracks(heap, LeftAll(old(heap.shape).rings, left, ops, |ops|))
    ensures heap.shape.rings == EditedAll(old(heap.shape).rings, ops, |ops|)
    ensures heap.shape.owner.Keys <= old(heap.shape).owner.Keys + AllPushed(ops)
    ensures old(heap.shape).owner.Keys + left.Keys <=
            heap.shape.owner.Keys + LeftAll(old(heap.shape).rings, left, ops, |ops|).Keys
  {
    hide Tracks, Edited, LeftBy;
    ghost var rings := heap.shape.rings;
    for k := 0 to |ops|
      invariant AllFit(rings, ops, k) && Tracks(heap, LeftAll(rings, left, ops, k))
      invariant heap.shape.rings == EditedAll(rings, ops, k)
      invariant heap.shape.owner.Keys <= old(heap.shape).owner.Keys + AllPushed(ops)
      invariant old(heap.shape).owner.Keys + left.Keys <= heap.shape.owner.Keys + LeftAll(rings, left, ops, k).Keys
    {
      FitPrefix(rings, ops, k + 1, |ops|);
      assert Pushed(ops[k]) <= AllPushed(ops);
      DoOne(heap, ops[k], LeftAll(rings, left, ops, k));
    }
  }

  /** Every body is fit for the lists that it finds, if the loop gets there. */
  ghost predicate WillFit(rings: Table, list: Node, bodies: seq<seq<Op>>) {
    forall k: nat | k < |bodies| && Gets(rings, list, bodies, k) && At(rings, list, bodies, k).node != list ::
      AllFit(At(rings, list, bodies, k).rings, bodies[k], |bodies[k]|)
  }

  ghost function EverPushed(bodies: seq<seq<Op>>): set<Node> {
    set k, n | 0 <= k < |bodies| && n in AllPushed(bodies[k]) :: n
  }

  /** The loop is about to test `node`, with `n` saved, after `k` rounds. */
  ghost predicate AtVisit(heap: Heap, rings: Table, list: Node, bodies: seq<seq<Op>>, k: nat, left: map<Node, Node>, node: Node, n: Node)
    reads heap, heap.shape.owner.Keys, left.Keys
  {
    && k <= |bodies| && Gets(rings, list, bodies, k)
    && At(rings, list, bodies, k) == Trail(heap.shape.rings, left, node, n)
    && Tracks(heap, left) && Known(heap, left, n)
  }

  /** `pos = list->next, n = pos->next` */
  method Begin(heap: Heap, list: Node, ghost bodies: seq<seq<Op>>) returns (node: Node, n: Node)
    requires heap.Valid() && list in heap.shape.rings
    ensures AtVisit(heap, heap.shape.rings, list, bodies, 0, map[], node, n)
  {
    hide NextOf;
    EmptyTracks(heap, list);
    NextIs(heap, map[], list);
    node := list.next;
    NextIs(heap, map[], node);
    n := node.next;
  }

  /** The body, and then `pos = n, n = pos->next`. */
  method Visit(heap: Heap, ghost rings: Table, list: Node, bodies: seq<seq<Op>>, k: nat, node: Node, saved: Node, ghost left: map<Node, Node>)
    returns (n: Node, ghost left': map<Node, Node>)
    requires WillFit(rings, list, bodies) && k < |bodies| && node != list
    requires AtVisit(heap, rings, list, bodies, k, left, node, saved)
    modifies heap, heap.shape.owner.Keys, AllPushed(bodies[k])
    ensures AtVisit(heap, rings, list, bodies, k + 1, left', saved, n)
    ensures heap.shape.owner.Keys <= old(heap.shape).owner.Keys + AllPushed(bodies[k])
  {
    hide Tracks, NextOf, EditedAll, LeftAll;
    left' := LeftAll(heap.shape.rings, left, bodies[k], |bodies[k]|);
    DoAll(heap, bodies[k], left);
    NextIs(heap, left', saved);
    n := saved.next;
  }

  /**
   `list_for_each_safe` with one list of edits per visit: it visits the nodes of the trail, one by
   one, until that comes to the head or there is no further body.
   */
  method ForEachFreely(heap: Heap, list: Node, bodies: seq<seq<Op>>) returns (visited: seq<Node>, ended: bool)
    requires heap.Valid() && list in heap.shape.rings && WillFit(heap.shape.rings, list, bodies)
    modifies heap, heap.shape.owner.Keys, EverPushed(bodies)
    ensures heap.Valid() && Tidy(old(heap.shape).rings)
    ensures |visited| <= |bodies| && Gets(old(heap.shape).rings, list, bodies, |visited|)
    ensures forall i: nat | i < |visited| ::
              Gets(old(heap.shape).rings, list, bodies, i) && visited[i] == At(old(heap.shape).rings, list, bodies, i).node
    ensures var t := At(old(heap.shape).rings, list, bodies, |visited|);
            heap.shape.rings == t.rings && (ended <==> t.node == list)
    ensures ended || |visited| == |bodies|
  {
    hide Tracks, Tidy, Gets, At, WillFit, AllPushed;
    ghost var rings := heap.shape.rings;
    ghost var left: map<Node, Node> := map[];
    ValidIsTidy(heap);
    var node, n := Begin(heap, list, bodies);
    visited := [];
    while node != list && |visited| < |bodies|
      invariant AtVisit(heap, rings, list, bodies, |visited|, left, node, n)
      invariant forall i: nat | i < |visited| :: Gets(rings, list, bodies, i) && visited[i] == At(rings, list, bodies, i).node
      invariant heap.shape.owner.Keys <= old(heap.shape).owner.Keys + EverPushed(bodies)
      decreases |bodies| - |visited|
    {
      assert AllPushed(bodies[|visited|]) <= EverPushed(bodies);
      var saved := n;
      n, left := Visit(heap, rings, list, bodies, |visited|, node, saved, left);
      visited := visited + [node];
      node := saved;
    }
    ended := node == list;
    TracksIsValid(heap, left);
  }
}
