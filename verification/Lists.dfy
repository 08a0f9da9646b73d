/**
 The intrusive circular doubly linked lists of list.h.  Nodes point at each
 other, a list is known by its head node, and any number of lists share the heap.
 */
module Lists {
  import opened Rings

  class Node {
    var next: Node
    var prev: Node

    /** `list_declare`: a list of its own. */
    constructor ()
      ensures next == this && prev == this
    {
      next := this;
      prev := this;
    }
  }

  /** The items of every list, by its head. */
  type Table = map<Node, seq<Node>>

  // ----- The operations as plain edits of the table

  datatype Op = Start(node: Node) | PushTail(head: Node, item: Node) | PushHead(head: Node, item: Node) | TakeOut(item: Node)

  /** The node is on no list. */
  ghost predicate Loose(rings: Table, n: Node) {
    n !in rings && forall h | h in rings :: n !in rings[h]
  }

  /** The node is the head of the list of `h` or one of its items. */
  predicate OnList(rings: Table, h: Node, n: Node) {
    h in rings && (n == h || n in rings[h])
  }

  /** A node leaves the list of `h`; where a head leaves its items, the first of them takes its place. */
  ghost function Dropped(rings: Table, h: Node, n: Node): Table
    requires OnList(rings, h, n)
  {
    if n != h then rings[h := Without(rings[h], n)]
    else if rings[h] == [] then rings
    else (rings - {h})[rings[h][0] := rings[h][1..]]
  }

  /** What list.h expects of the callers of each operation. */
  ghost predicate Fit(rings: Table, op: Op) {
    match op
    case Start(n) => Loose(rings, n) || (n in rings && rings[n] == [])
    case PushTail(h, i) => h in rings && Loose(rings, i)
    case PushHead(h, i) => h in rings && Loose(rings, i)
    case TakeOut(i) => exists h :: h in rings && OnList(rings, h, i)
  }

  /** The operations as plain sequence edits. */
  ghost function Edited(rings: Table, op: Op): Table
    requires Fit(rings, op)
  {
    match op
    case Start(n) => rings[n := []]
    case PushTail(h, i) => rings[h := rings[h] + [i]]
    case PushHead(h, i) => rings[h := [i] + rings[h]]
    case TakeOut(i) => var h :| h in rings && OnList(rings, h, i); Dropped(rings, h, i)
  }

  ghost predicate AllFit(rings: Table, ops: seq<Op>, k: nat)
    requires k <= |ops|
    decreases k, 0
  {
    k > 0 ==> AllFit(rings, ops, k - 1) && Fit(EditedAll(rings, ops, k - 1), ops[k - 1])
  }

  /** The lists after the first `k` edits. */
  ghost function EditedAll(rings: Table, ops: seq<Op>, k: nat): Table
    requires k <= |ops| && AllFit(rings, ops, k)
    decreases k, 1
  {
    if k == 0 then rings else Edited(EditedAll(rings, ops, k - 1), ops[k - 1])
  }

  lemma {:induction false} FitPrefix(rings: Table, ops: seq<Op>, j: nat, k: nat)
    requires j <= k <= |ops| && AllFit(rings, ops, k)
    ensures AllFit(rings, ops, j)
  {
    if j < k { FitPrefix(rings, ops, j, k - 1); }
  }

  function Mirror(s: seq<Node>): seq<Node> {
    seq(|s|, i requires 0 <= i < |s| => s[|s| - 1 - i])
  }

  lemma MirrorNothing()
    ensures Mirror([]) == []
  {
  }

  lemma MirrorMore(s: seq<Node>, x: Node)
    ensures Mirror(s + [x]) == [x] + Mirror(s)
  {
  }

  /** What the first `k` operations push at the head of `h`, in the order of the pushes. */
  function HeadPushes(ops: seq<Op>, h: Node, k: nat): seq<Node>
    requires k <= |ops|
  {
    if k == 0 then []
    else HeadPushes(ops, h, k - 1) + if ops[k - 1].PushHead? && ops[k - 1].head == h then [ops[k - 1].item] else []
  }

  function TailPushes(ops: seq<Op>, h: Node, k: nat): seq<Node>
    requires k <= |ops|
  {
    if k == 0 then []
    else TailPushes(ops, h, k - 1) + if ops[k - 1].PushTail? && ops[k - 1].head == h then [ops[k - 1].item] else []
  }

  /**
   Pushes, in any mixture and on any lists, leave each list as it was, with the nodes pushed at its
   head before it in reverse order, and those pushed at its tail behind it in order.
   */
  lemma {:induction false} PushesBuild(rings: Table, ops: seq<Op>, h: Node, k: nat)
    requires h in rings && k <= |ops| && AllFit(rings, ops, k)
    requires forall i | 0 <= i < k :: ops[i].PushHead? || ops[i].PushTail?
    ensures h in EditedAll(rings, ops, k)
    ensures EditedAll(rings, ops, k)[h] == Mirror(HeadPushes(ops, h, k)) + rings[h] + TailPushes(ops, h, k)
  {
    hide Mirror;
    if k == 0 {
      MirrorNothing();
    } else {
      PushesBuild(rings, ops, h, k - 1);
      var heads, tails := HeadPushes(ops, h, k - 1), TailPushes(ops, h, k - 1);
      assert heads + [] == heads && tails + [] == tails;
      MirrorMore(heads, ops[k - 1].item);
      assert [ops[k - 1].item] + (Mirror(heads) + rings[h] + tails) == ([ops[k - 1].item] + Mirror(heads)) + rings[h] + tails;
      assert (Mirror(heads) + rings[h] + tails) + [ops[k - 1].item] == Mirror(heads) + rings[h] + (tails + [ops[k - 1].item]);
    }
  }

  function Pushed(op: Op): set<Node> {
    match op
    case Start(n) => {n}
    case PushTail(_, i) => {i}
    case PushHead(_, i) => {i}
    case TakeOut(_) => {}
  }

  function Taken(op: Op): set<Node> {
    if op.TakeOut? then {op.item} else {}
  }

  ghost function AllPushed(ops: seq<Op>): set<Node> {
    set k, n | 0 <= k < |ops| && n in Pushed(ops[k]) :: n
  }

  /** One node goes from list `src` to the end of list `dst`. */
  ghost function Moved(rings: Table, src: Node, item: Node, dst: Node): Table
    requires src in rings && dst in rings && item in rings[src]
  {
    var m := rings[src := Without(rings[src], item)];
    m[dst := m[dst] + [item]]
  }

  /** What the loop body does with the node it visits. */
  datatype Action = Keep | Drop | MoveTo(dst: Node)

  /** The `k`-th item has its action, which does not move it to the list being walked. */
  ghost predicate Told(rings: Table, list: Node, acts: map<Node, Action>, k: nat)
    requires list in rings && k < |rings[list]|
  {
    var n := rings[list][k];
    n in acts && (acts[n].MoveTo? ==> acts[n].dst in rings && acts[n].dst != list)
  }

  /** Every item has its action, and none is to be moved to the list being walked. */
  ghost predicate Sensible(rings: Table, list: Node, acts: map<Node, Action>) {
    list in rings &&
    forall k {:trigger Told(rings, list, acts, k)} | 0 <= k < |rings[list]| :: Told(rings, list, acts, k)
  }

  ghost predicate OnlyAt(items: seq<Node>, k: nat)
    requires k < |items|
  {
    forall i | 0 <= i < |items| && i != k :: items[i] != items[k]
  }

  /** No item occurs twice. */
  ghost predicate NoneTwice(items: seq<Node>) {
    forall k {:trigger OnlyAt(items, k)} | 0 <= k < |items| :: OnlyAt(items, k)
  }

  /** Those of the first `k` items for which the body chose `act`, in order. */
  ghost function Chosen(items: seq<Node>, k: nat, acts: map<Node, Action>, act: Action): seq<Node>
    requires k <= |items|
  {
    if k == 0 then []
    else Chosen(items, k - 1, acts, act) + if items[k - 1] in acts && acts[items[k - 1]] == act then [items[k - 1]] else []
  }

  /** The list of `h` has gained at its end the items moved to it. */
  ghost predicate Gained(rings: Table, list: Node, k: nat, acts: map<Node, Action>, m: Table, h: Node)
    requires list in rings && k <= |rings[list]|
  {
    h in rings && h in m && m[h] == rings[h] + Chosen(rings[list], k, acts, MoveTo(h))
  }

  /**
   In `m`, the first `k` items of `list` have been sifted: it has kept the kept ones,
   and every other list has gained at its end those moved to it.
   */
  ghost predicate Sifted(rings: Table, list: Node, k: nat, acts: map<Node, Action>, m: Table) {
    && list in rings && k <= |rings[list]| && m.Keys == rings.Keys
    && m[list] == Chosen(rings[list], k, acts, Keep) + rings[list][k..]
    && forall h {:trigger Gained(rings, list, k, acts, m, h)} | h in rings && h != list :: Gained(rings, list, k, acts, m, h)
  }

  /** The lists after one loop body. */
  ghost function Acted(rings: Table, list: Node, node: Node, act: Action): Table
    requires list in rings && node in rings[list] && (act.MoveTo? ==> act.dst in rings)
  {
    match act
    case Keep => rings
    case Drop => rings[list := Without(rings[list], node)]
    case MoveTo(dst) => Moved(rings, list, node, dst)
  }

  lemma NothingSifted(rings: Table, list: Node, acts: map<Node, Action>)
    requires list in rings
    ensures Sifted(rings, list, 0, acts, rings)
  {
    forall h | h in rings ensures Gained(rings, list, 0, acts, rings, h) {
      assert rings[h] + [] == rings[h];
    }
  }

  lemma DropMiddle(a: seq<Node>, x: Node, b: seq<Node>)
    ensures Rings.Drop(a + [x] + b, |a|) == a + b
  {
  }

  lemma WithoutMiddle(a: seq<Node>, x: Node, b: seq<Node>)
    requires x !in a && x !in b
    ensures x in a + [x] + b && Without(a + [x] + b, x) == a + b
  {
    var s := a + [x] + b;
    assert s[|a|] == x;
    forall i | 0 <= i < |s| && i != |a| ensures s[i] != x {
      assert s[i] == if i < |a| then a[i] else b[i - |a| - 1];
    }
    assert IndexOf(s, x) == |a|;
    DropMiddle(a, x, b);
  }

  lemma {:induction false} ChosenFrom(items: seq<Node>, k: nat, acts: map<Node, Action>, act: Action, x: Node)
    requires k <= |items| && forall i | 0 <= i < k :: items[i] != x
    ensures x !in Chosen(items, k, acts, act)
  {
    if k > 0 { ChosenFrom(items, k - 1, acts, act, x); }
  }

  /** What is left of the list being walked: the items kept so far, the next one, and the rest. */
  lemma StillThere(rings: Table, list: Node, k: nat, acts: map<Node, Action>, m: Table)
    requires list in rings && k < |rings[list]| && Sifted(rings, list, k, acts, m) && OnlyAt(rings[list], k)
    ensures var node, kept, rest := rings[list][k], Chosen(rings[list], k, acts, Keep), rings[list][k + 1..];
            m[list] == kept + [node] + rest && node in m[list] && Without(m[list], node) == kept + rest
  {
    var items := rings[list];
    assert items[k..] == [items[k]] + items[k + 1..];
    ChosenFrom(items, k, acts, Keep, items[k]);
    WithoutMiddle(Chosen(items, k, acts, Keep), items[k], items[k + 1..]);
  }

  lemma SiftHere(rings: Table, list: Node, k: nat, acts: map<Node, Action>, m: Table)
    requires Sifted(rings, list, k, acts, m) && k < |rings[list]|
    requires Told(rings, list, acts, k) && OnlyAt(rings[list], k)
    ensures rings[list][k] in m[list]
    ensures var m' := Acted(m, list, rings[list][k], acts[rings[list][k]]);
            && m'.Keys == m.Keys
            && m'[list] == Chosen(rings[list], k + 1, acts, Keep) + rings[list][k + 1..]
  {
    StillThere(rings, list, k, acts, m);
    var node, kept := rings[list][k], Chosen(rings[list], k, acts, Keep);
    var next := Chosen(rings[list], k + 1, acts, Keep);
    match acts[node]
    case Keep => assert next == kept + [node];
    case Drop => assert next == kept;
    case MoveTo(dst) => assert next == kept;
  }

  lemma SiftElsewhere(rings: Table, list: Node, k: nat, acts: map<Node, Action>, m: Table, h: Node)
    requires Sifted(rings, list, k, acts, m) && k < |rings[list]| && rings[list][k] in m[list]
    requires var node := rings[list][k];
             node in acts && (acts[node].MoveTo? ==> acts[node].dst in rings && acts[node].dst != list)
    requires h in rings && h != list
    ensures var m' := Acted(m, list, rings[list][k], acts[rings[list][k]]);
            Gained(rings, list, k + 1, acts, m', h)
  {
    assert Gained(rings, list, k, acts, m, h);
  }

  /** One more body run sifts one more item. */
  lemma SiftOne(rings: Table, list: Node, k: nat, acts: map<Node, Action>, m: Table)
    requires Sifted(rings, list, k, acts, m) && k < |rings[list]|
    requires Told(rings, list, acts, k) && OnlyAt(rings[list], k)
    ensures rings[list][k] in m[list]
    ensures Sifted(rings, list, k + 1, acts, Acted(m, list, rings[list][k], acts[rings[list][k]]))
  {
    SiftHere(rings, list, k, acts, m);
    forall h | h in rings && h != list
      ensures Gained(rings, list, k + 1, acts, Acted(m, list, rings[list][k], acts[rings[list][k]]), h)
    {
      SiftElsewhere(rings, list, k, acts, m, h);
    }
  }

  /** The `k`-th node that a walk over the items stops at: an item, or in the end the head. */
  function Stop(list: Node, items: seq<Node>, k: nat): Node
    requires k <= |items|
  {
    if k < |items| then items[k] else list
  }

  lemma TakeNext(items: seq<Node>, k: nat)
    requires k < |items|
    ensures items[..k] + [items[k]] == items[..k + 1]
  {
  }

  lemma WalkShift(h: Node, items: seq<Node>, kept: seq<Node>, k: nat, j: nat)
    requires k + j <= |items|
    ensures Walk(h, kept + items[k..])[|kept| + j + 1] == Stop(h, items, k + j)
  {
  }

  /** All lists on the heap.  Its field is ghost: the program sees only nodes. */
  class Heap {
    ghost var shape: Shape<Node>

    constructor ()
      ensures Valid() && shape == Shape(map[], map[], map[], map[])
    {
      shape := Shape(map[], map[], map[], map[]);
    }

    /** The links of a node on the heap are those of the shape. */
    static ghost predicate Mirrors(s: Shape<Node>, n: Node)
      reads n
    {
      n in s.nx && s.nx[n] == n.next && n in s.pv && s.pv[n] == n.prev
    }

    ghost predicate Valid()
      reads this, shape.owner.Keys
    {
      Well(shape) && forall n {:trigger Mirrors(shape, n)} | n in shape.owner :: Mirrors(shape, n)
    }

    /** Neighbours on the way round a list point at each other. */
    lemma Neighbours(h: Node, k: nat)
      requires Valid() && h in shape.rings && k <= |shape.rings[h]|
      ensures var w := Walk(h, shape.rings[h]);
              && w[k].next == w[k + 1] && w[k + 1].prev == w[k]
              && w[k] in shape.owner && w[k + 1] in shape.owner
    {
      var w := Walk(h, shape.rings[h]);
      assert Ring(shape, h);
      assert Edge(w[k], w[k + 1], shape.nx, shape.pv);
      WalkOwned(shape, h, k);
      WalkOwned(shape, h, k + 1);
      assert Mirrors(shape, w[k]) && Mirrors(shape, w[k + 1]);
    }

    lemma ItemsDistinct(h: Node)
      requires Valid() && h in shape.rings
      ensures NoneTwice(shape.rings[h]) && h !in shape.rings[h]
    {
      assert Ring(shape, h);
      var c := [h] + shape.rings[h];
      assert c[0] == h;
      assert forall i | 0 <= i < |shape.rings[h]| :: c[i + 1] == shape.rings[h][i];
      forall k | 0 <= k < |shape.rings[h]| ensures OnlyAt(shape.rings[h], k) {
      }
    }

    lemma ItemIsNotHead(h: Node, k: nat)
      requires Valid() && h in shape.rings && k < |shape.rings[h]|
      ensures shape.rings[h][k] != h && shape.rings[h][k] in shape.owner && shape.owner[shape.rings[h][k]] == h
    {
      assert Ring(shape, h);
      var c := [h] + shape.rings[h];
      assert c[0] == h && c[k + 1] == shape.rings[h][k];
    }

    /** What the shape becomes when `item` is linked in as the `k`-th item of `h`. */
    lemma InsertedShape(h: Node, k: nat, item: Node) returns (s: Shape<Node>)
      requires Valid() && h in shape.rings && k <= |shape.rings[h]| && item !in shape.owner
      ensures Well(s)
      ensures s.rings == shape.rings[h := shape.rings[h][..k] + [item] + shape.rings[h][k..]]
      ensures s.owner == shape.owner[item := h]
      ensures var before, after := Walk(h, shape.rings[h])[k], Walk(h, shape.rings[h])[k + 1];
              && before in shape.owner && after in shape.owner && before.next == after && after.prev == before
              && s.nx == shape.nx[item := after][before := item] && s.pv == shape.pv[item := before][after := item]
    {
      LinkInKeeps(shape, h, k, item);
      Neighbours(h, k);
      s := LinkedIn(shape, h, k, item);
    }

    lemma TailShape(head: Node, item: Node) returns (s: Shape<Node>)
      requires Valid() && head in shape.rings && item !in shape.owner
      ensures head in shape.owner && head.prev in shape.owner && head.prev.next == head
      ensures Well(s)
      ensures s.rings == shape.rings[head := shape.rings[head] + [item]] && s.owner == shape.owner[item := head]
      ensures s.nx == shape.nx[item := head][head.prev := item] && s.pv == shape.pv[item := head.prev][head := item]
    {
      var items := shape.rings[head];
      s := InsertedShape(head, |items|, item);
      assert items[..|items|] + [item] + items[|items|..] == items + [item];
    }

    lemma HeadShape(head: Node, item: Node) returns (s: Shape<Node>)
      requires Valid() && head in shape.rings && item !in shape.owner
      ensures head in shape.owner && head.next in shape.owner && head.next.prev == head
      ensures Well(s)
      ensures s.rings == shape.rings[head := [item] + shape.rings[head]] && s.owner == shape.owner[item := head]
      ensures s.nx == shape.nx[item := head.next][head := item] && s.pv == shape.pv[item := head][head.next := item]
    {
      var items := shape.rings[head];
      s := InsertedShape(head, 0, item);
      assert items[..0] + [item] + items[0..] == [item] + items;
    }

    lemma RemovedShape(item: Node) returns (s: Shape<Node>)
      requires Valid() && item in shape.owner && shape.owner[item] != item
      ensures shape.owner[item] in shape.rings && item in shape.rings[shape.owner[item]]
      ensures item.next in shape.owner && item.prev in shape.owner && item.next != item && item.prev != item
      ensures item.next.prev == item == item.prev.next
      ensures Well(s)
      ensures var h := shape.owner[item];
              s.rings == shape.rings[h := Without(shape.rings[h], item)] && s.owner == shape.owner - {item}
      ensures s.nx == shape.nx[item.prev := item.next] - {item} && s.pv == shape.pv[item.next := item.prev] - {item}
    {
      var h := shape.owner[item];
      assert Housed(shape, item) && Ring(shape, h);
      var items := shape.rings[h];
      var k := IndexOf(items, item);
      Neighbours(h, k);
      Neighbours(h, k + 1);
      WalkDistinct(h, items);
      var w := Walk(h, items);
      assert w[k + 1] == item && w[..|items| + 1][k] != w[..|items| + 1][k + 1] && w[1..][k] != w[1..][k + 1];
      LinkOutKeeps(shape, h, k);
      s := LinkedOut(shape, h, k);
    }

    /** What the shape becomes when the head of a list is linked out. */
    lemma BeheadedShape(item: Node) returns (s: Shape<Node>)
      requires Valid() && item in shape.rings && shape.rings[item] != []
      ensures item in shape.owner && shape.owner[item] == item
      ensures item.next in shape.owner && item.prev in shape.owner && item.next != item && item.prev != item
      ensures Well(s) && s.rings == Dropped(shape.rings, item, item)
      ensures s.owner.Keys == shape.owner.Keys - {item}
      ensures s.nx == shape.nx[item.prev := item.next] - {item} && s.pv == shape.pv[item.next := item.prev] - {item}
    {
      var items := shape.rings[item];
      assert Ring(shape, item);
      Neighbours(item, 0);
      Neighbours(item, |items|);
      ItemIsNotHead(item, 0);
      ItemIsNotHead(item, |items| - 1);
      BeheadKeeps(shape, item);
      s := Beheaded(shape, item);
    }

    /** What the shape becomes when a node, item or head, is linked out; nothing changes if it is alone. */
    lemma ShapeWithout(item: Node) returns (s: Shape<Node>)
      requires Valid() && item in shape.owner
      ensures OnList(shape.rings, shape.owner[item], item)
      ensures item.next in shape.owner && item.prev in shape.owner && (item.next == item <==> item.prev == item)
      ensures Well(s) && s.rings == Dropped(shape.rings, shape.owner[item], item)
      ensures shape.owner[item] != item ==> item.next != item && s.owner == shape.owner - {item}
      ensures item.next == item ==> s == shape
      ensures item.next != item ==>
                && s.owner.Keys == shape.owner.Keys - {item}
                && s.nx == shape.nx[item.prev := item.next] - {item}
                && s.pv == shape.pv[item.next := item.prev] - {item}
    {
      OneListEach(shape, item, shape.owner[item]);
      s := shape;
      if shape.owner[item] != item {
        s := RemovedShape(item);
      } else if shape.rings[item] != [] {
        s := BeheadedShape(item);
      } else {
        Neighbours(item, 0);
      }
    }

    method Init(node: Node)
      requires Valid() && (node in shape.owner ==> node in shape.rings && shape.rings[node] == [])
      modifies this, node
      ensures Valid()
      ensures shape.rings == old(shape).rings[node := []] && shape.owner == old(shape).owner[node := node]
      ensures node.next == node == node.prev
    {
      StartKeeps(shape, node);
      node.next := node;
      node.prev := node;
      shape := Started(shape, node);
      forall n | n in shape.owner ensures Mirrors(shape, n) {
        assert n != node ==> old(Mirrors(shape, n));
      }
    }

    method AddTail(head: Node, item: Node)
      requires Valid() && head in shape.rings && item !in shape.owner
      modifies this, item, head, head.prev
      ensures Valid()
      ensures shape.rings == old(shape).rings[head := old(shape).rings[head] + [item]]
      ensures shape.owner == old(shape).owner[item := head]
      ensures head.prev == item && item.next == head && item.prev == old(head.prev)
    {
      ghost var s := TailShape(head, item);
      item.next := head;
      item.prev := head.prev;
      head.prev.next := item;
      head.prev := item;
      shape := s;
      forall n | n in s.owner ensures Mirrors(s, n) {
        assert n != item ==> old(Mirrors(shape, n));
      }
    }

    method AddHead(head: Node, item: Node)
      requires Valid() && head in shape.rings && item !in shape.owner
      modifies this, item, head, head.next
      ensures Valid()
      ensures shape.rings == old(shape).rings[head := [item] + old(shape).rings[head]]
      ensures shape.owner == old(shape).owner[item := head]
      ensures head.next == item && item.prev == head && item.next == old(head.next)
    {
      ghost var s := HeadShape(head, item);
      item.next := head.next;
      item.prev := head;
      head.next.prev := item;
      head.next := item;
      shape := s;
      forall n | n in s.owner ensures Mirrors(s, n) {
        assert n != item ==> old(Mirrors(shape, n));
      }
    }

    /**
     The caller names no list: the one that shrinks is the one that owns the node.  Taking
     out a head leaves its items a list of their own; a node that is alone stays as it is.
     */
    method Remove(item: Node)
      requires Valid() && item in shape.owner
      modifies this, item.next, item.prev
      ensures Valid()
      ensures OnList(old(shape).rings, old(shape).owner[item], item)
      ensures shape.rings == Dropped(old(shape).rings, old(shape).owner[item], item)
      ensures old(shape).owner[item] != item ==> shape.owner == old(shape).owner - {item}
      ensures shape.owner.Keys == if old(item.next) == item then old(shape).owner.Keys else old(shape).owner.Keys - {item}
      ensures item.next == old(item.next) && item.prev == old(item.prev)
      ensures old(item.prev).next == old(item.next) && old(item.next).prev == old(item.prev)
    {
      ghost var s := ShapeWithout(item);
      item.next.prev := item.prev;
      item.prev.next := item.next;
      shape := s;
      forall n | n in s.owner ensures Mirrors(s, n) {
        assert old(Mirrors(shape, n));
      }
    }

    // ----- Looking at a list

    method Empty(list: Node) returns (empty: bool)
      requires Valid() && list in shape.rings
      ensures empty <==> shape.rings[list] == []
    {
      Neighbours(list, 0);
      assert Ring(shape, list);
      assert shape.rings[list] != [] ==> ([list] + shape.rings[list])[1] == shape.rings[list][0];
      empty := list == list.next;
    }

    method First(list: Node) returns (node: Node)
      requires Valid() && list in shape.rings
      ensures node == if shape.rings[list] == [] then list else shape.rings[list][0]
    {
      Neighbours(list, 0);
      node := list.next;
    }

    method Last(list: Node) returns (node: Node)
      requires Valid() && list in shape.rings
      ensures node == if shape.rings[list] == [] then list else shape.rings[list][|shape.rings[list]| - 1]
    {
      Neighbours(list, |shape.rings[list]|);
      node := list.prev;
    }

    /** `list_for_each` visits exactly the items, in order. */
    method ForEach(list: Node) returns (visited: seq<Node>)
      requires Valid() && list in shape.rings
      ensures visited == shape.rings[list]
    {
      visited := [];
      Neighbours(list, 0);
      var node := list.next;
      while node != list
        invariant |visited| <= |shape.rings[list]| && visited == shape.rings[list][..|visited|]
        invariant node == Walk(list, shape.rings[list])[|visited| + 1]
        decreases |shape.rings[list]| - |visited|
      {
        Neighbours(list, |visited| + 1);
        visited := visited + [node];
        node := node.next;
      }
      if |visited| < |shape.rings[list]| {
        ItemIsNotHead(list, |visited|);
      }
    }

    /** `list_for_each_reverse` visits exactly the items, backwards. */
    method ForEachReverse(list: Node) returns (visited: seq<Node>)
      requires Valid() && list in shape.rings
      ensures |visited| == |shape.rings[list]|
      ensures forall i | 0 <= i < |visited| :: visited[i] == shape.rings[list][|visited| - 1 - i]
    {
      visited := [];
      ghost var n := |shape.rings[list]|;
      Neighbours(list, n);
      var node := list.prev;
      while node != list
        invariant |visited| <= n
        invariant forall i | 0 <= i < |visited| :: visited[i] == shape.rings[list][n - 1 - i]
        invariant node == Walk(list, shape.rings[list])[n - |visited|]
        decreases n - |visited|
      {
        Neighbours(list, n - |visited| - 1);
        visited := visited + [node];
        node := node.prev;
      }
      if |visited| < n {
        ItemIsNotHead(list, n - 1 - |visited|);
      }
    }

    lemma LinksOwned(n: Node)
      requires Valid() && n in shape.owner
      ensures n.next in shape.owner && n.prev in shape.owner
    {
      assert Housed(shape, n);
      var h := shape.owner[n];
      var k := if n == h then 0 else 1 + IndexOf(shape.rings[h], n);
      Neighbours(h, k);
      Neighbours(h, if k == 0 then |shape.rings[h]| else k - 1);
    }

    // ----- Any sequence of operations

    method Run(op: Op)
      requires Valid() && Fit(shape.rings, op)
      modifies this, shape.owner.Keys, Pushed(op)
      ensures Valid()
      ensures shape.rings == Edited(old(shape).rings, op)
      ensures shape.owner.Keys <= old(shape).owner.Keys + Pushed(op) && Pushed(op) <= shape.owner.Keys
      ensures old(shape).owner.Keys <= shape.owner.Keys + Taken(op)
      ensures op.Start? ==> op.node.next == op.node == op.node.prev
      ensures op.PushHead? ==> op.head.next == op.item && op.item.prev == op.head && op.item.next == old(op.head.next)
      ensures op.PushTail? ==> op.head.prev == op.item && op.item.next == op.head && op.item.prev == old(op.head.prev)
      ensures op.TakeOut? ==>
                && op.item in old(shape).owner && op.item.next == old(op.item.next)
                && old(op.item.prev).next == old(op.item.next) && old(op.item.next).prev == old(op.item.prev)
    {
      match op
      case Start(n) =>
        OneListEach(shape, n, if n in shape.owner then shape.owner[n] else n);
        Init(n);
      case PushTail(h, i) =>
        OneListEach(shape, i, if i in shape.owner then shape.owner[i] else i);
        Neighbours(h, |shape.rings[h]|);
        AddTail(h, i);
      case PushHead(h, i) =>
        OneListEach(shape, i, if i in shape.owner then shape.owner[i] else i);
        Neighbours(h, 0);
        AddHead(h, i);
      case TakeOut(i) =>
        ghost var h :| h in shape.rings && OnList(shape.rings, h, i);
        forall g | g in shape.rings && OnList(shape.rings, g, i) ensures i in shape.owner && g == shape.owner[i] {
          OneListEach(shape, i, g);
        }
        LinksOwned(i);
        Remove(i);
    }

    /** Any sequence of operations builds exactly the lists that the plain sequence edits describe. */
    method RunAll(ops: seq<Op>)
      requires Valid() && AllFit(shape.rings, ops, |ops|)
      modifies this, shape.owner.Keys, AllPushed(ops)
      ensures Valid()
      ensures shape.rings == EditedAll(old(shape).rings, ops, |ops|)
    {
      for k := 0 to |ops|
        invariant Valid() && AllFit(old(shape).rings, ops, k)
        invariant shape.rings == EditedAll(old(shape).rings, ops, k)
        invariant shape.owner.Keys <= old(shape).owner.Keys + AllPushed(ops)
      {
        FitPrefix(old(shape).rings, ops, k + 1, |ops|);
        assert Pushed(ops[k]) <= AllPushed(ops);
        Run(ops[k]);
      }
    }

    // ----- Moving and sifting

    /** Take a node out of whatever list holds it and put it last in another. */
    method Move(item: Node, dst: Node)
      requires Valid() && dst in shape.rings && item in shape.owner && shape.owner[item] != item
      modifies this, shape.owner.Keys
      ensures Valid()
      ensures var src := old(shape).owner[item];
              && src in old(shape).rings && item in old(shape).rings[src]
              && shape.rings == Moved(old(shape).rings, src, item, dst)
      ensures shape.owner == old(shape).owner[item := dst]
    {
      ghost var s := RemovedShape(item);
      Remove(item);
      Neighbours(dst, |shape.rings[dst]|);
      AddTail(dst, item);
    }

    /** The loop body: keep the visited node, take it out, or move it to another list. */
    method Act(list: Node, node: Node, act: Action)
      requires Valid() && list in shape.rings && node in shape.rings[list]
      requires act.MoveTo? ==> act.dst in shape.rings && act.dst != list
      modifies this, shape.owner.Keys
      ensures Valid() && shape.owner.Keys <= old(shape.owner.Keys)
      ensures shape.rings == Acted(old(shape).rings, list, node, act)
    {
      ItemIsNotHead(list, IndexOf(shape.rings[list], node));
      ghost var s := RemovedShape(node);
      match act
      case Keep =>
      case Drop => Remove(node);
      case MoveTo(dst) => Move(node, dst);
    }

    /** The first `k` items of `list` have been sifted, starting from the lists in `start`. */
    ghost predicate Sifting(start: Table, list: Node, acts: map<Node, Action>, k: nat)
      reads this, shape.owner.Keys
    {
      Valid() && Sifted(start, list, k, acts, shape.rings)
    }

    /** Meanwhile the node to visit is on the list, and its link leads to the one after it. */
    lemma NextToVisit(start: Table, list: Node, acts: map<Node, Action>, k: nat)
      requires Sifting(start, list, acts, k)
      ensures var node := Stop(list, start[list], k);
              node in shape.owner && (k < |start[list]| ==> node.next == Stop(list, start[list], k + 1))
    {
      var items, kept := start[list], Chosen(start[list], k, acts, Keep);
      assert shape.rings[list] == kept + items[k..];
      WalkShift(list, items, kept, k, 0);
      if k < |items| {
        WalkShift(list, items, kept, k, 1);
        Neighbours(list, |kept| + 1);
      } else {
        Neighbours(list, |kept|);
      }
    }

    /** One body run sifts one more item. */
    method Visit(list: Node, node: Node, acts: map<Node, Action>, ghost start: Table, ghost k: nat)
      requires Sifting(start, list, acts, k) && k < |start[list]| && node == start[list][k]
      requires Sensible(start, list, acts) && NoneTwice(start[list])
      modifies this, shape.owner.Keys
      ensures Sifting(start, list, acts, k + 1) && shape.owner.Keys <= old(shape.owner.Keys)
    {
      assert Told(start, list, acts, k) && OnlyAt(start[list], k);
      SiftOne(start, list, k, acts, shape.rings);
      Act(list, node, acts[node]);
    }

    /**
     `list_for_each_safe`: every item is visited once, in order, whatever the body does
     with the visited node; the list keeps exactly the kept items, and every other
     list gains, in order, exactly those sent to it.
     */
    method ForEachSafe(list: Node, acts: map<Node, Action>) returns (visited: seq<Node>)
      requires Valid() && Sensible(shape.rings, list, acts)
      modifies this, shape.owner.Keys
      ensures Valid()
      ensures visited == old(shape).rings[list]
      ensures Sifted(old(shape).rings, list, |visited|, acts, shape.rings)
    {
      hide Well, Sifted;
      visited := [];
      ghost var start, items := shape.rings, shape.rings[list];
      ItemsDistinct(list);
      NothingSifted(start, list, acts);
      NextToVisit(start, list, acts, 0);
      Neighbours(list, 0);
      var node := list.next;
      var n := node.next;
      ghost var k := 0;
      while node != list
        invariant k <= |items| && visited == items[..k]
        invariant Sifting(start, list, acts, k) && shape.owner.Keys <= old(shape.owner.Keys)
        invariant node == Stop(list, items, k) && (k < |items| ==> n == Stop(list, items, k + 1))
        decreases |items| - k
      {
        Visit(list, node, acts, start, k);
        visited := visited + [node];
        TakeNext(items, k);
        k := k + 1;
        NextToVisit(start, list, acts, k);
        node := n;
        n := node.next;
      }
    }
  }
}
