/** `Tree` of src/tree.ts: the js-tree index of records keyed by id, the
    nested structure beside it, and the three operations the widget adds to
    js-tree: `updateNodesPosition`, `move` and `getNodeByTop`. */
module Trees {
  import opened Wrappers
  import opened Shapes
  import opened Records
  import opened Positions
  import opened Links

  /** js-tree numbers the root 1 (src/tree.ts:26). */
  const RootId := 1

  /** The arguments `move` accepts without throwing: js-tree's `remove` and
      `insert*` look the records of `from` and `to` up after the subtree of
      `from` is cut out, so both must exist and `to` must lie outside it. */
  ghost predicate MoveOk(t: Shape, from: int, to: int)
  {
    Find(t, from).Some? && to in Ids(t) && to !in Ids(Find(t, from).value)
  }

  /** The root is 1, ids are positive and unique, and there is exactly one
      record per node, stored under its own id. */
  ghost predicate Consistent(t: Shape, m: Arena)
  {
    t.id == RootId && WellFormed(t) && Covers(m, t) &&
    forall x :: x in m ==> m[x].id == x && x >= 1
  }

  /** Consistent, with every record's `top`, `left` and `height` as
      `updateNodesPosition` leaves them. */
  ghost predicate LaidOut(t: Shape, m: Arena)
  {
    Consistent(t, m) && m == Layout(m, t)
  }

  /** The tree and records `move(from, to, pl)` leaves: unchanged when the
      guard refuses it, otherwise the subtree of `from` relocated and the
      layout recomputed. */
  ghost function Moved(t: Shape, m: Arena, from: int, to: int, pl: Placement): (r: (Shape, Arena))
    requires Consistent(t, m)
    requires from == to || to == RootId || MoveOk(t, from, to)
    ensures from == to || to == RootId ==> r == (t, m)
    ensures from != to && to != RootId ==> r.0 == Relocate(t, from, to, pl) && LaidOut(r.0, r.1)
    ensures r.1.Keys == m.Keys && forall x :: x in m ==> r.1[x].node == m[x].node
  {
    if from == to || to == RootId then (t, m)
    else
      RelocateOk(t, m, from, to, pl);
      var t' := Relocate(t, from, to, pl);
      LayoutIdempotent(m, t');
      (t', Layout(m, t'))
  }

  /** A move the guard lets through and js-tree accepts keeps the records
      consistent with the relocated tree. */
  lemma RelocateOk(t: Shape, m: Arena, from: int, to: int, pl: Placement)
    requires Consistent(t, m) && MoveOk(t, from, to) && to != RootId
    ensures Consistent(Relocate(t, from, to, pl), m)
  {
    RelocateIds(t, from, to, pl);
    var t' := Relocate(t, from, to, pl);
    forall x
      ensures x in Ids(t') <==> x in Ids(t)
    {
      assert x in Ids(t') <==> x in multiset(Ids(t'));
      assert x in Ids(t) <==> x in multiset(Ids(t));
    }
  }

  /** Writing a record's own `collapsed` flag back changes nothing. */
  lemma SameFlag(m: Arena, x: int, c: bool)
    requires x in m && m[x].node.collapsed == c
    ensures m[x := m[x].(node := m[x].node.(collapsed := c))] == m
  {
  }

  /** The record on row `t`: the least id whose `top` is `t`, as a scan of
      the index in ascending key order finds it; none if no record has it. */
  ghost function RowOwner(m: Arena, t: int): (r: Option<int>)
    ensures r.Some? ==> r.value in m && m[r.value].top == Some(t)
    ensures r.Some? ==> forall y :: y in m && m[y].top == Some(t) ==> r.value <= y
    ensures r.None? ==> forall y :: y in m ==> m[y].top != Some(t)
  {
    if a :| a in m && m[a].top == Some(t) then
      var hits := set y | y in m && m[y].top == Some(t);
      assert forall y :: y in m && m[y].top == Some(t) ==> y in hits;
      LeastExists(hits, a);
      var x :| x in hits && forall y :: y in hits ==> x <= y;
      Some(x)
    else None
  }

  /** The least element of a finite set of integers holding `a`. */
  lemma Least(s: set<int>, a: int) returns (x: int)
    requires a in s
    ensures x in s && forall y :: y in s ==> x <= y
    decreases |s|
  {
    if b :| b in s && b < a {
      var z := Least(s - {a}, b);
      x := if a < z then a else z;
      forall y | y in s ensures x <= y {
        if y != a {
          assert y in s - {a};
        }
      }
    } else {
      x := a;
    }
  }

  lemma LeastExists(s: set<int>, a: int)
    requires a in s
    ensures exists x :: x in s && forall y :: y in s ==> x <= y
  {
    var x := Least(s, a);
  }

  lemma NonEmpty(s: set<int>)
    requires s != {}
    ensures exists a :: a in s
  {
    if forall a :: a !in s {
      assert false;
    }
  }

  /** On a laid-out tree the record on row `t` is the `t`th visible node in
      preorder, and rows run from 1 to the tree's height without a gap. */
  lemma RowOwnerRows(m: Arena, s: Shape, t: int)
    requires WellFormed(s) && Covers(m, s)
    ensures RowOwner(Layout(m, s), t).Some? <==> 1 <= t <= Height(m, s)
    ensures 1 <= t <= |Rows(m, s, false)| ==> RowOwner(Layout(m, s), t) == Some(Rows(m, s, false)[t - 1])
  {
    LayoutRows(m, s);
    RowsCount(m, s);
    RowsIn(m, s, false);
    RowsOwned(Layout(m, s), Fields(Layout(m, s)), Ids(s), Rows(m, s, false), t);
  }

  /** On a laid-out tree no two records share a row, so the record
      `getNodeByTop` finds is the only one on its row. */
  lemma RowUnique(m: Arena, s: Shape, x: int, y: int)
    requires WellFormed(s) && Covers(m, s)
    requires x in m && y in m && Layout(m, s)[x].top.Some? && Layout(m, s)[x].top == Layout(m, s)[y].top
    ensures x == y
  {
    var F, rows := Fields(Layout(m, s)), Rows(m, s, false);
    LayoutRows(m, s);
    assert x in rows && y in rows;
    var i :| 0 <= i < |rows| && rows[i] == x;
    var j :| 0 <= j < |rows| && rows[j] == y;
    assert F[x].top == Some(1 + i) && F[y].top == Some(1 + j);
  }

  lemma RowsOwned(L: Arena, F: map<int, Slot>, ids: seq<int>, rows: seq<int>, t: int)
    requires F.Keys == L.Keys && forall x :: x in L ==> F[x].top == L[x].top
    requires forall x :: x in L <==> x in ids
    requires RowsAt(F, rows, 1) && OnlyRows(F, ids, rows)
    ensures RowOwner(L, t).Some? <==> 1 <= t <= |rows|
    ensures 1 <= t <= |rows| ==> RowOwner(L, t) == Some(rows[t - 1])
  {
    if 1 <= t <= |rows| {
      var x := rows[t - 1];
      assert x in F && F[x].top == Some(1 + (t - 1));
      assert L[x].top == Some(t);
    }
    match RowOwner(L, t)
    case Some(x) =>
      assert x in rows;
      var j :| 0 <= j < |rows| && rows[j] == x;
      assert F[x].top == Some(1 + j);
    case None =>
  }

  /** Fresh records for the nodes `nodes`, with no layout yet. */
  function Fresh(nodes: map<int, TreeNode>): (r: Arena)
    ensures r.Keys == nodes.Keys
    ensures forall x :: x in r ==> r[x] == NodeIndex(x, nodes[x], None, None, None)
  {
    map x | x in nodes :: NodeIndex(x, nodes[x], None, None, None)
  }

  class Tree {
    /** The records, keyed by id (js-tree's `indexes`). */
    var indexes: Arena
    /** The nested structure (js-tree's `obj`), reduced to ids. */
    var obj: Shape

    /** What js-tree keeps true of `obj` and `indexes`. */
    ghost predicate Valid()
      reads this
    {
      Consistent(obj, indexes)
    }

    /** Valid, with the layout up to date. */
    ghost predicate Positioned()
      reads this
    {
      LaidOut(obj, indexes)
    }

    /** `new Tree(tree)`: one record per node, with no layout yet. */
    constructor (s: Shape, nodes: map<int, TreeNode>)
      requires s.id == RootId && WellFormed(s)
      requires forall x :: x in nodes <==> x in Ids(s)
      requires forall x :: x in nodes ==> x >= 1
      ensures obj == s && indexes == Fresh(nodes)
      ensures Valid()
    {
      obj := s;
      indexes := Fresh(nodes);
    }

    /** The inner `walk` of `updateNodesPosition` (src/tree.ts:36-69) over
        the siblings `ks` of the record `parent`. `top` is the shared row
        counter on entry and `next` its value on return. */
    method Walk(ks: seq<Shape>, parent: int, left: int, hidden: bool, top: int) returns (height: int, next: int)
      requires NoDup(IdsSeq(ks)) && parent !in IdsSeq(ks) && parent in indexes
      requires forall x :: x in IdsSeq(ks) ==> x in indexes
      modifies this
      ensures obj == old(obj)
      ensures height == (if Collapsed(old(indexes), parent) then 1 else WalkSeq(old(indexes), ks, left, hidden, top).height)
      ensures next == WalkSeq(old(indexes), ks, left, hidden, top).top
      ensures indexes == Overlay(old(indexes), WalkSeq(old(indexes), ks, left, hidden, top).slots)[parent := old(indexes)[parent].(height := Some(height))]
      decreases ks, 1
    {
      ghost var m0 := indexes;
      var sum := 1;
      next := top;
      var i := 0;
      while i < |ks|
        invariant 0 <= i <= |ks|
        invariant obj == old(obj)
        invariant sum == WalkSeq(m0, ks[..i], left, hidden, top).height
        invariant next == WalkSeq(m0, ks[..i], left, hidden, top).top
        invariant indexes == Overlay(m0, WalkSeq(m0, ks[..i], left, hidden, top).slots)
      {
        var h;
        h, next := Visit(m0, ks, i, left, hidden, top, next);
        sum := sum + h;
        i := i + 1;
      }
      assert ks[..i] == ks;
      WalkKeys(m0, ks, left, hidden, top);
      if indexes[parent].node.collapsed {
        indexes := indexes[parent := indexes[parent].(height := Some(1))];
      } else {
        indexes := indexes[parent := indexes[parent].(height := Some(sum))];
      }
      height := indexes[parent].height.value;
    }

    /** One turn of the walk's `forEach`, on the kid `ks[i]` whose row is
        `next`: the kid's row and depth (none when hidden), then its
        subtree walked or, for a kid without kids, its height 1. Returns
        the kid's height and the next free row. */
    method Visit(ghost m0: Arena, ks: seq<Shape>, i: int, left: int, hidden: bool, ghost top: int, next: int) returns (h: int, next': int)
      requires NoDup(IdsSeq(ks)) && 0 <= i < |ks| && forall x :: x in IdsSeq(ks) ==> x in m0
      requires next == WalkSeq(m0, ks[..i], left, hidden, top).top
      requires indexes == Overlay(m0, WalkSeq(m0, ks[..i], left, hidden, top).slots)
      modifies this
      ensures obj == old(obj)
      ensures WalkSeq(m0, ks[..i], left, hidden, top).height + h == WalkSeq(m0, ks[..i + 1], left, hidden, top).height
      ensures next' == WalkSeq(m0, ks[..i + 1], left, hidden, top).top
      ensures indexes == Overlay(m0, WalkSeq(m0, ks[..i + 1], left, hidden, top).slots)
      decreases ks, 0
    {
      var k := ks[i];
      ghost var m1 := indexes;
      WalkEnter(m0, ks, i, m1);
      next' := next;
      if hidden {
        indexes := indexes[k.id := indexes[k.id].(top := None, left := None)];
      } else {
        indexes := indexes[k.id := indexes[k.id].(top := Some(next'), left := Some(left))];
        next' := next' + 1;
      }
      ghost var ma := indexes;
      if k.kids != [] {
        h, next' := Walk(k.kids, k.id, left + 1, hidden || indexes[k.id].node.collapsed, next');
        WalkInnerStep(m0, ks, i, i + 1, left, hidden, top, m1, next, ma, h, next', indexes);
      } else {
        indexes := indexes[k.id := indexes[k.id].(height := Some(1))];
        h := 1;
        WalkLeafStep(m0, ks, i, i + 1, left, hidden, top, m1, next, ma, next', indexes);
      }
    }

    /** `updateNodesPosition` (src/tree.ts:23-70): the root on row 1 at
        depth 1, then its kids walked from row 2 at depth 2. */
    method UpdateNodesPosition()
      requires Valid()
      modifies this
      ensures obj == old(obj)
      ensures indexes == Layout(old(indexes), obj)
      ensures Positioned()
    {
      ghost var m0 := indexes;
      var top := 1;
      var left := 1;
      var root := indexes[RootId];
      indexes := indexes[RootId := root.(top := Some(top))];
      top := top + 1;
      indexes := indexes[RootId := indexes[RootId].(left := Some(left))];
      left := left + 1;
      SplitRoot(obj);
      ghost var m1 := indexes;
      WriteBare(m0, m0, RootId, m1[RootId]);
      if obj.kids != [] {
        WalkSame(m1, m0, obj.kids, 2, Collapsed(m0, RootId), 2);
        var h, n := Walk(obj.kids, RootId, left, indexes[RootId].node.collapsed, top);
        WalkKeys(m0, obj.kids, 2, Collapsed(m0, RootId), 2);
        OverlayOutside(m0, m1, WalkSeq(m0, obj.kids, 2, Collapsed(m0, RootId), 2).slots, RootId, indexes[RootId]);
      }
      LayoutIdempotent(m0, obj);
    }

    /** `move(fromId, toId, placement)` (src/tree.ts:72-85): refused when
        `from` is `to` or `to` is the root; otherwise js-tree cuts the subtree
        of `from` out and grafts it relative to `to`, and the layout is
        recomputed. The record returned is the moved node's. */
    method Move(from: int, to: int, pl: Placement) returns (r: Option<NodeIndex>)
      requires Valid()
      requires from == to || to == RootId || MoveOk(obj, from, to)
      modifies this
      ensures (obj, indexes) == Moved(old(obj), old(indexes), from, to, pl)
      ensures from == to || to == RootId ==> r.None?
      ensures from != to && to != RootId ==> Positioned() && from in indexes && r == Some(indexes[from])
    {
      if from == to || to == RootId {
        return None;
      }
      var sub := Find(obj, from).value;
      RelocateOk(obj, indexes, from, to, pl);
      obj := Prune(obj, from);
      if pl == Before {
        obj := Graft(obj, sub, to, Before);
      } else if pl == After {
        obj := Graft(obj, sub, to, After);
      } else if pl == Prepend {
        obj := Graft(obj, sub, to, Prepend);
      } else {
        obj := Graft(obj, sub, to, Append);
      }
      UpdateNodesPosition();
      r := Some(indexes[from]);
    }

    /** `getNodeByTop(top)` (src/tree.ts:87-94): the records are scanned in
        ascending id order and the first whose `top` is `t` is returned. */
    method GetNodeByTop(t: int) returns (r: Option<NodeIndex>)
      ensures r.Some? ==> r.value.top == Some(t) && exists x :: x in indexes && indexes[x] == r.value
      ensures r.None? ==> forall x :: x in indexes ==> indexes[x].top != Some(t)
      ensures r == (match RowOwner(indexes, t) case Some(x) => Some(indexes[x]) case None => None)
    {
      var rest := indexes.Keys;
      while rest != {}
        invariant rest <= indexes.Keys
        invariant forall y :: y in indexes && y !in rest ==> indexes[y].top != Some(t)
        invariant forall y, z :: y in indexes && y !in rest && z in rest ==> y < z
        decreases |rest|
      {
        NonEmpty(rest);
        var a :| a in rest;
        LeastExists(rest, a);
        var id :| id in rest && forall y :: y in rest ==> id <= y;
        if indexes[id].top == Some(t) {
          return Some(indexes[id]);
        }
        rest := rest - {id};
      }
      return None;
    }

    /** `index.node.collapsed = c` on the record of `x`; nothing else is
        recomputed. */
    method SetCollapsed(x: int, c: bool)
      requires x in indexes
      modifies this
      ensures obj == old(obj)
      ensures indexes == old(indexes)[x := old(indexes)[x].(node := old(indexes)[x].node.(collapsed := c))]
    {
      indexes := indexes[x := indexes[x].(node := indexes[x].node.(collapsed := c))];
    }
  }

  // ---------------------------------------------------------------------
  // How the walk in place builds the layout

  /** A prefix one longer is the prefix and the next element. */
  lemma Snoc<T>(s: seq<T>, i: int)
    requires 0 <= i < |s|
    ensures s[..i + 1] == s[..i] + [s[i]]
  {
  }

  /** The facts about the prefix `ks[..i]` and the next kid `ks[i]` that one
      iteration of the walk's loop relies on. */
  lemma PrefixStep(ks: seq<Shape>, i: int)
    requires NoDup(IdsSeq(ks)) && 0 <= i < |ks|
    ensures ks[..i + 1] == ks[..i] + [ks[i]]
    ensures NoDup(IdsSeq(ks[..i])) && NoDup(IdsSeq(ks[i].kids)) && ks[i].id !in IdsSeq(ks[i].kids)
    ensures forall x :: x in IdsSeq(ks[..i]) ==> x !in Ids(ks[i])
    ensures forall x :: x in Ids(ks[i]) ==> x in IdsSeq(ks)
  {
    Snoc(ks, i);
    PrefixSplit(ks, i);
    SplitRoot(ks[i]);
    KidWithin(ks, i);
    NodeIdsInSeq(ks, ks[i]);
  }

  /** What the walk's loop needs to descend into the kid `ks[i]`. */
  lemma WalkEnter(m0: Arena, ks: seq<Shape>, i: int, m1: Arena)
    requires NoDup(IdsSeq(ks)) && 0 <= i < |ks| && m1.Keys == m0.Keys
    requires forall x :: x in IdsSeq(ks) ==> x in m0
    ensures ks[i].id in m1 && NoDup(IdsSeq(ks[i].kids)) && ks[i].id !in IdsSeq(ks[i].kids)
    ensures forall x :: x in IdsSeq(ks[i].kids) ==> x in m1
  {
    PrefixSplit(ks, i);
    SplitRoot(ks[i]);
    KidWithin(ks, i);
    NodeIdsInSeq(ks, ks[i]);
  }

  /** The loop's iteration on a kid with kids of its own: its row and
      depth written into `m1`, giving `ma`, then the recursive walk, which
      leaves `m2`, extends the overlay of the walk so far by one kid. */
  lemma WalkInnerStep(m0: Arena, ks: seq<Shape>, i: int, j: int, left: int, hidden: bool, top: int,
                      m1: Arena, n1: int, ma: Arena, h: int, n2: int, m2: Arena)
    requires NoDup(IdsSeq(ks)) && 0 <= i < |ks| && j == i + 1 && forall x :: x in IdsSeq(ks) ==> x in m0
    requires m1 == Overlay(m0, WalkSeq(m0, ks[..i], left, hidden, top).slots)
    requires n1 == WalkSeq(m0, ks[..i], left, hidden, top).top
    requires ks[i].id in m1
    requires ma == m1[ks[i].id := m1[ks[i].id].(top := if hidden then None else Some(n1), left := if hidden then None else Some(left))]
    requires h == (if Collapsed(ma, ks[i].id) then 1 else WalkSeq(ma, ks[i].kids, left + 1, hidden || ma[ks[i].id].node.collapsed, if hidden then n1 else n1 + 1).height)
    requires n2 == WalkSeq(ma, ks[i].kids, left + 1, hidden || ma[ks[i].id].node.collapsed, if hidden then n1 else n1 + 1).top
    requires m2 == Overlay(ma, WalkSeq(ma, ks[i].kids, left + 1, hidden || ma[ks[i].id].node.collapsed, if hidden then n1 else n1 + 1).slots)[ks[i].id := ma[ks[i].id].(height := Some(h))]
    ensures m2 == Overlay(m0, WalkSeq(m0, ks[..j], left, hidden, top).slots)
    ensures n2 == WalkSeq(m0, ks[..j], left, hidden, top).top
    ensures WalkSeq(m0, ks[..i], left, hidden, top).height + h == WalkSeq(m0, ks[..j], left, hidden, top).height
  {
    var k := ks[i];
    var w := WalkSeq(m0, ks[..i], left, hidden, top);
    var n := if hidden then n1 else n1 + 1;
    PrefixStep(ks, i);
    WalkKeys(m0, ks[..i], left, hidden, top);
    OverlayBare(m0, w.slots);
    WriteBare(m1, m0, k.id, ma[k.id]);
    assert ma[k.id].node.collapsed == Collapsed(m0, k.id);
    WalkSame(ma, m0, k.kids, left + 1, hidden || Collapsed(m0, k.id), n);
    var c := WalkSeq(m0, k.kids, left + 1, hidden || Collapsed(m0, k.id), n);
    WalkKeys(m0, k.kids, left + 1, hidden || Collapsed(m0, k.id), n);
    WalkLoopStep(m0, ks, i, left, hidden, top, w, ma, c, h, m2);
  }

  /** The loop's iteration on a childless kid: row and depth, then height 1. */
  lemma WalkLeafStep(m0: Arena, ks: seq<Shape>, i: int, j: int, left: int, hidden: bool, top: int,
                     m1: Arena, n1: int, ma: Arena, n2: int, m2: Arena)
    requires NoDup(IdsSeq(ks)) && 0 <= i < |ks| && j == i + 1 && forall x :: x in IdsSeq(ks) ==> x in m0
    requires ks[i].kids == []
    requires m1 == Overlay(m0, WalkSeq(m0, ks[..i], left, hidden, top).slots)
    requires n1 == WalkSeq(m0, ks[..i], left, hidden, top).top
    requires ks[i].id in m1
    requires ma == m1[ks[i].id := m1[ks[i].id].(top := if hidden then None else Some(n1), left := if hidden then None else Some(left))]
    requires m2 == ma[ks[i].id := ma[ks[i].id].(height := Some(1))]
    requires n2 == if hidden then n1 else n1 + 1
    ensures m2 == Overlay(m0, WalkSeq(m0, ks[..j], left, hidden, top).slots)
    ensures n2 == WalkSeq(m0, ks[..j], left, hidden, top).top
    ensures WalkSeq(m0, ks[..i], left, hidden, top).height + 1 == WalkSeq(m0, ks[..j], left, hidden, top).height
  {
    var k := ks[i];
    var w := WalkSeq(m0, ks[..i], left, hidden, top);
    var n := if hidden then n1 else n1 + 1;
    PrefixStep(ks, i);
    WalkKeys(m0, ks[..i], left, hidden, top);
    var c := WalkSeq(m0, k.kids, left + 1, hidden || Collapsed(m0, k.id), n);
    assert c == Walked(map[], n, 1);
    OverlayEmpty(ma);
    WalkLoopStep(m0, ks, i, left, hidden, top, w, ma, c, 1, m2);
  }

  lemma OverlayBare(m: Arena, slots: map<int, Slot>)
    ensures SameBare(Overlay(m, slots), m)
  {
  }

  lemma WriteBare(m: Arena, m0: Arena, x: int, r: NodeIndex)
    requires SameBare(m, m0) && x in m && Bare(r) == Bare(m[x])
    ensures SameBare(m[x := r], m0)
  {
  }

  lemma OverlayEmpty(m: Arena)
    ensures Overlay(m, map[]) == m
  {
  }

  /** Writing `r` at `x` before overlaying slots that miss `x` is overridden
      by writing `x` afterwards. */
  lemma OverlayOutside(m0: Arena, m1: Arena, slots: map<int, Slot>, x: int, r: NodeIndex)
    requires x in m0 && x in m1 && x !in slots && m1 == m0[x := m1[x]]
    ensures Overlay(m1, slots)[x := r] == Overlay(m0, slots)[x := r]
  {
  }

  /** Writing a slot's row and depth, then the slots of its subtree, then
      its height, is overlaying all of them at once. */
  lemma OverlayStep(m0: Arena, ws: map<int, Slot>, cs: map<int, Slot>, k: int, slot: Slot, ma: Arena, m2: Arena)
    requires k in m0 && k !in cs
    requires ma == Overlay(m0, ws)[k := Overlay(m0, ws)[k].(top := slot.top, left := slot.left)]
    requires m2 == Overlay(ma, cs)[k := ma[k].(height := Some(slot.height))]
    ensures m2 == Overlay(m0, ws + cs + map[k := slot])
  {
    var f := ws + cs + map[k := slot];
    forall x | x in m2
      ensures m2[x] == Overlay(m0, f)[x]
    {
    }
  }

  /** One iteration of the walk's loop extends the overlay of the walk of
      `ks[..i]` to that of `ks[..i + 1]`. */
  lemma WalkLoopStep(m0: Arena, ks: seq<Shape>, i: int, left: int, hidden: bool, top: int,
                     w: Walked, ma: Arena, c: Walked, h: int, m2: Arena)
    requires 0 <= i < |ks| && ks[i].id in m0 && ks[i].id !in c.slots
    requires w == WalkSeq(m0, ks[..i], left, hidden, top)
    requires ma == Overlay(m0, w.slots)[ks[i].id := Overlay(m0, w.slots)[ks[i].id].(
               top := if hidden then None else Some(w.top), left := if hidden then None else Some(left))]
    requires c == WalkSeq(m0, ks[i].kids, left + 1, hidden || Collapsed(m0, ks[i].id), if hidden then w.top else w.top + 1)
    requires h == (if Collapsed(m0, ks[i].id) then 1 else c.height)
    requires m2 == Overlay(ma, c.slots)[ks[i].id := ma[ks[i].id].(height := Some(h))]
    ensures m2 == Overlay(m0, WalkSeq(m0, ks[..i + 1], left, hidden, top).slots)
    ensures c.top == WalkSeq(m0, ks[..i + 1], left, hidden, top).top
    ensures w.height + h == WalkSeq(m0, ks[..i + 1], left, hidden, top).height
  {
    var k := ks[i];
    WalkSnoc(m0, ks, i, left, hidden, top);
    var slot := Slot(if hidden then None else Some(w.top), if hidden then None else Some(left), h);
    WalkLastIs(m0, w, k, left, hidden, c);
    OverlayStep(m0, w.slots, c.slots, k.id, slot, ma, m2);
  }

  /** One step of the loop, spelled out for a given nested walk `c`. */
  lemma WalkLastIs(m0: Arena, w: Walked, k: Shape, left: int, hidden: bool, c: Walked)
    requires c == WalkSeq(m0, k.kids, left + 1, hidden || Collapsed(m0, k.id), if hidden then w.top else w.top + 1)
    ensures var h := if Collapsed(m0, k.id) then 1 else c.height;
            WalkLast(m0, w, k, left, hidden) ==
            Walked(w.slots + c.slots + map[k.id := Slot(if hidden then None else Some(w.top), if hidden then None else Some(left), h)], c.top, w.height + h)
  {
  }

  /** The walk over one more kid is one more step of the loop. */
  lemma WalkSnoc(m0: Arena, ks: seq<Shape>, i: int, left: int, hidden: bool, top: int)
    requires 0 <= i < |ks|
    ensures WalkSeq(m0, ks[..i + 1], left, hidden, top) == WalkLast(m0, WalkSeq(m0, ks[..i], left, hidden, top), ks[i], left, hidden)
  {
    assert ks[..i + 1][..i] == ks[..i];
  }
}
