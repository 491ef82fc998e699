/** The layout that `Tree.updateNodesPosition` computes (src/tree.ts):
    rows (`top`), depths (`left`) and subtree heights, as pure functions
    of the tree's shape and its records' `collapsed` flags. */
module Positions {
  import opened Wrappers
  import opened Shapes
  import opened Records

  /** What the walk writes into one record. */
  datatype Slot = Slot(top: Option<int>, left: Option<int>, height: int)

  /** What walking a list of siblings leaves behind: the slots written, the
      next free row, and the `height` accumulator the walk returns. */
  datatype Walked = Walked(slots: map<int, Slot>, top: int, height: int)

  /** The inner `walk` of `updateNodesPosition` over the siblings `ks`,
      `hidden` when an ancestor is collapsed, starting at row `top`. */
  function WalkSeq(m: Arena, ks: seq<Shape>, left: int, hidden: bool, top: int): Walked
    decreases ks
  {
    if ks == [] then Walked(map[], top, 1)
    else WalkLast(m, WalkSeq(m, ks[..|ks| - 1], left, hidden, top), ks[|ks| - 1], left, hidden)
  }

  /** One iteration of the walk's loop, on kid `k` after the walk so far
      `w`: `k` takes the next row unless hidden, then its own kids are
      walked one level deeper. A childless kid is the case of an empty
      nested walk, which leaves the row counter alone and yields height 1. */
  function WalkLast(m: Arena, w: Walked, k: Shape, left: int, hidden: bool): Walked
    decreases k
  {
    var c := WalkSeq(m, k.kids, left + 1, hidden || Collapsed(m, k.id), if hidden then w.top else w.top + 1);
    var h := if Collapsed(m, k.id) then 1 else c.height;
    var slot := Slot(if hidden then None else Some(w.top), if hidden then None else Some(left), h);
    Walked(w.slots + c.slots + map[k.id := slot], c.top, w.height + h)
  }

  /** The records `m` with the slots written over them. */
  function Overlay(m: Arena, slots: map<int, Slot>): (r: Arena)
    ensures r.Keys == m.Keys
    ensures forall x :: x in m ==> r[x].id == m[x].id && r[x].node == m[x].node
    ensures forall x :: x in m && x !in slots ==> r[x] == m[x]
  {
    map x | x in m :: if x in slots then m[x].(top := slots[x].top, left := slots[x].left, height := Some(slots[x].height)) else m[x]
  }

  /** `updateNodesPosition` on the tree `s`: the root takes row 1 and depth
      1; its kids are walked from row 2 and depth 2; the root's height is
      only written when it has kids. */
  function Layout(m: Arena, s: Shape): (r: Arena)
    requires s.id in m
    ensures r.Keys == m.Keys
    ensures r[s.id].top == Some(1) && r[s.id].left == Some(1)
    ensures forall x :: x in m ==> r[x].id == m[x].id && r[x].node == m[x].node
  {
    var root := m[s.id].(top := Some(1), left := Some(1));
    if s.kids == [] then m[s.id := root]
    else
      var w := WalkSeq(m, s.kids, 2, Collapsed(m, s.id), 2);
      Overlay(m, w.slots)[s.id := root.(height := Some(if Collapsed(m, s.id) then 1 else w.height))]
  }

  // ---------------------------------------------------------------------
  // What the layout is meant to be

  /** The visible rows of `t`'s subtree in preorder: a node shows unless an
      ancestor is collapsed; its own flag hides only its descendants. */
  function Rows(m: Arena, t: Shape, hidden: bool): seq<int>
  {
    (if hidden then [] else [t.id]) + RowsSeq(m, t.kids, hidden || Collapsed(m, t.id))
  }

  function RowsSeq(m: Arena, ks: seq<Shape>, hidden: bool): seq<int>
  {
    if ks == [] then [] else RowsSeq(m, ks[..|ks| - 1], hidden) + Rows(m, ks[|ks| - 1], hidden)
  }

  /** The rows a subtree occupies when shown: one for a childless or a
      collapsed node, otherwise one more than its kids together. */
  function Height(m: Arena, t: Shape): nat
  {
    if t.kids == [] || Collapsed(m, t.id) then 1 else 1 + HeightSeq(m, t.kids)
  }

  function HeightSeq(m: Arena, ks: seq<Shape>): nat
  {
    if ks == [] then 0 else HeightSeq(m, ks[..|ks| - 1]) + Height(m, ks[|ks| - 1])
  }

  // ---------------------------------------------------------------------
  // Facts about the specification

  lemma {:induction false} RowsIn(m: Arena, t: Shape, hidden: bool)
    ensures forall x :: x in Rows(m, t, hidden) ==> x in Ids(t)
  {
    RowsSeqIn(m, t.kids, hidden || Collapsed(m, t.id));
  }

  lemma {:induction false} RowsSeqIn(m: Arena, ks: seq<Shape>, hidden: bool)
    ensures forall x :: x in RowsSeq(m, ks, hidden) ==> x in IdsSeq(ks)
  {
    if ks != [] {
      RowsSeqIn(m, ks[..|ks| - 1], hidden);
      RowsIn(m, ks[|ks| - 1], hidden);
    }
  }

  lemma {:induction false} RowsHiddenSeq(m: Arena, ks: seq<Shape>)
    ensures RowsSeq(m, ks, true) == []
  {
    if ks != [] {
      RowsHiddenSeq(m, ks[..|ks| - 1]);
      RowsHiddenSeq(m, ks[|ks| - 1].kids);
    }
  }

  /** A shown subtree has as many visible rows as its height. */
  lemma {:induction false} RowsCount(m: Arena, t: Shape)
    ensures |Rows(m, t, false)| == Height(m, t)
  {
    if Collapsed(m, t.id) {
      RowsHiddenSeq(m, t.kids);
    } else {
      RowsSeqCount(m, t.kids);
    }
  }

  lemma {:induction false} RowsSeqCount(m: Arena, ks: seq<Shape>)
    ensures |RowsSeq(m, ks, false)| == HeightSeq(m, ks)
  {
    if ks != [] {
      RowsSeqCount(m, ks[..|ks| - 1]);
      RowsCount(m, ks[|ks| - 1]);
    }
  }

  /** The visible rows of siblings: the earlier siblings', then the last
      sibling if shown, then its descendants'. */
  lemma RowsSeqStep(m: Arena, ks: seq<Shape>, hidden: bool)
    requires ks != []
    ensures var k := ks[|ks| - 1];
            RowsSeq(m, ks, hidden)
            == RowsSeq(m, ks[..|ks| - 1], hidden) + (if hidden then [] else [k.id]) + RowsSeq(m, k.kids, hidden || Collapsed(m, k.id))
  {
  }

  // ---------------------------------------------------------------------
  // What the walk computes

  /** The walk writes a slot for every id of the siblings and no other. */
  lemma {:induction false} WalkKeys(m: Arena, ks: seq<Shape>, left: int, hidden: bool, top: int)
    ensures forall x :: x in WalkSeq(m, ks, left, hidden, top).slots <==> x in IdsSeq(ks)
  {
    if ks != [] {
      var ks', k := ks[..|ks| - 1], ks[|ks| - 1];
      var w := WalkSeq(m, ks', left, hidden, top);
      WalkKeys(m, ks', left, hidden, top);
      WalkKeys(m, k.kids, left + 1, hidden || Collapsed(m, k.id), if hidden then w.top else w.top + 1);
    }
  }

  /** One step of the walk: the earlier siblings' slots, then the last
      kid's descendants', then the last kid's own, over disjoint ids. */
  lemma WalkStep(m: Arena, ks: seq<Shape>, left: int, hidden: bool, top: int)
      returns (ks': seq<Shape>, k: Shape, w: Walked, c: Walked)
    requires ks != [] && NoDup(IdsSeq(ks))
    ensures ks' == ks[..|ks| - 1] && k == ks[|ks| - 1] && IdsSeq(ks) == IdsSeq(ks') + Ids(k)
    ensures w == WalkSeq(m, ks', left, hidden, top)
    ensures c == WalkSeq(m, k.kids, left + 1, hidden || Collapsed(m, k.id), if hidden then w.top else w.top + 1)
    ensures NoDup(IdsSeq(ks')) && NoDup(IdsSeq(k.kids)) && k.id !in IdsSeq(k.kids)
    ensures forall x :: x in IdsSeq(ks') ==> x !in Ids(k)
    ensures forall x :: x in w.slots <==> x in IdsSeq(ks')
    ensures forall x :: x in c.slots <==> x in IdsSeq(k.kids)
    ensures WalkSeq(m, ks, left, hidden, top).top == c.top
    ensures WalkSeq(m, ks, left, hidden, top).height == w.height + (if Collapsed(m, k.id) then 1 else c.height)
    ensures var f := WalkSeq(m, ks, left, hidden, top).slots;
            && Agree(f, w.slots, IdsSeq(ks'))
            && Agree(f, c.slots, IdsSeq(k.kids))
            && k.id in f && f[k.id].top == (if hidden then None else Some(w.top))
            && f[k.id].left == (if hidden then None else Some(left))
            && f[k.id].height == (if Collapsed(m, k.id) then 1 else c.height)
  {
    ks', k := ks[..|ks| - 1], ks[|ks| - 1];
    assert ks == ks' + [k];
    w := WalkSeq(m, ks', left, hidden, top);
    c := WalkSeq(m, k.kids, left + 1, hidden || Collapsed(m, k.id), if hidden then w.top else w.top + 1);
    SplitLast(ks', k);
    SplitRoot(k);
    IdsSeqSnoc(ks', k);
    var slot := Slot(if hidden then None else Some(w.top), if hidden then None else Some(left), if Collapsed(m, k.id) then 1 else c.height);
    var f := WalkSeq(m, ks, left, hidden, top).slots;
    assert WalkSeq(m, ks, left, hidden, top) == WalkLast(m, w, k, left, hidden);
    assert f == w.slots + c.slots + map[k.id := slot];
    WalkKeys(m, ks', left, hidden, top);
    WalkKeys(m, k.kids, left + 1, hidden || Collapsed(m, k.id), if hidden then w.top else w.top + 1);
    UnionLeft(w.slots, c.slots, k.id, slot);
  }

  /** `f` and `g` hold the same slots for `ids`. */
  ghost predicate Agree(f: map<int, Slot>, g: map<int, Slot>, ids: seq<int>)
  {
    forall x :: x in ids ==> x in f && x in g && f[x] == g[x]
  }

  /** The nodes `rows` hold the consecutive rows from `top` in `slots`. */
  ghost predicate RowsAt(slots: map<int, Slot>, rows: seq<int>, top: int)
  {
    forall j :: 0 <= j < |rows| ==> rows[j] in slots && slots[rows[j]].top == Some(top + j)
  }

  lemma RowsAtAgree(f: map<int, Slot>, g: map<int, Slot>, ids: seq<int>, rows: seq<int>, top: int)
    requires RowsAt(g, rows, top) && Agree(f, g, ids)
    requires forall x :: x in rows ==> x in ids
    ensures RowsAt(f, rows, top)
  {
    forall j | 0 <= j < |rows|
      ensures rows[j] in f && f[rows[j]].top == Some(top + j)
    {
      var x := rows[j];
      assert x in rows;
      assert x in ids;
      assert f[x] == g[x];
    }
  }

  lemma RowsAtConcat(f: map<int, Slot>, a: seq<int>, b: seq<int>, top: int)
    requires RowsAt(f, a, top) && RowsAt(f, b, top + |a|)
    ensures RowsAt(f, a + b, top)
  {
    forall j | 0 <= j < |a + b|
      ensures (a + b)[j] in f && f[(a + b)[j]].top == Some(top + j)
    {
      if j >= |a| {
        assert (a + b)[j] == b[j - |a|];
      }
    }
  }

  lemma UnionLeft(a: map<int, Slot>, b: map<int, Slot>, k: int, v: Slot)
    ensures forall x :: x in a && x !in b && x != k ==> x in a + b + map[k := v] && (a + b + map[k := v])[x] == a[x]
    ensures forall x :: x in b && x != k ==> x in a + b + map[k := v] && (a + b + map[k := v])[x] == b[x]
    ensures k in a + b + map[k := v] && (a + b + map[k := v])[k] == v
  {
  }

  /** The walk advances the row counter by the number of visible rows. */
  lemma {:induction false} WalkNext(m: Arena, ks: seq<Shape>, left: int, hidden: bool, top: int)
    ensures WalkSeq(m, ks, left, hidden, top).top == top + |RowsSeq(m, ks, hidden)|
  {
    if ks != [] {
      var ks', k := ks[..|ks| - 1], ks[|ks| - 1];
      var w := WalkSeq(m, ks', left, hidden, top);
      var hidden' := hidden || Collapsed(m, k.id);
      WalkNext(m, ks', left, hidden, top);
      WalkNext(m, k.kids, left + 1, hidden', if hidden then w.top else w.top + 1);
    }
  }

  /** The walk hands out rows to the visible nodes in preorder, one each and
      consecutively from `top`. */
  lemma {:induction false} WalkRows(m: Arena, ks: seq<Shape>, left: int, hidden: bool, top: int)
    requires NoDup(IdsSeq(ks))
    ensures RowsAt(WalkSeq(m, ks, left, hidden, top).slots, RowsSeq(m, ks, hidden), top)
  {
    if ks != [] {
      var ks', k, w, c := WalkStep(m, ks, left, hidden, top);
      var next := if hidden then w.top else w.top + 1;
      var hidden' := hidden || Collapsed(m, k.id);
      var f := WalkSeq(m, ks, left, hidden, top).slots;
      WalkRows(m, ks', left, hidden, top);
      WalkRows(m, k.kids, left + 1, hidden', next);
      WalkNext(m, ks', left, hidden, top);
      var a, b, cr := RowsSeq(m, ks', hidden), (if hidden then [] else [k.id]), RowsSeq(m, k.kids, hidden');
      RowsSeqStep(m, ks, hidden);
      RowsSeqIn(m, ks', hidden);
      RowsSeqIn(m, k.kids, hidden');
      assert RowsAt(f, b, top + |a|);
      RowsAtJoin(f, w.slots, c.slots, IdsSeq(ks'), IdsSeq(k.kids), a, b, cr, top, next);
    }
  }

  lemma RowsAtJoin(f: map<int, Slot>, g: map<int, Slot>, h: map<int, Slot>, ids: seq<int>, ids': seq<int>,
                   a: seq<int>, b: seq<int>, cr: seq<int>, top: int, next: int)
    requires RowsAt(g, a, top) && Agree(f, g, ids) && (forall x :: x in a ==> x in ids)
    requires RowsAt(h, cr, next) && Agree(f, h, ids') && (forall x :: x in cr ==> x in ids')
    requires RowsAt(f, b, top + |a|) && next == top + |a| + |b|
    ensures RowsAt(f, a + b + cr, top)
  {
    RowsAtAgree(f, g, ids, a, top);
    RowsAtAgree(f, h, ids', cr, next);
    RowsAtConcat(f, a, b, top);
    RowsAtConcat(f, a + b, cr, top);
  }

  /** Only visible nodes get a row. */
  lemma {:induction false} WalkRowsOnly(m: Arena, ks: seq<Shape>, left: int, hidden: bool, top: int)
    ensures var w := WalkSeq(m, ks, left, hidden, top);
            forall x :: x in w.slots && w.slots[x].top.Some? ==> x in RowsSeq(m, ks, hidden)
  {
    if ks != [] {
      var ks', k := ks[..|ks| - 1], ks[|ks| - 1];
      var w := WalkSeq(m, ks', left, hidden, top);
      var hidden' := hidden || Collapsed(m, k.id);
      var c := WalkSeq(m, k.kids, left + 1, hidden', if hidden then w.top else w.top + 1);
      WalkRowsOnly(m, ks', left, hidden, top);
      WalkRowsOnly(m, k.kids, left + 1, hidden', if hidden then w.top else w.top + 1);
      var a, cr := RowsSeq(m, ks', hidden), RowsSeq(m, k.kids, hidden');
      RowsSeqStep(m, ks, hidden);
    }
  }

  /** The height the walk returns is one more than its siblings' heights. */
  lemma {:induction false} WalkHeight(m: Arena, ks: seq<Shape>, left: int, hidden: bool, top: int)
    ensures WalkSeq(m, ks, left, hidden, top).height == 1 + HeightSeq(m, ks)
  {
    if ks != [] {
      var ks', k := ks[..|ks| - 1], ks[|ks| - 1];
      var w := WalkSeq(m, ks', left, hidden, top);
      var c := WalkSeq(m, k.kids, left + 1, hidden || Collapsed(m, k.id), if hidden then w.top else w.top + 1);
      WalkHeight(m, ks', left, hidden, top);
      WalkHeight(m, k.kids, left + 1, hidden || Collapsed(m, k.id), if hidden then w.top else w.top + 1);
      assert HeightSeq(m, ks) == HeightSeq(m, ks') + Height(m, k);
    }
  }

  /** Every node of `us` has its height in `slots`. */
  ghost predicate HeightsAt(m: Arena, slots: map<int, Slot>, us: seq<Shape>)
  {
    forall u :: u in us ==> u.id in slots && slots[u.id].height == Height(m, u)
  }

  lemma HeightsAtAgree(m: Arena, f: map<int, Slot>, g: map<int, Slot>, ids: seq<int>, us: seq<Shape>)
    requires HeightsAt(m, g, us) && Agree(f, g, ids)
    requires forall u :: u in us ==> u.id in ids
    ensures HeightsAt(m, f, us)
  {
  }

  /** The walk writes every node's height, hidden or not, as `Height` says. */
  lemma {:induction false} WalkHeights(m: Arena, ks: seq<Shape>, left: int, hidden: bool, top: int)
    requires NoDup(IdsSeq(ks))
    ensures HeightsAt(m, WalkSeq(m, ks, left, hidden, top).slots, NodesSeq(ks))
  {
    if ks != [] {
      var ks', k, w, c := WalkStep(m, ks, left, hidden, top);
      var next := if hidden then w.top else w.top + 1;
      var f := WalkSeq(m, ks, left, hidden, top).slots;
      WalkHeights(m, ks', left, hidden, top);
      WalkHeights(m, k.kids, left + 1, hidden || Collapsed(m, k.id), next);
      WalkHeight(m, k.kids, left + 1, hidden || Collapsed(m, k.id), next);
      ForestClosed(ks');
      ForestClosed(k.kids);
      HeightsAtAgree(m, f, w.slots, IdsSeq(ks'), NodesSeq(ks'));
      HeightsAtAgree(m, f, c.slots, IdsSeq(k.kids), NodesSeq(k.kids));
      NodesSeqStep(ks);
    }
  }

  /** A slot is shown at depth `left`, or hidden with neither row nor depth. */
  ghost predicate Placed(s: Slot, hidden: bool, left: int)
  {
    s.top.None? == hidden && s.left == (if hidden then None else Some(left))
  }

  /** The siblings `ks` are placed alike. */
  ghost predicate KidsPlaced(slots: map<int, Slot>, ks: seq<Shape>, hidden: bool, left: int)
  {
    forall i :: 0 <= i < |ks| ==> ks[i].id in slots && Placed(slots[ks[i].id], hidden, left)
  }

  /** The depth a slot records, `null` read as 0. */
  function LeftOf(s: Slot): int
  {
    Num(s.left)
  }

  /** The kids of every node of `us` are hidden exactly when the node is
      hidden or collapsed, and otherwise one deeper than the node. */
  ghost predicate NodesPlaced(m: Arena, slots: map<int, Slot>, us: seq<Shape>)
  {
    forall u :: u in us ==>
      u.id in slots && KidsPlaced(slots, u.kids, slots[u.id].top.None? || Collapsed(m, u.id), LeftOf(slots[u.id]) + 1)
  }

  lemma KidsPlacedAgree(f: map<int, Slot>, g: map<int, Slot>, ids: seq<int>, ks: seq<Shape>, hidden: bool, left: int)
    requires KidsPlaced(g, ks, hidden, left) && Agree(f, g, ids)
    requires forall i :: 0 <= i < |ks| ==> ks[i].id in ids
    ensures KidsPlaced(f, ks, hidden, left)
  {
  }

  lemma NodesPlacedAgree(m: Arena, f: map<int, Slot>, g: map<int, Slot>, ids: seq<int>, us: seq<Shape>)
    requires NodesPlaced(m, g, us) && Agree(f, g, ids)
    requires forall u, i :: u in us && 0 <= i < |u.kids| ==> u.kids[i].id in ids
    requires forall u :: u in us ==> u.id in ids
    ensures NodesPlaced(m, f, us)
  {
    forall u | u in us
      ensures u.id in f && KidsPlaced(f, u.kids, f[u.id].top.None? || Collapsed(m, u.id), LeftOf(f[u.id]) + 1)
    {
      KidsPlacedAgree(f, g, ids, u.kids, g[u.id].top.None? || Collapsed(m, u.id), LeftOf(g[u.id]) + 1);
    }
  }

  lemma KidsPlacedLeft(f: map<int, Slot>, ks: seq<Shape>, hidden: bool, left: int, left': int)
    requires KidsPlaced(f, ks, hidden, left) && (hidden || left == left')
    ensures KidsPlaced(f, ks, hidden, left')
  {
  }

  lemma KidsPlacedJoin(f: map<int, Slot>, g: map<int, Slot>, ids: seq<int>, ks: seq<Shape>, k: Shape, hidden: bool, left: int)
    requires KidsPlaced(g, ks, hidden, left) && Agree(f, g, ids)
    requires forall i :: 0 <= i < |ks| ==> ks[i].id in ids
    requires k.id in f && Placed(f[k.id], hidden, left)
    ensures KidsPlaced(f, ks + [k], hidden, left)
  {
    KidsPlacedAgree(f, g, ids, ks, hidden, left);
    forall i | 0 <= i < |ks + [k]|
      ensures (ks + [k])[i].id in f && Placed(f[(ks + [k])[i].id], hidden, left)
    {
      if i < |ks| {
        assert (ks + [k])[i] == ks[i];
      }
    }
  }

  lemma NodesPlacedJoin(m: Arena, f: map<int, Slot>, us: seq<Shape>, k: Shape, vs: seq<Shape>)
    requires NodesPlaced(m, f, us) && NodesPlaced(m, f, vs)
    requires k.id in f && KidsPlaced(f, k.kids, f[k.id].top.None? || Collapsed(m, k.id), LeftOf(f[k.id]) + 1)
    ensures NodesPlaced(m, f, us + [k] + vs)
  {
  }

  /** The walk shows the siblings at depth `left` unless `hidden`, and each
      node's kids as its own flag and visibility say. */
  lemma {:induction false} WalkPlaced(m: Arena, ks: seq<Shape>, left: int, hidden: bool, top: int)
    requires NoDup(IdsSeq(ks))
    ensures KidsPlaced(WalkSeq(m, ks, left, hidden, top).slots, ks, hidden, left)
    ensures NodesPlaced(m, WalkSeq(m, ks, left, hidden, top).slots, NodesSeq(ks))
  {
    if ks != [] {
      var ks', k, w, c := WalkStep(m, ks, left, hidden, top);
      var next := if hidden then w.top else w.top + 1;
      var hidden' := hidden || Collapsed(m, k.id);
      var f := WalkSeq(m, ks, left, hidden, top).slots;
      WalkPlaced(m, ks', left, hidden, top);
      WalkPlaced(m, k.kids, left + 1, hidden', next);
      ForestClosed(ks');
      ForestClosed(k.kids);
      KidIdsIn(ks');
      KidIdsIn(k.kids);
      assert ks == ks' + [k];
      KidsPlacedJoin(f, w.slots, IdsSeq(ks'), ks', k, hidden, left);
      KidsPlacedAgree(f, c.slots, IdsSeq(k.kids), k.kids, hidden', left + 1);
      KidsPlacedLeft(f, k.kids, hidden', left + 1, LeftOf(f[k.id]) + 1);
      NodesPlacedAgree(m, f, w.slots, IdsSeq(ks'), NodesSeq(ks'));
      NodesPlacedAgree(m, f, c.slots, IdsSeq(k.kids), NodesSeq(k.kids));
      NodesSeqStep(ks);
      NodesPlacedJoin(m, f, NodesSeq(ks'), k, NodesSeq(k.kids));
    }
  }

  /** Every id of `ids` that has a row in `slots` is one of `rows`. */
  ghost predicate OnlyRows(slots: map<int, Slot>, ids: seq<int>, rows: seq<int>)
  {
    forall y :: y in ids && y in slots && slots[y].top.Some? ==> y in rows
  }

  /** The rows `u`'s subtree shows, given whether `u` itself is shown. */
  function Shown(m: Arena, slots: map<int, Slot>, u: Shape): seq<int>
    requires u.id in slots
  {
    if slots[u.id].top.Some? then Rows(m, u, false) else []
  }

  /** If `u` is shown at row `r`, its visible subtree holds the rows from
      `r` on in preorder; no other descendant of `u` has a row, so none
      at all when `u` is hidden. */
  ghost predicate Span(m: Arena, slots: map<int, Slot>, u: Shape)
  {
    u.id in slots &&
    (slots[u.id].top.Some? ==> RowsAt(slots, Rows(m, u, false), slots[u.id].top.value)) &&
    OnlyRows(slots, IdsSeq(u.kids), Shown(m, slots, u))
  }

  ghost predicate Spans(m: Arena, slots: map<int, Slot>, us: seq<Shape>)
  {
    forall u :: u in us ==> Span(m, slots, u)
  }

  /** A node with a row before `u`'s, or at or past the end of the rows
      `u`'s subtree spans, or any node with a row when `u` is hidden, lies
      outside that subtree. */
  lemma SpanOutside(m: Arena, F: map<int, Slot>, u: Shape, y: int)
    requires Span(m, F, u) && y in F && F[y].top.Some?
    requires F[u.id].top.None? || F[y].top.value < F[u.id].top.value || F[y].top.value >= F[u.id].top.value + Height(m, u)
    ensures y !in Ids(u)
  {
    if y in IdsSeq(u.kids) {
      RowsCount(m, u);
    }
  }

  lemma SpanAgree(m: Arena, f: map<int, Slot>, g: map<int, Slot>, ids: seq<int>, u: Shape)
    requires Span(m, g, u) && Agree(f, g, ids)
    requires forall x :: x in Ids(u) ==> x in ids
    ensures Span(m, f, u)
  {
    if g[u.id].top.Some? {
      RowsIn(m, u, false);
      RowsAtAgree(f, g, ids, Rows(m, u, false), g[u.id].top.value);
    }
    assert Shown(m, f, u) == Shown(m, g, u);
  }

  lemma SpansAgree(m: Arena, f: map<int, Slot>, g: map<int, Slot>, ks: seq<Shape>)
    requires Spans(m, g, NodesSeq(ks)) && Agree(f, g, IdsSeq(ks))
    ensures Spans(m, f, NodesSeq(ks))
  {
    forall u | u in NodesSeq(ks)
      ensures Span(m, f, u)
    {
      NodeIdsInSeq(ks, u);
      SpanAgree(m, f, g, IdsSeq(ks), u);
    }
  }

  /** The span of the last kid `k` of a step, from its nested walk `c`. */
  lemma SpanLast(m: Arena, f: map<int, Slot>, c: Walked, k: Shape, hidden: bool, row: int)
    requires k.id in f && f[k.id].top == (if hidden then None else Some(row))
    requires !hidden ==> RowsAt(c.slots, RowsSeq(m, k.kids, Collapsed(m, k.id)), row + 1)
    requires forall x :: x in c.slots && c.slots[x].top.Some? ==> x in RowsSeq(m, k.kids, hidden || Collapsed(m, k.id))
    requires forall x :: x in c.slots <==> x in IdsSeq(k.kids)
    requires Agree(f, c.slots, IdsSeq(k.kids))
    ensures Span(m, f, k)
  {
    if hidden {
      RowsHiddenSeq(m, k.kids);
      assert Shown(m, f, k) == [];
    } else {
      var cr := RowsSeq(m, k.kids, Collapsed(m, k.id));
      RowsSeqIn(m, k.kids, Collapsed(m, k.id));
      RowsAtAgree(f, c.slots, IdsSeq(k.kids), cr, row + 1);
      assert RowsAt(f, [k.id], row);
      RowsAtConcat(f, [k.id], cr, row);
      assert Rows(m, k, false) == [k.id] + cr;
    }
  }

  lemma SpansJoin(m: Arena, f: map<int, Slot>, us: seq<Shape>, k: Shape, vs: seq<Shape>)
    requires Spans(m, f, us) && Span(m, f, k) && Spans(m, f, vs)
    ensures Spans(m, f, us + [k] + vs)
  {
  }

  /** Every shown node's subtree occupies consecutive rows from its own. */
  lemma {:induction false} WalkSpans(m: Arena, ks: seq<Shape>, left: int, hidden: bool, top: int)
    requires NoDup(IdsSeq(ks))
    ensures Spans(m, WalkSeq(m, ks, left, hidden, top).slots, NodesSeq(ks))
  {
    if ks != [] {
      var ks', k, w, c := WalkStep(m, ks, left, hidden, top);
      var next := if hidden then w.top else w.top + 1;
      var hidden' := hidden || Collapsed(m, k.id);
      var f := WalkSeq(m, ks, left, hidden, top).slots;
      WalkSpans(m, ks', left, hidden, top);
      WalkSpans(m, k.kids, left + 1, hidden', next);
      SpansAgree(m, f, w.slots, ks');
      SpansAgree(m, f, c.slots, k.kids);
      WalkRows(m, k.kids, left + 1, hidden', next);
      WalkRowsOnly(m, k.kids, left + 1, hidden', next);
      SpanLast(m, f, c, k, hidden, w.top);
      NodesSeqStep(ks);
      SpansJoin(m, f, NodesSeq(ks'), k, NodesSeq(k.kids));
    }
  }

  // ---------------------------------------------------------------------
  // The layout of a whole tree

  /** The records are exactly those of the nodes of `s`. */
  ghost predicate Covers(m: Arena, s: Shape)
  {
    forall x :: x in m <==> x in Ids(s)
  }

  /** The layout fields of every record, `undefined` height read as 0. */
  function Fields(L: Arena): (r: map<int, Slot>)
    ensures r.Keys == L.Keys
  {
    map x | x in L :: Slot(L[x].top, L[x].left, Num(L[x].height))
  }

  /** The records below the root carry what the walk of the root's kids wrote. */
  lemma LayoutWalk(m: Arena, s: Shape) returns (w: Walked)
    requires WellFormed(s) && Covers(m, s)
    ensures w == WalkSeq(m, s.kids, 2, Collapsed(m, s.id), 2)
    ensures NoDup(IdsSeq(s.kids)) && s.id !in IdsSeq(s.kids)
    ensures forall x :: x in w.slots <==> x in IdsSeq(s.kids)
    ensures Agree(Fields(Layout(m, s)), w.slots, IdsSeq(s.kids))
    ensures forall x :: x in IdsSeq(s.kids) ==> Layout(m, s)[x].height.Some?
    ensures s.id in Fields(Layout(m, s))
    ensures Fields(Layout(m, s))[s.id].top == Some(1) && Fields(Layout(m, s))[s.id].left == Some(1)
    ensures s.kids != [] ==> Layout(m, s)[s.id].height == Some(if Collapsed(m, s.id) then 1 else w.height)
  {
    w := WalkSeq(m, s.kids, 2, Collapsed(m, s.id), 2);
    SplitRoot(s);
    WalkKeys(m, s.kids, 2, Collapsed(m, s.id), 2);
    if s.kids == [] {
      assert IdsSeq(s.kids) == [];
    }
  }

  /** The rows of the whole tree from those of the root's kids. */
  lemma RowsOfRoot(F: map<int, Slot>, g: map<int, Slot>, root: int, ids: seq<int>, rows: seq<int>)
    requires root in F && F[root].top == Some(1) && Agree(F, g, ids)
    requires RowsAt(g, rows, 2) && OnlyRows(g, ids, rows)
    requires forall x :: x in rows ==> x in ids
    requires forall x :: x in g <==> x in ids
    ensures RowsAt(F, [root] + rows, 1)
    ensures OnlyRows(F, ids, rows)
  {
    RowsAtAgree(F, g, ids, rows, 2);
    assert RowsAt(F, [root], 1);
    RowsAtConcat(F, [root], rows, 1);
  }

  /** `updateNodesPosition` numbers the visible nodes 1, 2, ... in preorder,
      the root first, and leaves every other node without a row. */
  lemma LayoutRows(m: Arena, s: Shape)
    requires WellFormed(s) && Covers(m, s)
    ensures RowsAt(Fields(Layout(m, s)), Rows(m, s, false), 1)
    ensures OnlyRows(Fields(Layout(m, s)), Ids(s), Rows(m, s, false))
  {
    var F, c := Fields(Layout(m, s)), Collapsed(m, s.id);
    var w := LayoutWalk(m, s);
    var cr := RowsSeq(m, s.kids, c);
    assert Rows(m, s, false) == [s.id] + cr;
    WalkRows(m, s.kids, 2, c, 2);
    WalkRowsOnly(m, s.kids, 2, c, 2);
    RowsSeqIn(m, s.kids, c);
    RowsOfRoot(F, w.slots, s.id, IdsSeq(s.kids), cr);
  }

  /** The root's kids show at depth 2 unless the root is collapsed, and
      every kid of every node is hidden exactly when its parent is hidden or
      collapsed, one deeper than its parent otherwise. */
  lemma LayoutPlaced(m: Arena, s: Shape)
    requires WellFormed(s) && Covers(m, s)
    ensures NodesPlaced(m, Fields(Layout(m, s)), Nodes(s))
  {
    var w := LayoutWalk(m, s);
    WalkPlaced(m, s.kids, 2, Collapsed(m, s.id), 2);
    PlacedOfRoot(m, Fields(Layout(m, s)), w.slots, s);
  }

  lemma PlacedOfRoot(m: Arena, F: map<int, Slot>, g: map<int, Slot>, s: Shape)
    requires s.id in F && F[s.id].top == Some(1) && F[s.id].left == Some(1)
    requires Agree(F, g, IdsSeq(s.kids))
    requires KidsPlaced(g, s.kids, Collapsed(m, s.id), 2) && NodesPlaced(m, g, NodesSeq(s.kids))
    ensures NodesPlaced(m, F, Nodes(s))
  {
    ForestClosed(s.kids);
    KidIdsIn(s.kids);
    KidsPlacedAgree(F, g, IdsSeq(s.kids), s.kids, Collapsed(m, s.id), 2);
    NodesPlacedAgree(m, F, g, IdsSeq(s.kids), NodesSeq(s.kids));
    assert Nodes(s) == [s] + NodesSeq(s.kids);
  }

  /** Every node below the root gets its subtree's height, hidden or not;
      so does the root when it has kids. */
  lemma LayoutHeights(m: Arena, s: Shape)
    requires WellFormed(s) && Covers(m, s)
    ensures HeightsAt(m, Fields(Layout(m, s)), NodesSeq(s.kids))
    ensures forall x :: x in IdsSeq(s.kids) ==> Layout(m, s)[x].height.Some?
    ensures s.kids != [] ==> Layout(m, s)[s.id].height == Some(Height(m, s))
  {
    var F, c := Fields(Layout(m, s)), Collapsed(m, s.id);
    var w := LayoutWalk(m, s);
    WalkHeights(m, s.kids, 2, c, 2);
    ForestClosed(s.kids);
    if s.kids != [] {
      WalkHeight(m, s.kids, 2, c, 2);
      var h := if c then 1 else w.height;
      assert h == Height(m, s);
      assert Layout(m, s)[s.id].height == Some(h);
    }
    HeightsAtAgree(m, F, w.slots, IdsSeq(s.kids), NodesSeq(s.kids));
  }

  /** Every shown node's subtree holds consecutive rows from its own, in
      preorder, and no node below a hidden node has a row. */
  lemma LayoutSpans(m: Arena, s: Shape)
    requires WellFormed(s) && Covers(m, s)
    ensures Spans(m, Fields(Layout(m, s)), Nodes(s))
  {
    var w := LayoutWalk(m, s);
    WalkSpans(m, s.kids, 2, Collapsed(m, s.id), 2);
    LayoutRows(m, s);
    SpansOfRoot(m, Fields(Layout(m, s)), w.slots, s);
  }

  lemma SpansOfRoot(m: Arena, F: map<int, Slot>, g: map<int, Slot>, s: Shape)
    requires s.id in F && F[s.id].top == Some(1)
    requires Agree(F, g, IdsSeq(s.kids)) && Spans(m, g, NodesSeq(s.kids))
    requires RowsAt(F, Rows(m, s, false), 1) && OnlyRows(F, Ids(s), Rows(m, s, false))
    ensures Spans(m, F, Nodes(s))
  {
    SpansAgree(m, F, g, s.kids);
    assert OnlyRows(F, IdsSeq(s.kids), Rows(m, s, false));
    assert Span(m, F, s);
    assert Nodes(s) == [s] + NodesSeq(s.kids);
  }

  // ---------------------------------------------------------------------
  // Re-running the layout

  /** A record without the fields the layout writes. */
  function Bare(r: NodeIndex): NodeIndex
  {
    r.(top := None, left := None, height := None)
  }

  /** `m` and `m'` hold the same records but for their layout fields. */
  ghost predicate SameBare(m: Arena, m': Arena)
  {
    m.Keys == m'.Keys && forall x :: x in m ==> Bare(m[x]) == Bare(m'[x])
  }

  /** The walk reads only the `collapsed` flags. */
  lemma {:induction false} WalkSame(m: Arena, m': Arena, ks: seq<Shape>, left: int, hidden: bool, top: int)
    requires SameBare(m, m')
    ensures WalkSeq(m, ks, left, hidden, top) == WalkSeq(m', ks, left, hidden, top)
    decreases ks
  {
    if ks != [] {
      var ks', k := ks[..|ks| - 1], ks[|ks| - 1];
      var w := WalkSeq(m, ks', left, hidden, top);
      WalkSame(m, m', ks', left, hidden, top);
      assert Collapsed(m, k.id) == Collapsed(m', k.id) by {
        if k.id in m {
          assert Bare(m[k.id]).node == Bare(m'[k.id]).node;
        }
      }
      WalkSame(m, m', k.kids, left + 1, hidden || Collapsed(m, k.id), if hidden then w.top else w.top + 1);
    }
  }

  lemma OverlaySame(m: Arena, m': Arena, g: map<int, Slot>, root: int, r: NodeIndex)
    requires SameBare(m, m') && forall x :: x in m ==> x == root || x in g
    ensures Overlay(m, g)[root := r] == Overlay(m', g)[root := r]
  {
    var L, L' := Overlay(m, g)[root := r], Overlay(m', g)[root := r];
    forall x | x in L
      ensures L[x] == L'[x]
    {
      if x != root {
        assert Bare(m[x]) == Bare(m'[x]);
      }
    }
  }

  /** The layout does not depend on the layout fields it overwrites; only a
      childless root keeps its `height`. */
  lemma LayoutSame(m: Arena, m': Arena, s: Shape)
    requires WellFormed(s) && Covers(m, s) && SameBare(m, m')
    requires s.kids == [] ==> m[s.id].height == m'[s.id].height
    ensures Layout(m, s) == Layout(m', s)
  {
    var c := Collapsed(m, s.id);
    assert Bare(m[s.id]) == Bare(m'[s.id]);
    assert c == Collapsed(m', s.id) by {
      assert Bare(m[s.id]).node == Bare(m'[s.id]).node;
    }
    if s.kids != [] {
      WalkSame(m, m', s.kids, 2, c, 2);
      var w := LayoutWalk(m, s);
      var r := m[s.id].(top := Some(1), left := Some(1)).(height := Some(if c then 1 else w.height));
      assert r == m'[s.id].(top := Some(1), left := Some(1)).(height := Some(if c then 1 else w.height));
      assert forall x :: x in m ==> x == s.id || x in w.slots;
      OverlaySame(m, m', w.slots, s.id, r);
    } else {
      assert Ids(s) == [s.id];
      assert m[s.id].(top := Some(1), left := Some(1)) == m'[s.id].(top := Some(1), left := Some(1));
      forall x | x in m
        ensures x == s.id
      {
      }
    }
  }

  /** Re-running `updateNodesPosition` changes nothing. */
  lemma LayoutIdempotent(m: Arena, s: Shape)
    requires WellFormed(s) && Covers(m, s)
    ensures Layout(Layout(m, s), s) == Layout(m, s)
  {
    var L := Layout(m, s);
    assert SameBare(L, m) by {
      forall x | x in L
        ensures Bare(L[x]) == Bare(m[x])
      {
      }
    }
    LayoutSame(L, m, s);
  }
}
