/** The decision `ReTree.onDrag` takes (src/index.tsx:136-225), as pure
    functions of the tree, its records and the dragged node's offset: a
    horizontal outdent or indent first, then a vertical reorder on the tree
    the first one left. */
module Drag {
  import opened Wrappers
  import opened Shapes
  import opened Records
  import opened Positions
  import opened Links
  import opened Trees

  /** `diffX` (src/index.tsx:163) doubled, so that `paddingLeft / 2` stays
      whole (see `DiffX2Exact`). */
  function DiffX2(x: int, pad: int, left: int): int
  {
    2 * x - pad - 2 * (left - 2) * pad
  }

  /** `diffY` (src/index.tsx:164-165) doubled, with the row height `h`
      (see `DiffY2Exact`). */
  function DiffY2(y: int, h: int, top: int): int
  {
    2 * y - h - 2 * (top - 2) * h
  }

  /** `DiffX2` is twice the source's quotient, so its sign and its
      comparison with `paddingLeft` are those of `diffX`. */
  lemma DiffX2Exact(x: int, pad: int, left: int)
    ensures DiffX2(x, pad, left) as real == 2.0 * (x as real - pad as real / 2.0 - (left - 2) as real * pad as real)
    ensures DiffX2(x, pad, left) < 0 <==> x as real - pad as real / 2.0 - (left - 2) as real * pad as real < 0.0
    ensures DiffX2(x, pad, left) > 2 * pad <==> x as real - pad as real / 2.0 - (left - 2) as real * pad as real > pad as real
  {
  }

  /** `DiffY2` is twice `diffY`, compared with `dragging.h` alike. */
  lemma DiffY2Exact(y: int, h: int, top: int)
    ensures DiffY2(y, h, top) as real == 2.0 * (y as real - h as real / 2.0 - (top - 2) as real * h as real)
    ensures DiffY2(y, h, top) < 0 <==> y as real - h as real / 2.0 - (top - 2) as real * h as real < 0.0
    ensures DiffY2(y, h, top) > 2 * h <==> y as real - h as real / 2.0 - (top - 2) as real * h as real > h as real
  {
  }

  /** What one branch of `onDrag` asks of `tree.move`: nothing, a move of
      the dragged node relative to `to`, or (up, with no record on the row
      above) the `TypeError` of reading `above.id` on `undefined`. */
  datatype Request = Stay | MoveTo(to: int, pl: Placement) | NoRowAbove

  /** The horizontal branch (src/index.tsx:167-180): left of the node's
      depth, a last sibling goes just after its parent; right of it, the
      node goes last under its previous sibling unless that one is
      collapsed or a leaf. */
  function Horizontal(t: Shape, m: Arena, id: int, dx2: int, pad: int): Request
  {
    if dx2 < 0 then
      match ParentOf(t, id)
      case Some(p) => if NextOf(t, id).None? then MoveTo(p, After) else Stay
      case None => Stay
    else if dx2 > 2 * pad then
      match PrevOf(t, id)
      case Some(p) => if !Collapsed(m, p) && !Leaf(m, p) then MoveTo(p, Append) else Stay
      case None => Stay
    else Stay
  }

  /** Where a node dropped below `b` goes: first under `b` when `b` shows
      kids, otherwise just after it (src/index.tsx:196-200, 204-212). */
  function Below(t: Shape, m: Arena, b: int): Placement
  {
    if KidsOf(t, b) != [] && !Collapsed(m, b) then Prepend else After
  }

  /** The vertical branch (src/index.tsx:188-215), read off the record of
      the dragged node as the horizontal move left it: up, before the
      record on the row above; down, relative to the next sibling or, for
      a last sibling, to the record on the first row after its subtree
      unless that record is its own child. An unknown `height` makes that
      row `NaN`, which no record holds. */
  ghost function Vertical(t: Shape, m: Arena, id: int, dy2: int, h: int): Request
    requires id in m
  {
    if dy2 < 0 then Upward(m, id)
    else if dy2 > 2 * h then Downward(t, m, id)
    else Stay
  }

  /** Dragged up: before the record on the row above. */
  ghost function Upward(m: Arena, id: int): Request
    requires id in m
  {
    match RowOwner(m, Num(m[id].top) - 1)
    case Some(a) => MoveTo(a, Before)
    case None => NoRowAbove
  }

  /** Dragged down: relative to the next sibling or, for a last sibling,
      to the record on the first row after its subtree. */
  ghost function Downward(t: Shape, m: Arena, id: int): Request
    requires id in m
  {
    var r := m[id];
    match NextOf(t, id)
    case Some(n) => MoveTo(n, Below(t, m, n))
    case None =>
      Beneath(t, id, m, if r.height.Some? then RowOwner(m, Num(r.top) + r.height.value) else None)
  }

  /** A last sibling `id` dragged down goes relative to the record `below`
      on the first row after its subtree, if there is one and it is not
      its own child (src/index.tsx:202-214). */
  function Beneath(t: Shape, id: int, m: Arena, below: Option<int>): Request
  {
    match below
    case Some(b) => if ParentOf(t, b) == Some(id) then Stay else MoveTo(b, Below(t, m, b))
    case None => Stay
  }

  /** The tree and records after the horizontal branch of `onDrag`. */
  ghost function Shifted(t: Shape, m: Arena, id: int, dx2: int, pad: int): (r: (Shape, Arena))
    requires LaidOut(t, m) && id in m
    ensures LaidOut(r.0, r.1) && r.1.Keys == m.Keys
    ensures forall y :: y in m ==> r.1[y].node == m[y].node
  {
    HorizontalSafe(t, m, id, dx2, pad);
    match Horizontal(t, m, id, dx2, pad)
    case MoveTo(to, pl) => Moved(t, m, id, to, pl)
    case _ => (t, m)
  }

  /** The tree and records after the vertical branch of `onDrag`, and
      whether it stopped at the `TypeError`. */
  ghost function Reordered(t: Shape, m: Arena, id: int, dy2: int, h: int): (r: (Shape, Arena, bool))
    requires LaidOut(t, m) && id in m
    ensures LaidOut(r.0, r.1) && r.1.Keys == m.Keys
    ensures forall y :: y in m ==> r.1[y].node == m[y].node
  {
    VerticalSafe(t, m, id, dy2, h);
    match Vertical(t, m, id, dy2, h)
    case NoRowAbove => (t, m, true)
    case MoveTo(to, pl) =>
      var (t', m') := Moved(t, m, id, to, pl);
      (t', m', false)
    case Stay => (t, m, false)
  }

  /** `onDrag` on the tree `t` with records `m`, the node `id` dragged to
      `(x, y)`, `paddingLeft` `pad` and row height `h`: the tree and records
      it leaves, and whether it stopped at the `TypeError`. Both offsets
      are taken from the record before any move; the vertical branch reads
      the tree the horizontal one left. */
  ghost function Dragged(t: Shape, m: Arena, id: int, x: int, y: int, pad: int, h: int): (r: (Shape, Arena, bool))
    requires LaidOut(t, m) && id in m
    ensures LaidOut(r.0, r.1) && r.1.Keys == m.Keys
    ensures forall z :: z in m ==> r.1[z].node == m[z].node
  {
    var (t1, m1) := Shifted(t, m, id, DiffX2(x, pad, Num(m[id].left)), pad);
    Reordered(t1, m1, id, DiffY2(y, h, Num(m[id].top)), h)
  }

  // ---------------------------------------------------------------------
  // Every move `onDrag` asks for is one js-tree can carry out

  /** The parent and the previous sibling lie outside the dragged subtree. */
  lemma HorizontalSafe(t: Shape, m: Arena, id: int, dx2: int, pad: int)
    requires Consistent(t, m) && id in m
    ensures Horizontal(t, m, id, dx2, pad).MoveTo? ==> MoveOk(t, id, Horizontal(t, m, id, dx2, pad).to)
  {
    if ParentNode(t, id).Some? {
      ParentOutside(t, id);
      NodeIdIn(t, ParentNode(t, id).value);
    }
    SiblingOutside(t, id);
  }

  /** On a laid-out tree the rows the vertical branch looks up lie outside
      the dragged subtree, and so does the next sibling; the only record
      inside it that can be asked for is the dragged node itself, which is
      then the root. */
  lemma VerticalSafe(t: Shape, m: Arena, id: int, dy2: int, h: int)
    requires LaidOut(t, m) && id in m
    ensures Vertical(t, m, id, dy2, h).MoveTo? ==>
              Vertical(t, m, id, dy2, h).to == id || MoveOk(t, id, Vertical(t, m, id, dy2, h).to)
  {
    if dy2 < 0 {
      UpSafe(t, m, id);
    } else if dy2 > 2 * h {
      DownSafe(t, m, id);
    }
  }

  lemma UpSafe(t: Shape, m: Arena, id: int)
    requires LaidOut(t, m) && id in m
    ensures RowOwner(m, Num(m[id].top) - 1).Some? ==> MoveOk(t, id, RowOwner(m, Num(m[id].top) - 1).value)
  {
    match RowOwner(m, Num(m[id].top) - 1)
    case Some(a) => RowOutside(t, m, id, a);
    case None =>
  }

  lemma DownSafe(t: Shape, m: Arena, id: int)
    requires LaidOut(t, m) && id in m
    ensures NextOf(t, id).Some? ==> MoveOk(t, id, NextOf(t, id).value)
    ensures NextOf(t, id).None? && m[id].height.Some? && RowOwner(m, Num(m[id].top) + m[id].height.value).Some? ==>
              var b := RowOwner(m, Num(m[id].top) + m[id].height.value).value;
              b == id || MoveOk(t, id, b)
  {
    SiblingOutside(t, id);
    if m[id].height.Some? {
      match RowOwner(m, Num(m[id].top) + m[id].height.value)
      case Some(b) => AfterSubtree(t, m, id, b);
      case None =>
    }
  }

  /** Dragging up reads `above.id` on `undefined` exactly when the dragged
      node is the root, on row 1, or is hidden and has no row at all. */
  lemma UpFails(t: Shape, m: Arena, id: int)
    requires LaidOut(t, m) && id in m
    ensures Upward(m, id) == NoRowAbove <==> id == RootId || m[id].top.None?
  {
    var k := Num(m[id].top) - 1;
    RowOwnerRows(m, t, k);
    if m[id].top.Some? {
      var rows := Rows(m, t, false);
      LayoutRows(m, t);
      RowsCount(m, t);
      assert Fields(m)[id].top.Some?;
      assert id in rows;
      var j :| 0 <= j < |rows| && rows[j] == id;
      assert Fields(m)[id].top == Some(1 + j);
      assert rows[0] == t.id;
    }
  }

  /** The `below.parent !== index.id` test of src/index.tsx:203 never fails
      on a laid-out tree: the record on the first row after a subtree is
      never a child of its root. */
  lemma BelowNeverChild(t: Shape, m: Arena, id: int)
    requires LaidOut(t, m) && id in m && m[id].height.Some?
    ensures RowOwner(m, Num(m[id].top) + m[id].height.value).Some? ==>
              ParentOf(t, RowOwner(m, Num(m[id].top) + m[id].height.value).value) != Some(id)
  {
    match RowOwner(m, Num(m[id].top) + m[id].height.value)
    case Some(b) =>
      AfterSubtree(t, m, id, b);
      if ParentOf(t, b) == Some(id) {
        var p := ParentNode(t, b).value;
        var u := Find(t, id).value;
        NodeById(t, p, u);
        var i := Position(p.kids, b);
        KidWithin(p.kids, i);
        NodeIdInSeq(p.kids, p.kids[i]);
        SubIds(t, u);
        SplitRoot(u);
      }
    case None =>
  }

  /** The record on the row after the dragged node's subtree lies outside
      it, unless the dragged node is a childless root, whose subtree is the
      whole tree. */
  lemma AfterSubtree(t: Shape, m: Arena, id: int, b: int)
    requires LaidOut(t, m) && id in m && m[id].height.Some?
    requires b in m && m[b].top == Some(Num(m[id].top) + m[id].height.value)
    ensures b == id || MoveOk(t, id, b)
  {
    var u := Find(t, id).value;
    if id != t.id || t.kids != [] {
      HeightOf(t, m, id);
      RowOutside(t, m, id, b);
    } else {
      assert Ids(t) == [t.id];
    }
  }

  /** A record on a row before the dragged node's, or past its subtree's
      rows, lies outside its subtree; so does any record with a row when
      the dragged node has none. */
  lemma RowOutside(t: Shape, m: Arena, id: int, y: int)
    requires LaidOut(t, m) && id in m && y in m && m[y].top.Some?
    requires m[id].top.None? || m[y].top.value < m[id].top.value ||
             m[y].top.value >= m[id].top.value + Height(m, Find(t, id).value)
    ensures MoveOk(t, id, y)
  {
    var u := Find(t, id).value;
    LayoutSpans(m, t);
    assert Fields(Layout(m, t)) == Fields(m);
    assert Span(m, Fields(m), u);
    SpanOutside(m, Fields(m), u, y);
  }

  /** The height recorded for a node below the root, or for a root with
      kids, is its subtree's. */
  lemma HeightOf(t: Shape, m: Arena, id: int)
    requires LaidOut(t, m) && id in m && (id != t.id || t.kids != [])
    ensures m[id].height == Some(Height(m, Find(t, id).value))
  {
    var u := Find(t, id).value;
    LayoutHeights(m, t);
    if id != t.id {
      assert Nodes(t) == [t] + NodesSeq(t.kids);
      assert u in NodesSeq(t.kids);
      NodeIdInSeq(t.kids, u);
      assert Fields(m)[id].height == Height(m, u);
    }
  }
}
