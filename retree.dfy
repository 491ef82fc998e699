/** The component `ReTree` of src/index.tsx: the state it keeps between
    events and the handlers that change it. Rendering, the DOM and event
    registration are outside the model; the pointer and element
    measurements a handler reads are its parameters. */
module Widget {
  import opened Wrappers
  import opened Shapes
  import opened Records
  import opened Positions
  import opened Links
  import opened Trees
  import opened Drag

  /** `Dragging` (src/index.tsx:12-18): `None` where the source has `null`. */
  datatype Dragging = Dragging(id: Option<int>, x: Option<int>, y: Option<int>, w: Option<int>, h: Option<int>)

  /** `defaultDragging` (src/index.tsx:25-31). */
  const NoDrag := Dragging(None, None, None, None, None)

  /** The measurements of the element a drag starts on. */
  datatype Element = Element(offsetLeft: int, offsetTop: int, offsetWidth: int, offsetHeight: int)

  /** The props the model reads: the tree as js-tree numbers it (its shape
      and the payload of every id), and `paddingLeft` (`None` when absent). */
  datatype Props = Props(shape: Shape, nodes: map<int, TreeNode>, paddingLeft: Option<int>)

  /** `defaultProps.paddingLeft` (src/index.tsx:50-52). */
  const DefaultPaddingLeft := 20

  /** What `onDrag` ends in: normally, at the `TypeError` of reading
      `above.id` when no record holds the row above (`Failed`), or at the
      `TypeError` of reading `index.node` when the drag names no record
      (`Lost`). */
  datatype Outcome = Done | Failed | Lost

  /** A tree as js-tree numbers it: root 1, positive unique ids, one payload
      per id. */
  ghost predicate GoodProps(p: Props)
  {
    p.shape.id == RootId && WellFormed(p.shape) &&
    (forall x :: x in p.nodes <==> x in Ids(p.shape)) &&
    forall x :: x in p.nodes ==> x >= 1
  }

  /** `this.props.paddingLeft || 0` once the default is applied. */
  function PaddingOf(p: Props): int
  {
    if p.paddingLeft.Some? then p.paddingLeft.value else DefaultPaddingLeft
  }

  /** `init(props)` (src/index.tsx:70-85): a fresh tree, laid out. */
  method Init(p: Props) returns (t: Tree)
    requires GoodProps(p)
    ensures fresh(t) && t.Positioned()
    ensures t.obj == p.shape && t.indexes == Layout(Fresh(p.nodes), p.shape)
  {
    t := new Tree(p.shape, p.nodes);
    t.UpdateNodesPosition();
  }

  /** The records with the `collapsed` flag of `x` flipped. */
  function Flip(m: Arena, x: int): (r: Arena)
    requires x in m
    ensures r.Keys == m.Keys && r[x].node.collapsed == !m[x].node.collapsed
    ensures forall y :: y in m && y != x ==> r[y] == m[y]
    ensures r[x].id == m[x].id && r[x].node.name == m[x].node.name && r[x].node.leaf == m[x].node.leaf
    ensures r[x].top == m[x].top && r[x].left == m[x].left && r[x].height == m[x].height
  {
    m[x := m[x].(node := m[x].node.(collapsed := !m[x].node.collapsed))]
  }

  /** Where the pointer puts the ghost on one axis (src/index.tsx:156-159):
      the start of the dragged element plus the pointer's travel since the
      drag started. */
  function Pointer(start: int, client: int, offset: int): int
  {
    start + client - offset
  }

  class ReTree {
    /** `state.tree`. */
    var tree: Tree
    /** `state.dragging`: the ghost the view draws. */
    var shown: Dragging
    /** `this.dragging`: what `onDragStart` captured. */
    var dragging: Dragging
    /** `_updated`: set by the first change the component reports. */
    var updated: bool
    var startX: int
    var startY: int
    var offsetX: int
    var offsetY: int
    /** `_start`: a drag has started and not yet been shown. */
    var start: bool
    /** `this.props.paddingLeft || 0`. */
    var paddingLeft: int

    ghost predicate Valid()
      reads this, tree
    {
      tree.Positioned()
    }

    /** The constructor (src/index.tsx:54-62) with the field initialisers
        (src/index.tsx:41-48). */
    constructor (p: Props)
      requires GoodProps(p)
      ensures Valid() && fresh(tree)
      ensures tree.obj == p.shape && tree.indexes == Layout(Fresh(p.nodes), p.shape)
      ensures shown == NoDrag && dragging == NoDrag && !updated && !start
      ensures startX == 0 && startY == 0 && offsetX == 0 && offsetY == 0
      ensures paddingLeft == PaddingOf(p)
    {
      var t := Init(p);
      tree := t;
      shown := NoDrag;
      dragging := NoDrag;
      updated := false;
      startX, startY, offsetX, offsetY := 0, 0, 0, 0;
      start := false;
      paddingLeft := PaddingOf(p);
    }

    /** `componentWillReceiveProps` (src/index.tsx:64-68): new props
        rebuild the state until the component has reported a change. */
    method ReceiveProps(p: Props)
      requires GoodProps(p) && Valid()
      modifies this
      ensures Valid() && paddingLeft == PaddingOf(p) && updated == old(updated)
      ensures old(updated) ==> tree == old(tree) && shown == old(shown)
      ensures !old(updated) ==> fresh(tree) && tree.obj == p.shape && tree.indexes == Layout(Fresh(p.nodes), p.shape) && shown == NoDrag
      ensures dragging == old(dragging) && start == old(start)
      ensures startX == old(startX) && startY == old(startY) && offsetX == old(offsetX) && offsetY == old(offsetY)
    {
      paddingLeft := PaddingOf(p);
      if !updated {
        Reset(p);
      }
    }

    /** The state `init(props)` gives: a fresh tree and no drag shown. */
    method Reset(p: Props)
      requires GoodProps(p)
      modifies this
      ensures Valid() && fresh(tree) && tree.obj == p.shape && tree.indexes == Layout(Fresh(p.nodes), p.shape) && shown == NoDrag
      ensures updated == old(updated) && paddingLeft == old(paddingLeft) && dragging == old(dragging) && start == old(start)
      ensures startX == old(startX) && startY == old(startY) && offsetX == old(offsetX) && offsetY == old(offsetY)
    {
      var t := Init(p);
      tree := t;
      shown := NoDrag;
    }

    /** `onChange` (src/index.tsx:236-239); the `props.onChange` callback
        is not part of the model. */
    method OnChange()
      modifies this
      ensures updated
      ensures tree == old(tree) && shown == old(shown) && dragging == old(dragging) && start == old(start)
      ensures startX == old(startX) && startY == old(startY) && offsetX == old(offsetX) && offsetY == old(offsetY)
      ensures paddingLeft == old(paddingLeft)
    {
      updated := true;
    }

    /** `onDragStart` (src/index.tsx:112-134): only the primary button on a
        mounted element starts a drag, recording the element's box and the
        pointer's origin. */
    method OnDragStart(id: int, ref: Option<Element>, button: int, clientX: int, clientY: int)
      modifies this
      ensures button != 0 || ref.None? ==>
                dragging == old(dragging) && start == old(start) &&
                startX == old(startX) && startY == old(startY) && offsetX == old(offsetX) && offsetY == old(offsetY)
      ensures button == 0 && ref.Some? ==>
                var e := ref.value;
                dragging == Dragging(Some(id), Some(e.offsetLeft), Some(e.offsetTop), Some(e.offsetWidth), Some(e.offsetHeight)) &&
                startX == e.offsetLeft && startY == e.offsetTop && offsetX == clientX && offsetY == clientY && start
      ensures tree == old(tree) && shown == old(shown) && updated == old(updated) && paddingLeft == old(paddingLeft)
    {
      if button != 0 || ref.None? {
        return;
      }
      var e := ref.value;
      dragging := Dragging(Some(id), Some(e.offsetLeft), Some(e.offsetTop), Some(e.offsetWidth), Some(e.offsetHeight));
      startX := e.offsetLeft;
      startY := e.offsetTop;
      offsetX := clientX;
      offsetY := clientY;
      start := true;
    }

    /** `onDrag` (src/index.tsx:136-225) for the pointer at
        `(clientX, clientY)`: the ghost follows the pointer, then at most one
        horizontal and one vertical `tree.move` of the dragged node, as
        `Dragged` says; each accepted move puts the node's `collapsed` flag
        back and re-points the drag at the moved record. When the drag
        names no record (`componentWillReceiveProps` reset it, or the new
        tree lacks the dragged id) it stops at once, before the ghost moves. */
    method OnDrag(clientX: int, clientY: int) returns (outcome: Outcome)
      requires Valid()
      modifies this, tree
      ensures tree == old(tree) && Valid() && !start
      ensures var d := old(if start then dragging else shown);
              !(d.id.Some? && d.id.value in old(tree.indexes)) ==>
              outcome == Lost && shown == d && tree.obj == old(tree.obj) && tree.indexes == old(tree.indexes)
      ensures var d := old(if start then dragging else shown);
              d.id.Some? && d.id.value in old(tree.indexes) ==>
              var x, y := Pointer(startX, clientX, offsetX), Pointer(startY, clientY, offsetY);
              var r := Dragged(old(tree.obj), old(tree.indexes), d.id.value, x, y, paddingLeft, Num(d.h));
              tree.obj == r.0 && tree.indexes == r.1 && outcome == (if r.2 then Failed else Done) &&
              shown == d.(x := Some(x), y := Some(y))
      ensures dragging == old(dragging) && updated == old(updated) && paddingLeft == old(paddingLeft)
      ensures startX == old(startX) && startY == old(startY) && offsetX == old(offsetX) && offsetY == old(offsetY)
    {
      if start {
        shown := dragging;
        start := false;
      }
      if !(shown.id.Some? && shown.id.value in tree.indexes) {
        return Lost;
      }
      var pad := paddingLeft;
      var id := shown.id.value;
      var x, y := Pointer(startX, clientX, offsetX), Pointer(startY, clientY, offsetY);
      shown := shown.(x := Some(x), y := Some(y));
      var newIndex, failed := Drag(id, x, y, pad, Num(shown.h));
      if newIndex.Some? {
        shown := shown.(id := Some(newIndex.value.id));
      }
      if failed {
        return Failed;
      }
      return Done;
    }

    /** The moves of `onDrag` (src/index.tsx:162-220) for the dragged node
        `id` at `(x, y)` with row height `h`: the record of the last
        accepted move, with the node's `collapsed` flag put back after
        each, and whether the vertical branch failed. */
    method Drag(id: int, x: int, y: int, pad: int, h: int) returns (newIndex: Option<NodeIndex>, failed: bool)
      requires Valid() && id in tree.indexes
      modifies tree
      ensures Valid()
      ensures var r := Dragged(old(tree.obj), old(tree.indexes), id, x, y, pad, h);
              tree.obj == r.0 && tree.indexes == r.1 && failed == r.2
      ensures newIndex.Some? ==> newIndex.value.id == id
    {
      var index := tree.indexes[id];
      var dx2, dy2 := DiffX2(x, pad, Num(index.left)), DiffY2(y, h, Num(index.top));
      var collapsed := index.node.collapsed;
      newIndex := Shift(id, dx2, pad);
      ghost var m1 := tree.indexes;
      if newIndex.Some? {
        SameFlag(tree.indexes, id, collapsed);
        tree.SetCollapsed(newIndex.value.id, collapsed);
      }
      assert tree.indexes == m1;
      var asked, moved;
      asked, moved, failed := Reorder(id, dy2, h);
      if failed {
        return;
      }
      if asked {
        newIndex := moved;
      }
      if newIndex.Some? {
        SameFlag(tree.indexes, id, collapsed);
        tree.SetCollapsed(newIndex.value.id, collapsed);
      }
    }

    /** The horizontal branch of `onDrag` (src/index.tsx:167-180): the
        record `tree.move` returned, if it moved the node. */
    method Shift(id: int, dx2: int, pad: int) returns (newIndex: Option<NodeIndex>)
      requires Valid() && id in tree.indexes
      modifies tree
      ensures Valid()
      ensures (tree.obj, tree.indexes) == Shifted(old(tree.obj), old(tree.indexes), id, dx2, pad)
      ensures newIndex.Some? ==> newIndex == Some(tree.indexes[id])
    {
      newIndex := None;
      HorizontalSafe(tree.obj, tree.indexes, id, dx2, pad);
      match Horizontal(tree.obj, tree.indexes, id, dx2, pad)
      case MoveTo(to, pl) =>
        newIndex := tree.Move(id, to, pl);
      case _ =>
    }

    /** The vertical branch of `onDrag` (src/index.tsx:188-215) on the
        dragged node's current record: whether it called `tree.move` and
        what that returned, or whether it failed for want of a record on
        the row above. */
    method Reorder(id: int, dy2: int, h: int) returns (asked: bool, newIndex: Option<NodeIndex>, failed: bool)
      requires Valid() && id in tree.indexes
      modifies tree
      ensures Valid()
      ensures var r := Reordered(old(tree.obj), old(tree.indexes), id, dy2, h);
              tree.obj == r.0 && tree.indexes == r.1 && failed == r.2
      ensures asked <==> Vertical(old(tree.obj), old(tree.indexes), id, dy2, h).MoveTo?
      ensures newIndex.Some? ==> newIndex == Some(tree.indexes[id])
    {
      asked, newIndex, failed := false, None, false;
      var req := Target(id, dy2, h);
      VerticalSafe(tree.obj, tree.indexes, id, dy2, h);
      match req
      case NoRowAbove =>
        failed := true;
      case MoveTo(to, pl) =>
        asked := true;
        newIndex := tree.Move(id, to, pl);
      case Stay =>
    }

    /** Where the vertical branch of `onDrag` (src/index.tsx:188-215)
        asks `tree.move` to put the dragged node, looking rows up with
        `tree.getNodeByTop`. */
    method Target(id: int, dy2: int, h: int) returns (req: Request)
      requires id in tree.indexes && forall x :: x in tree.indexes ==> tree.indexes[x].id == x
      ensures req == Vertical(tree.obj, tree.indexes, id, dy2, h)
    {
      if dy2 < 0 {
        req := Up(id);
      } else if dy2 > 2 * h {
        req := Down(id);
      } else {
        req := Stay;
      }
    }

    /** The up case (src/index.tsx:188-191). */
    method Up(id: int) returns (req: Request)
      requires id in tree.indexes && forall x :: x in tree.indexes ==> tree.indexes[x].id == x
      ensures req == Upward(tree.indexes, id)
    {
      var index := tree.indexes[id];
      var above := RowAt(Num(index.top) - 1);
      if above.None? {
        return NoRowAbove;
      }
      return MoveTo(above.value, Before);
    }

    /** The down case (src/index.tsx:192-215). */
    method Down(id: int) returns (req: Request)
      requires id in tree.indexes && forall x :: x in tree.indexes ==> tree.indexes[x].id == x
      ensures req == Downward(tree.obj, tree.indexes, id)
    {
      var index := tree.indexes[id];
      var n := NextOf(tree.obj, id);
      if n.Some? {
        return MoveTo(n.value, Below(tree.obj, tree.indexes, n.value));
      }
      var below: Option<int> := None;
      if index.height.Some? {
        below := RowAt(Num(index.top) + index.height.value);
      }
      return Beneath(tree.obj, id, tree.indexes, below);
    }

    /** The id of the record `tree.getNodeByTop(top)` returns, if any. */
    method RowAt(top: int) returns (r: Option<int>)
      requires forall x :: x in tree.indexes ==> tree.indexes[x].id == x
      ensures r == RowOwner(tree.indexes, top)
    {
      var node := tree.GetNodeByTop(top);
      if node.Some? {
        r := Some(node.value.id);
      } else {
        r := None;
      }
    }

    /** `onDragEnd` (src/index.tsx:227-234): the ghost is cleared and the
        change reported. */
    method OnDragEnd()
      modifies this
      ensures shown == NoDrag && updated
      ensures tree == old(tree) && dragging == old(dragging) && start == old(start) && paddingLeft == old(paddingLeft)
      ensures startX == old(startX) && startY == old(startY) && offsetX == old(offsetX) && offsetY == old(offsetY)
    {
      shown := NoDrag;
      OnChange();
    }

    /** `onToggleCollapse` (src/index.tsx:241-251): flips the node's
        `collapsed` flag, lays the tree out again and reports the change. */
    method OnToggleCollapse(nodeId: int)
      requires Valid() && nodeId in tree.indexes
      modifies this, tree
      ensures tree == old(tree) && Valid() && updated
      ensures tree.obj == old(tree.obj) && tree.indexes == Layout(Flip(old(tree.indexes), nodeId), tree.obj)
      ensures forall y :: y in tree.indexes ==>
                tree.indexes[y].node == (if y == nodeId then old(tree.indexes)[y].node.(collapsed := !old(tree.indexes)[y].node.collapsed)
                                         else old(tree.indexes)[y].node)
      ensures shown == old(shown) && dragging == old(dragging) && start == old(start) && paddingLeft == old(paddingLeft)
      ensures startX == old(startX) && startY == old(startY) && offsetX == old(offsetX) && offsetY == old(offsetY)
    {
      var index := tree.indexes[nodeId];
      tree.SetCollapsed(nodeId, !index.node.collapsed);
      tree.UpdateNodesPosition();
      OnChange();
    }
  }
}
