# react-ui-tree: layout, move and drag decisions in Dafny

This project models the core of react-ui-tree, a React tree view whose nodes
can be reordered by dragging. It covers two parts:

- **`Tree` (src/tree.ts).** The tree is a js-tree index: records keyed by
  integer id, the root being 1, beside a nested structure.
  - `updateNodesPosition` gives every visible node a row (`top`) in preorder
    and a depth (`left`), and gives every node a subtree `height`. It writes
    `null` rows and depths below a collapsed node.
  - `move` relinks a subtree before, after, first inside or last inside
    another node, then recomputes the layout.
  - `getNodeByTop` finds the record on a row.
- **`ReTree` (src/index.tsx).** The component keeps:
  - the tree;
  - the ghost being dragged (`state.dragging`);
  - what `onDragStart` captured (`this.dragging`, the start offsets, the
    pointer origin);
  - the `_start` flag;
  - the `_updated` latch, which stops new props from rebuilding the tree
    once the component has reported a change.

  `onDrag` turns the ghost's position into at most one horizontal move (an
  outdent or an indent) and then at most one vertical move. `onToggleCollapse`
  flips one node's `collapsed` flag and lays the tree out again.

The files are:

- `shapes.dfy` (module `Shapes`): the nested structure as a `Shape` of ids.
  Moving a subtree is `Relocate`, a `Prune` followed by a `Graft`. Lemmas show
  that a move keeps every id exactly once.
- `records.dfy` (module `Records`): the `TreeNode` payload, the `NodeIndex`
  record and the arena of records.
- `links.dfy` (module `Links`): the `parent`, `prev`, `next` and `children`
  links of a record, read off the `Shape`.
- `relink.dfy` (module `Relinks`): what a move does to every record's
  `children` list.
- `layout.dfy` (module `Positions`):
  - `WalkSeq`, the pure specification of the recursive `walk`;
  - `Layout`, that of `updateNodesPosition`;
  - `Rows` and `Height`, the intended rows and heights;
  - the lemmas tying them together.
- `tree.dfy` (module `Trees`): class `Tree`. It holds the mutable arena
  (`indexes`) and shape (`obj`), with the in-place walk proved against
  `WalkSeq`, `Move` proved against `Relocate` plus `Layout`, and the scanning
  `GetNodeByTop`.
- `drag.dfy` (module `Drag`): the decisions of `onDrag` as pure functions
  (`Horizontal`, `Vertical`, `Dragged`). Lemmas show that every move `onDrag`
  asks for is one that js-tree can carry out.
- `retree.dfy` (module `Widget`): class `ReTree` and its handlers. Each is
  proved against those functions.

JavaScript's `null` in a row, depth or height is `None`. Where JavaScript
arithmetic reads such a `null` as 0, the model uses `Num`. The halves in
`diffX` and `diffY` are kept whole by doubling both sides of each
comparison.

## Model

| member | source | states |
|---|---|---|
| Trees.Tree.constructor | src/tree.ts:18-21 | A new tree holds the given shape and one fresh record per node, stored under its own id, with no layout yet. |
| Trees.Tree.UpdateNodesPosition | src/tree.ts:23-70 | Leaves the shape alone and sets every record to the layout `Layout` specifies for the old records. The tree is then laid out. |
| Positions.WalkSeq | src/tree.ts:36-69 | Definition, no contract: the rows, depths and heights `walk` writes for a sequence of kids, from a given free row. `Trees.Tree.Walk` is proved against it. |
| Positions.WalkLast | src/tree.ts:43-64 | Definition, no contract: one turn of the `forEach`, for one kid. `Trees.Tree.Visit` is proved against it. |
| Positions.Rows | src/tree.ts:29-51 | Definition, no contract: the visible nodes of a subtree in preorder. `Positions.LayoutRows` is stated with it. |
| Positions.Height | src/tree.ts:53-67 | Definition, no contract: the intended subtree height. `Positions.LayoutHeights` is stated with it. |
| Positions.Layout | src/tree.ts:24-34 | The root gets row 1 and depth 1. Every record keeps its key, id and payload. |
| Trees.Tree.Walk | src/tree.ts:36-69 | Returns 1 for a collapsed parent, otherwise 1 plus the kids' heights. Returns the next free row. Writes exactly what `WalkSeq` says for the kids' subtrees, plus the parent's height. |
| Trees.Tree.Visit | src/tree.ts:43-64 | One turn of the `forEach` extends the walk from the first `i` kids to the first `i + 1`: the kid's row and depth, or `null` under a collapsed ancestor, then its subtree walked or its height set to 1. |
| Positions.LayoutRows | src/tree.ts:24-51 | The visible nodes, in preorder with the root first, hold rows 1, 2, 3, ... with no gap and no repeat. No other node has a row. |
| Positions.LayoutPlaced | src/tree.ts:29-58 | A node's kids are hidden exactly when the node is hidden or collapsed. Otherwise they sit one level deeper than the node. A node's own flag never hides the node itself. |
| Positions.LayoutHeights | src/tree.ts:42-68 | Every node below the root gets its subtree height, hidden or not: 1 when childless or collapsed, otherwise 1 plus the sum of its kids' heights. So does a root with kids. |
| Positions.LayoutSpans | src/tree.ts:42-67 | A shown node's visible subtree holds the consecutive rows from its own, in preorder. No other descendant has a row. |
| Positions.RowsCount | src/tree.ts:53-67 | A shown subtree has as many visible rows as its height, so `top + height` is the first row after it. |
| Positions.LayoutIdempotent | src/tree.ts:23-70 | Running `updateNodesPosition` again on a laid-out tree changes nothing. |
| Trees.Tree.Move | src/tree.ts:72-85 | Refused (no record returned, nothing changed) when `from` is `to` or `to` is the root. Otherwise the subtree of `from` is relocated and the layout recomputed, and the moved node's record is returned. |
| Trees.Moved | src/tree.ts:72-85 | A move keeps every record and payload. An accepted move leaves the relocated tree laid out. |
| Trees.RelocateOk | src/tree.ts:75-83 | A move the guard accepts, whose target lies outside the moved subtree, keeps the records consistent with the new shape: same ids, root 1, one record each. |
| Shapes.Prune | src/tree.ts:75 | Definition, no contract: the tree with the subtree of `from` removed. `Shapes.PruneCount` states its effect. |
| Shapes.Graft | src/tree.ts:78-81 | Definition, no contract: the tree with a subtree inserted before, after, first inside or last inside `to`. `Shapes.GraftCount` states its effect. |
| Shapes.Relocate | src/tree.ts:75-81 | Definition, no contract: `Prune` followed by `Graft`. `Shapes.RelocateIds` and `Relinks.RelocateRelinks` state its effect. |
| Shapes.RelocateIds | src/tree.ts:75-82 | Relocating a subtree keeps the tree's root and every id, each exactly once. |
| Shapes.PruneCount | src/tree.ts:75 | `remove` takes out exactly the ids of the removed subtree. |
| Shapes.GraftCount | src/tree.ts:78-81 | Each insertion adds exactly the ids of the inserted subtree. |
| Relinks.Without | src/tree.ts:75 | Definition, no contract: a `children` list with one id taken out. |
| Relinks.Beside | src/tree.ts:78-79 | Definition, no contract: a `children` list with an id put just before or just after `to`. |
| Relinks.Relinked | src/tree.ts:75-81 | Definition, no contract: the `children` list a record should have after the move. `Relinks.RelocateRelinks` states that it does. |
| Relinks.RelocateRelinks | src/tree.ts:75-81 | After the move every record outside the moved subtree keeps its children, less `from`, plus `from` where the placement puts it: just before or after `to`, first under `to`, or last under `to`. |
| Relinks.RelocateWhole | src/tree.ts:75-81 | The moved subtree arrives whole: the node found under `from` after the move is the subtree cut out. |
| Trees.Tree.GetNodeByTop | src/tree.ts:87-94 | Returns a record on row `t` if there is one, namely the one with the least id, as a for-in over integer keys finds it. Otherwise returns nothing. |
| Trees.RowOwner | src/tree.ts:87-94 | The id found is on row `t` and no record on row `t` has a smaller id. Otherwise no record is on row `t`. |
| Trees.RowOwnerRows | src/tree.ts:87-94 | On a laid-out tree there is a record on row `t` exactly when 1 <= t <= the tree's height, and it is the `t`th visible node in preorder. |
| Trees.RowUnique | src/tree.ts:87-94 | On a laid-out tree no two records share a row. |
| Trees.Tree.SetCollapsed | src/index.tsx:184 | Writes one record's `collapsed` flag and nothing else. |
| Links.ParentOf | src/index.tsx:169-170 | The `parent` of a node is a node that has it among its kids. A node without one is nobody's kid. |
| Links.KidsOf | src/index.tsx:196 | Definition, no contract: the `children` of a node. `Links.KidsParents` and `Links.KidsOrder` state how they relate to the other links. |
| Links.PrevOf | src/index.tsx:174-175 | Definition, no contract: the `prev` of a node. `Links.PrevNext` and `Links.KidsOrder` state its meaning. |
| Links.NextOf | src/index.tsx:169 | Definition, no contract: the `next` of a node. `Links.NextPrev` and `Links.KidsOrder` state its meaning. |
| Links.KidsParents | src/index.tsx:169-196 | In a well-formed tree `y` is among the `children` of `x` exactly when the `parent` of `y` is `x`. |
| Links.KidsOrder | src/index.tsx:169-196 | In a well-formed tree the `children` of a node are chained in order: each one's `next` is the one after it and its `prev` the one before it. The first has no `prev` and the last no `next`. |
| Links.KidLinks | src/index.tsx:169-196 | The `i`th kid of a node has that node as `parent`, the kid before it as `prev` and the kid after it as `next`, or none at either end. |
| Links.PrevNext | src/index.tsx:174-177 | In a well-formed tree, when `x` has a `prev`, the `next` of that `prev` is `x`. |
| Links.NextPrev | src/index.tsx:169-194 | In a well-formed tree, when `x` has a `next`, the `prev` of that `next` is `x`. |
| Links.ParentOutside | src/index.tsx:169-170 | In a well-formed tree a node's `parent` lies outside the node's subtree. |
| Links.SiblingOutside | src/index.tsx:174-177 | A node's `prev` and `next` are nodes of the tree outside its subtree. |
| Links.ParentMeansNode | src/index.tsx:169 | A node with a `parent` is in the tree and is not the root. |
| Drag.DiffX2 | src/index.tsx:163 | Definition, no contract: twice `diffX`. `Drag.DiffX2Exact` states its meaning. |
| Drag.DiffY2 | src/index.tsx:164-165 | Definition, no contract: twice `diffY`. `Drag.DiffY2Exact` states its meaning. |
| Drag.Horizontal | src/index.tsx:167-180 | Definition, no contract: the horizontal request. Left of the node's column, a last sibling with a parent goes just after that parent. Right of the indent, a node goes last under its previous sibling when that sibling is expanded and not a leaf. `Drag.HorizontalSafe` states what it guarantees. |
| Drag.Vertical | src/index.tsx:188-215 | Definition, no contract: above the node's row it asks for `Upward`, below its row for `Downward`, otherwise nothing. `Drag.VerticalSafe` states what it guarantees. |
| Drag.Upward | src/index.tsx:188-191 | Definition, no contract: just before the record on the row above, or the failure when there is none. `Drag.UpSafe` and `Drag.UpFails` state what it guarantees. |
| Drag.Downward | src/index.tsx:192-214 | Definition, no contract: relative to the next sibling, or for a last sibling to the record on row `top + height`. `Drag.DownSafe` states what it guarantees. |
| Drag.Below | src/index.tsx:196-212 | Definition, no contract: first inside a node that shows kids, otherwise just after it. |
| Drag.Beneath | src/index.tsx:202-214 | Definition, no contract: relative to the record on row `top + height` unless there is none or it is the dragged node's child. `Drag.BelowNeverChild` shows the second case cannot happen on a laid-out tree. |
| Drag.DiffX2Exact | src/index.tsx:163 | The doubled `diffX` is exactly twice the source's value. Its comparisons with 0 and with `paddingLeft` agree with the source's. |
| Drag.DiffY2Exact | src/index.tsx:164-165 | The same for `diffY` and the row height. |
| Drag.Shifted | src/index.tsx:167-180 | The horizontal branch leaves a laid-out tree with the same records and payloads. |
| Drag.Reordered | src/index.tsx:188-215 | The vertical branch leaves a laid-out tree with the same records and payloads. |
| Drag.Dragged | src/index.tsx:144-220 | `onDrag` as a whole leaves a laid-out tree with the same records and payloads. |
| Drag.HorizontalSafe | src/index.tsx:167-180 | The outdent target (the parent) and the indent target (the previous sibling) lie outside the dragged subtree, so js-tree can carry out the move. |
| Drag.VerticalSafe | src/index.tsx:188-215 | Every vertical target is outside the dragged subtree or is the dragged node itself, which the `move` guard refuses. |
| Drag.UpSafe | src/index.tsx:188-191 | The record on the row above the dragged node lies outside its subtree. |
| Drag.DownSafe | src/index.tsx:192-214 | The next sibling, and the record on row `top + height`, lie outside the dragged subtree, or are the dragged node itself. |
| Drag.UpFails | src/index.tsx:188-191 | Dragging up reads `above.id` on `undefined` exactly when the dragged node is the root, or is hidden. |
| Drag.BelowNeverChild | src/index.tsx:202-203 | On a laid-out tree the record on row `top + height` is never a child of the dragged node, so the `below.parent !== index.id` test always passes. |
| Drag.AfterSubtree | src/index.tsx:202 | The record on row `top + height` is outside the dragged subtree, unless the dragged node is a childless root. |
| Drag.RowOutside | src/index.tsx:190 | A record on a row before the dragged node's, or past its subtree's rows, is not in its subtree. |
| Drag.HeightOf | src/tree.ts:53-67 | The `height` recorded for a node below the root, or for a root with kids, is its subtree's height. |
| Widget.PaddingOf | src/index.tsx:50-52 | Definition, no contract: `paddingLeft` is the prop when given, otherwise the default 20. The constructor and `ReceiveProps` rows state that the component keeps this value. |
| Widget.Pointer | src/index.tsx:156-159 | Definition, no contract: the ghost's position on one axis is the start of the dragged element plus the pointer's travel since the drag started. |
| Widget.Init | src/index.tsx:70-85 | `init` builds a fresh tree from the props and lays it out. |
| Widget.Flip | src/index.tsx:245 | Flips one record's `collapsed` flag. That record keeps its id, name, `leaf` flag, row, depth and height, and no other record changes. |
| Widget.ReTree.constructor | src/index.tsx:54-62 | The tree from `init(props)`. No drag shown or captured, `_updated` and `_start` false, offsets 0. |
| Widget.ReTree.ReceiveProps | src/index.tsx:64-68 | New props rebuild the tree, and clear the ghost, exactly while `_updated` is false. Otherwise the state is kept. |
| Widget.ReTree.Reset | src/index.tsx:66 | The state `init(props)` gives: a fresh laid-out tree and no drag shown. |
| Widget.ReTree.OnChange | src/index.tsx:236-239 | Sets `_updated` and changes nothing else. |
| Widget.ReTree.OnDragStart | src/index.tsx:112-134 | Only button 0 on a mounted element starts a drag. It captures the element's box and id, records the start offsets and the pointer origin, and sets `_start`. Otherwise nothing changes. |
| Widget.ReTree.OnDrag | src/index.tsx:136-225 | The first event after a start shows the captured drag. When the drag shown names no record, `getIndex` gives `undefined` and reading `index.node` throws: the outcome is `Lost` and nothing else changes. Otherwise the ghost moves to start + pointer travel on each axis and the tree ends as `Dragged` says. The outcome is then `Failed` exactly when the up branch found no row above, and `Done` otherwise. |
| Widget.ReTree.Drag | src/index.tsx:162-220 | The horizontal then the vertical branch, with the `collapsed` flag put back after each accepted move. The tree ends as `Dragged` says, and the re-pointed drag id stays the dragged node's. |
| Widget.ReTree.Shift | src/index.tsx:167-180 | The tree ends as `Shifted` says. The record returned is the moved node's. |
| Widget.ReTree.Reorder | src/index.tsx:188-215 | The tree ends as `Reordered` says. It calls `move` exactly when `Vertical` asks for a move, and fails exactly at the missing row above. |
| Widget.ReTree.Target | src/index.tsx:188-215 | The request computed with `getNodeByTop` lookups is `Vertical`'s. |
| Widget.ReTree.Up | src/index.tsx:188-191 | Before the record on row `top - 1`, or the failure when there is none. |
| Widget.ReTree.Down | src/index.tsx:192-215 | Relative to the next sibling, or to the record on row `top + height`, first inside it when it shows kids and just after it otherwise. |
| Widget.ReTree.RowAt | src/index.tsx:190 | The id of the record `getNodeByTop` returns is `RowOwner`'s. |
| Widget.ReTree.OnDragEnd | src/index.tsx:227-234 | Clears the ghost and reports the change, which sets `_updated`. |
| Widget.ReTree.OnToggleCollapse | src/index.tsx:241-251 | Flips exactly that node's flag and lays the tree out again with every other payload unchanged. Sets `_updated`. |

## Left out

- js-tree (src/tree.ts:1) is not part of this model. That covers `remove`, `insertBefore`, `insertAfter`, `prepend`, `append`, `getIndex` and the `obj` export. Their effect is assumed to be the relinking `Relocate` and `Relinks.Relinked` describe.
- Trees.Tree.Move: assumes that js-tree keeps every moved record's id and payload. The record returned is the moved node's own. Any re-numbering js-tree may do when it re-inserts a subtree is not modelled.
- Trees.Tree.Move: requires `from` and `to` to exist with `to` outside the subtree of `from`, unless the guard refuses the move. Otherwise js-tree looks up a record it has just removed and throws. `Drag.HorizontalSafe` and `Drag.VerticalSafe` prove that `onDrag` never asks for such a move.
- Building the index from the nested `props.tree` (js-tree's constructor) is not modelled. Props arrive already numbered, as a `Shape` and a payload per id, with the root 1.
- Rendering is not modelled: `render`, `getDraggingDom`, src/node.tsx and `renderNode`. Neither are the styles, nor the `window` listener registration at src/index.tsx:132-133 and 232-233.
- The `window` listener registration is not modelled, so `Widget.ReTree.OnDrag` may be called at any time. A call with no drag, or a drag whose id no longer names a record, ends as `Lost`. That happens in the source when new props arrive during a drag while `_updated` is false, or when the new tree lacks the dragged id. The `TypeError` itself, and the listener left registered after it, are not modelled.
- `setState` is treated as synchronous. Its batching is not modelled.
- After the first drag event the source makes `state.dragging` and `this.dragging` one object, so later writes reach both. The model keeps them apart (`shown`, `dragging`). `this.dragging` is only read again after `onDragStart` has replaced it, so no handler can tell the difference.
- The `props.onChange(tree.obj)` callback at src/index.tsx:238 is a call into the host application and is not modelled.
- DOM measurements and pointer coordinates are integer parameters. JavaScript floating point is not modelled: `paddingLeft / 2` and `h / 2` are handled by doubling.
- A root without kids never has its `height` written, so `top + height` is `NaN` and `getNodeByTop` finds nothing. The model reads an absent height as "no record below".
- The `module` field of `TreeNode` is kept as an opaque name string, and the nested `children` of a payload are the `Shape`.
