/** The record shapes of `src/tree.ts`: a node's payload and the record
    the arena keeps for it. */
module Records {
  import opened Wrappers

  /** The payload of a node (`TreeNode`); its nested `children` are kept
      apart, as the shape of the tree. */
  datatype TreeNode = TreeNode(name: string, collapsed: bool, leaf: bool)

  /** The arena record of a node (`NodeIndex`). `top` and `left` are `None`
      where the source stores `null`; `height` is `None` while it has never
      been computed (`undefined`). */
  datatype NodeIndex = NodeIndex(id: int, node: TreeNode, top: Option<int>, left: Option<int>, height: Option<int>)

  /** The arena: records by id. */
  type Arena = map<int, NodeIndex>

  /** A `number | null` as JavaScript arithmetic reads it: `null` is 0. */
  function Num(o: Option<int>): int
  {
    if o.Some? then o.value else 0
  }

  /** Whether the record of `x` is flagged collapsed. */
  predicate Collapsed(m: Arena, x: int)
  {
    x in m && m[x].node.collapsed
  }

  /** Whether the record of `x` is flagged a leaf. */
  predicate Leaf(m: Arena, x: int)
  {
    x in m && m[x].node.leaf
  }
}
