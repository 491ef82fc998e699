/** The `parent`, `prev`, `next` and `children` ids that js-tree keeps in
    every record of the index, read off the nested structure they describe.
    js-tree (src/tree.ts:1) maintains them itself; this model does not store
    them but derives them from the `Shape`, so they can never disagree with
    it. */
module Links {
  import opened Wrappers
  import opened Shapes

  /** The node whose kids include the node `x` (the record's `parent`). */
  function ParentNode(t: Shape, x: int): (r: Option<Shape>)
    ensures r.Some? ==> r.value in Nodes(t) && x in KidIds(r.value.kids)
    ensures r.None? ==> forall u :: u in Nodes(t) ==> x !in KidIds(u.kids)
  {
    if x in KidIds(t.kids) then Some(t) else ParentSeq(t.kids, x)
  }

  function ParentSeq(ks: seq<Shape>, x: int): (r: Option<Shape>)
    ensures r.Some? ==> r.value in NodesSeq(ks) && x in KidIds(r.value.kids)
    ensures r.None? ==> forall u :: u in NodesSeq(ks) ==> x !in KidIds(u.kids)
  {
    if ks == [] then None
    else
      match ParentSeq(ks[..|ks| - 1], x)
      case Some(u) => Some(u)
      case None => ParentNode(ks[|ks| - 1], x)
  }

  /** Where the node `x` sits among the siblings `ks`, or -1. */
  function Position(ks: seq<Shape>, x: int): (i: int)
    ensures -1 <= i < |ks|
    ensures i >= 0 ==> ks[i].id == x
    ensures i == -1 <==> x !in KidIds(ks)
  {
    if ks == [] then -1
    else if ks[|ks| - 1].id == x then |ks| - 1
    else Position(ks[..|ks| - 1], x)
  }

  /** The record's `parent`: absent for the root and for unknown ids. */
  function ParentOf(t: Shape, x: int): (r: Option<int>)
    ensures r.Some? ==> exists u :: u in Nodes(t) && u.id == r.value && x in KidIds(u.kids)
    ensures r.None? ==> forall u :: u in Nodes(t) ==> x !in KidIds(u.kids)
  {
    match ParentNode(t, x)
    case Some(u) => Some(u.id)
    case None => None
  }

  /** The record's `prev`: the sibling just before `x`, if any. */
  function PrevOf(t: Shape, x: int): (r: Option<int>)
  {
    match ParentNode(t, x)
    case Some(u) =>
      var i := Position(u.kids, x);
      if i > 0 then Some(u.kids[i - 1].id) else None
    case None => None
  }

  /** The record's `next`: the sibling just after `x`, if any. */
  function NextOf(t: Shape, x: int): (r: Option<int>)
  {
    match ParentNode(t, x)
    case Some(u) =>
      var i := Position(u.kids, x);
      if 0 <= i < |u.kids| - 1 then Some(u.kids[i + 1].id) else None
    case None => None
  }

  /** The record's `children`: the ids of `x`'s kids, in order. */
  function KidsOf(t: Shape, x: int): seq<int>
  {
    match Find(t, x)
    case Some(u) => KidIds(u.kids)
    case None => []
  }

  // ---------------------------------------------------------------------
  // What the links mean

  /** Siblings' subtrees share no id. */
  lemma {:induction false} SiblingsApart(ks: seq<Shape>, i: int, j: int)
    requires NoDup(IdsSeq(ks)) && 0 <= i < |ks| && 0 <= j < |ks| && i != j
    ensures forall x :: x in Ids(ks[i]) ==> x !in Ids(ks[j])
  {
    var ks', k := ks[..|ks| - 1], ks[|ks| - 1];
    assert ks == ks' + [k];
    SplitLast(ks', k);
    if i < |ks| - 1 && j < |ks| - 1 {
      SiblingsApart(ks', i, j);
    } else {
      var e := if i < |ks| - 1 then i else j;
      KidWithin(ks', e);
      NodeIdsInSeq(ks', ks'[e]);
    }
  }

  /** In a well-formed tree the `parent` link of `x` names a proper
      ancestor: a node outside `x`'s own subtree. */
  lemma ParentOutside(t: Shape, x: int)
    requires WellFormed(t) && ParentNode(t, x).Some?
    ensures Find(t, x).Some?
    ensures ParentNode(t, x).value.id !in Ids(Find(t, x).value)
  {
    var u := ParentNode(t, x).value;
    var i := Position(u.kids, x);
    KidIsNode(t, u, i);
    NodeIdIn(t, u.kids[i]);
    NodeById(t, Find(t, x).value, u.kids[i]);
    SubIds(t, u);
    SplitRoot(u);
    KidWithin(u.kids, i);
    NodeIdsInSeq(u.kids, u.kids[i]);
  }

  /** The `prev` and `next` links of `x` name siblings, which lie outside
      `x`'s subtree. */
  lemma SiblingOutside(t: Shape, x: int)
    requires WellFormed(t)
    ensures PrevOf(t, x).Some? ==> Find(t, x).Some? && PrevOf(t, x).value in Ids(t) && PrevOf(t, x).value !in Ids(Find(t, x).value)
    ensures NextOf(t, x).Some? ==> Find(t, x).Some? && NextOf(t, x).value in Ids(t) && NextOf(t, x).value !in Ids(Find(t, x).value)
  {
    if ParentNode(t, x).Some? {
      var u := ParentNode(t, x).value;
      var i := Position(u.kids, x);
      KidIsNode(t, u, i);
      NodeIdIn(t, u.kids[i]);
      NodeById(t, Find(t, x).value, u.kids[i]);
      SubIds(t, u);
      SplitRoot(u);
      if i > 0 {
        SiblingsApart(u.kids, i - 1, i);
        KidIsNode(t, u, i - 1);
        NodeIdIn(t, u.kids[i - 1]);
      }
      if i < |u.kids| - 1 {
        SiblingsApart(u.kids, i + 1, i);
        KidIsNode(t, u, i + 1);
        NodeIdIn(t, u.kids[i + 1]);
      }
    }
  }

  /** A node with a `parent` is in the tree and is not its root. */
  lemma ParentMeansNode(t: Shape, x: int)
    requires WellFormed(t) && ParentNode(t, x).Some?
    ensures x in Ids(t) && x != t.id
  {
    ParentOutside(t, x);
    var u := ParentNode(t, x).value;
    NodeIdIn(t, u);
  }

  // ---------------------------------------------------------------------
  // How the links fit together

  /** A kid of a node below the roots of the forest `ks` is none of those
      roots. */
  lemma {:induction false} KidOfDeeper(ks: seq<Shape>, v: Shape, y: int)
    requires NoDup(IdsSeq(ks)) && v in NodesSeq(ks) && y in KidIds(v.kids)
    ensures y !in KidIds(ks)
  {
    assert ks != [];
    var ks', k := ks[..|ks| - 1], ks[|ks| - 1];
    assert ks == ks' + [k];
    SplitLast(ks', k);
    assert NodesSeq(ks) == NodesSeq(ks') + Nodes(k);
    var j :| 0 <= j < |v.kids| && v.kids[j].id == y;
    KidIdsIn(v.kids);
    assert y in Ids(v);
    if y in KidIds(ks) {
      var i :| 0 <= i < |ks| && ks[i].id == y;
      if v in NodesSeq(ks') {
        NodeIdsInSeq(ks', v);
        if i < |ks| - 1 {
          assert KidIds(ks')[i] == y;
          KidOfDeeper(ks', v, y);
        }
      } else {
        SubIds(k, v);
        if i < |ks| - 1 {
          KidIdsIn(ks');
        } else {
          SplitRoot(k);
          if v != k {
            NodeIdsInSeq(k.kids, v);
          }
        }
      }
    }
  }

  /** In a well-formed tree the `parent` of a kid of `v` is `v`. */
  lemma {:induction false} ParentFind(t: Shape, v: Shape, y: int)
    requires WellFormed(t) && Find(t, v.id) == Some(v) && y in KidIds(v.kids)
    ensures ParentNode(t, y) == Some(v)
    decreases t, 1
  {
    if t.id != v.id {
      SplitRoot(t);
      KidOfDeeper(t.kids, v, y);
      ParentSeqFind(t.kids, v, y);
    }
  }

  lemma {:induction false} ParentSeqFind(ks: seq<Shape>, v: Shape, y: int)
    requires NoDup(IdsSeq(ks)) && FindSeq(ks, v.id) == Some(v) && y in KidIds(v.kids)
    ensures ParentSeq(ks, y) == Some(v)
    decreases ks, 0
  {
    assert ks != [];
    var ks', k := ks[..|ks| - 1], ks[|ks| - 1];
    assert ks == ks' + [k];
    SplitLast(ks', k);
    if FindSeq(ks', v.id).Some? {
      ParentSeqFind(ks', v, y);
    } else {
      var j :| 0 <= j < |v.kids| && v.kids[j].id == y;
      KidIdsIn(v.kids);
      SubIds(k, v);
      assert y in Ids(k);
      ParentIds(ks', y);
      ParentFind(k, v, y);
    }
  }

  /** Only a node's own id can have a `parent` inside it. */
  lemma ParentIds(ks: seq<Shape>, y: int)
    ensures ParentSeq(ks, y).Some? ==> y in IdsSeq(ks)
  {
    if ParentSeq(ks, y).Some? {
      var u := ParentSeq(ks, y).value;
      var i :| 0 <= i < |u.kids| && u.kids[i].id == y;
      KidIdsIn(u.kids);
      NodeIdsInSeq(ks, u);
    }
  }

  /** Siblings have distinct ids, so a kid's position is its index. */
  lemma PositionOf(ks: seq<Shape>, i: int)
    requires NoDup(IdsSeq(ks)) && 0 <= i < |ks|
    ensures Position(ks, ks[i].id) == i
  {
    assert KidIds(ks)[i] == ks[i].id;
    var p := Position(ks, ks[i].id);
    if p != i {
      SiblingsApart(ks, p, i);
      assert ks[p].id in Ids(ks[p]);
      assert false;
    }
  }

  /** The links of the `i`th kid of `v`: `v` is its `parent`, and its
      `prev` and `next` are the kids just before and after it. */
  lemma KidLinks(t: Shape, v: Shape, i: int)
    requires WellFormed(t) && Find(t, v.id) == Some(v) && 0 <= i < |v.kids|
    ensures ParentOf(t, v.kids[i].id) == Some(v.id)
    ensures PrevOf(t, v.kids[i].id) == if i > 0 then Some(v.kids[i - 1].id) else None
    ensures NextOf(t, v.kids[i].id) == if i < |v.kids| - 1 then Some(v.kids[i + 1].id) else None
  {
    assert KidIds(v.kids)[i] == v.kids[i].id;
    ParentFind(t, v, v.kids[i].id);
    SubIds(t, v);
    SplitRoot(v);
    PositionOf(v.kids, i);
  }

  /** The `children` of `x` are exactly the nodes whose `parent` is `x`. */
  lemma KidsParents(t: Shape, x: int)
    requires WellFormed(t)
    ensures forall y :: y in KidsOf(t, x) <==> ParentOf(t, y) == Some(x)
  {
    forall y
      ensures y in KidsOf(t, x) <==> ParentOf(t, y) == Some(x)
    {
      KidParent(t, x, y);
    }
  }

  /** The `children` of `x` are chained in order: each one's `next` is the
      one after it and its `prev` the one before, the first has no `prev`
      and the last no `next`. */
  lemma KidsOrder(t: Shape, x: int)
    requires WellFormed(t)
    ensures var r := KidsOf(t, x);
            forall i :: 0 < i < |r| ==> NextOf(t, r[i - 1]) == Some(r[i]) && PrevOf(t, r[i]) == Some(r[i - 1])
    ensures var r := KidsOf(t, x);
            r != [] ==> PrevOf(t, r[0]).None? && NextOf(t, r[|r| - 1]).None?
  {
    if Find(t, x).Some? {
      var v := Find(t, x).value;
      assert KidsOf(t, x) == KidIds(v.kids);
      KidsChain(t, v);
    }
  }

  /** The kids of `v`, chained by `prev` and `next` in order. */
  lemma KidsChain(t: Shape, v: Shape)
    requires WellFormed(t) && Find(t, v.id) == Some(v)
    ensures forall i :: 0 < i < |v.kids| ==>
              NextOf(t, v.kids[i - 1].id) == Some(v.kids[i].id) && PrevOf(t, v.kids[i].id) == Some(v.kids[i - 1].id)
    ensures v.kids != [] ==> PrevOf(t, v.kids[0].id).None? && NextOf(t, v.kids[|v.kids| - 1].id).None?
  {
    forall i | 0 < i < |v.kids|
      ensures NextOf(t, v.kids[i - 1].id) == Some(v.kids[i].id) && PrevOf(t, v.kids[i].id) == Some(v.kids[i - 1].id)
    {
      KidLinks(t, v, i - 1);
      KidLinks(t, v, i);
    }
    if v.kids != [] {
      KidLinks(t, v, 0);
      KidLinks(t, v, |v.kids| - 1);
    }
  }

  lemma KidParent(t: Shape, x: int, y: int)
    requires WellFormed(t)
    ensures y in KidsOf(t, x) <==> ParentOf(t, y) == Some(x)
  {
    if y in KidsOf(t, x) {
      var v := Find(t, x).value;
      var i :| 0 <= i < |v.kids| && v.kids[i].id == y;
      KidLinks(t, v, i);
    }
    if ParentOf(t, y) == Some(x) {
      var u :| u in Nodes(t) && u.id == x && y in KidIds(u.kids);
      NodeIdIn(t, u);
      NodeById(t, u, Find(t, x).value);
    }
  }

  /** `next` undoes `prev`. */
  lemma PrevNext(t: Shape, x: int)
    requires WellFormed(t)
    ensures PrevOf(t, x).Some? ==> NextOf(t, PrevOf(t, x).value) == Some(x)
  {
    if ParentNode(t, x).Some? {
      var u, i := ParentKid(t, x);
      if i > 0 {
        KidLinks(t, u, i - 1);
      }
    }
  }

  /** `prev` undoes `next`. */
  lemma NextPrev(t: Shape, x: int)
    requires WellFormed(t)
    ensures NextOf(t, x).Some? ==> PrevOf(t, NextOf(t, x).value) == Some(x)
  {
    if ParentNode(t, x).Some? {
      var u, i := ParentKid(t, x);
      if i < |u.kids| - 1 {
        KidLinks(t, u, i + 1);
      }
    }
  }

  /** The node holding `x` as a kid, and where. */
  lemma ParentKid(t: Shape, x: int) returns (u: Shape, i: int)
    requires WellFormed(t) && ParentNode(t, x).Some?
    ensures u == ParentNode(t, x).value && Find(t, u.id) == Some(u)
    ensures 0 <= i < |u.kids| && u.kids[i].id == x
    ensures PrevOf(t, x) == if i > 0 then Some(u.kids[i - 1].id) else None
    ensures NextOf(t, x) == if i < |u.kids| - 1 then Some(u.kids[i + 1].id) else None
  {
    u := ParentNode(t, x).value;
    NodeIdIn(t, u);
    NodeById(t, u, Find(t, u.id).value);
    i := Position(u.kids, x);
    KidLinks(t, u, i);
  }
}
