/** The nested structure of a tree, reduced to node ids.

    The index of src/tree.ts links its records by parent, sibling and child
    ids; a `Shape` is the nested tree those links describe (the nested object
    that js-tree keeps beside its index, with every node named by its id).
    Moving a node is defined here as cutting its subtree out of the Shape and
    grafting it back in next to, or inside, its target. */
module Shapes {
  import opened Wrappers

  datatype Shape = Shape(id: int, kids: seq<Shape>)

  /** Where `Tree.move` puts a node relative to its target (src/tree.ts:3). */
  datatype Placement = Before | After | Prepend | Append

  function KidIds(ks: seq<Shape>): (r: seq<int>)
    ensures |r| == |ks|
    ensures forall i :: 0 <= i < |ks| ==> r[i] == ks[i].id
  {
    seq(|ks|, i requires 0 <= i < |ks| => ks[i].id)
  }

  /** The ids of a subtree in depth-first preorder. */
  function Ids(t: Shape): seq<int>
  {
    [t.id] + IdsSeq(t.kids)
  }

  function IdsSeq(ks: seq<Shape>): seq<int>
  {
    if ks == [] then [] else IdsSeq(ks[..|ks| - 1]) + Ids(ks[|ks| - 1])
  }

  /** Every subtree of `t`, `t` itself first, in depth-first preorder. */
  function Nodes(t: Shape): seq<Shape>
  {
    [t] + NodesSeq(t.kids)
  }

  function NodesSeq(ks: seq<Shape>): seq<Shape>
  {
    if ks == [] then [] else NodesSeq(ks[..|ks| - 1]) + Nodes(ks[|ks| - 1])
  }

  ghost predicate NoDup(s: seq<int>)
  {
    forall i, j :: 0 <= i < j < |s| ==> s[i] != s[j]
  }

  /** No id occurs twice: what makes records keyed by id a tree. */
  ghost predicate WellFormed(t: Shape)
  {
    NoDup(Ids(t))
  }

  // ---------------------------------------------------------------------
  // Sequences of ids

  lemma NoDupConcat(a: seq<int>, b: seq<int>)
    ensures NoDup(a + b) <==> NoDup(a) && NoDup(b) && forall x :: x in a ==> x !in b
  {
    if NoDup(a) && NoDup(b) && forall x :: x in a ==> x !in b {
      forall i, j | 0 <= i < j < |a + b|
        ensures (a + b)[i] != (a + b)[j]
      {
        if i < |a| <= j {
          assert (a + b)[i] == a[i] && (a + b)[j] == b[j - |a|];
          assert a[i] in a;
        } else if |a| <= i {
          assert (a + b)[i] == b[i - |a|] && (a + b)[j] == b[j - |a|];
        }
      }
    }
    if NoDup(a + b) {
      forall i, j | 0 <= i < j < |a|
        ensures a[i] != a[j]
      {
        assert (a + b)[i] == a[i] && (a + b)[j] == a[j];
      }
      forall i, j | 0 <= i < |a| && 0 <= j < |b|
        ensures a[i] != b[j]
      {
        assert (a + b)[i] == a[i] && (a + b)[|a| + j] == b[j];
      }
      forall i, j | 0 <= i < j < |b|
        ensures b[i] != b[j]
      {
        assert (a + b)[|a| + i] == b[i] && (a + b)[|a| + j] == b[j];
      }
    }
  }

  lemma {:induction false} NoDupCounts(s: seq<int>)
    ensures NoDup(s) <==> forall x :: multiset(s)[x] <= 1
  {
    if s != [] {
      var a, r := s[0], s[1..];
      assert s == [a] + r;
      NoDupConcat([a], r);
      NoDupCounts(r);
      if forall x :: multiset(s)[x] <= 1 {
        assert a !in r by {
          assert multiset(s)[a] == 1 + multiset(r)[a];
        }
        forall x
          ensures multiset(r)[x] <= 1
        {
          assert multiset(s)[x] == multiset([a])[x] + multiset(r)[x];
        }
      }
    }
  }

  lemma NoDupByCounts(s: seq<int>, s': seq<int>)
    requires NoDup(s) && multiset(s') <= multiset(s)
    ensures NoDup(s')
  {
    NoDupCounts(s);
    NoDupCounts(s');
  }

  lemma IdsSeqSnoc(ks: seq<Shape>, k: Shape)
    ensures IdsSeq(ks + [k]) == IdsSeq(ks) + Ids(k)
    ensures NodesSeq(ks + [k]) == NodesSeq(ks) + Nodes(k)
  {
    assert (ks + [k])[..|ks|] == ks;
  }

  lemma {:induction false} IdsSeqConcat(a: seq<Shape>, b: seq<Shape>)
    ensures IdsSeq(a + b) == IdsSeq(a) + IdsSeq(b)
    ensures NodesSeq(a + b) == NodesSeq(a) + NodesSeq(b)
    decreases |b|
  {
    if b == [] {
      assert a + b == a;
    } else {
      var b', k := b[..|b| - 1], b[|b| - 1];
      assert b == b' + [k];
      assert a + b == (a + b') + [k];
      IdsSeqConcat(a, b');
      IdsSeqSnoc(a + b', k);
      IdsSeqSnoc(b', k);
    }
  }

  // ---------------------------------------------------------------------
  // Subtrees

  lemma {:induction false} IdsOfNodes(t: Shape)
    ensures |Ids(t)| == |Nodes(t)|
    ensures forall i :: 0 <= i < |Ids(t)| ==> Ids(t)[i] == Nodes(t)[i].id
  {
    IdsOfNodesSeq(t.kids);
  }

  lemma {:induction false} IdsOfNodesSeq(ks: seq<Shape>)
    ensures |IdsSeq(ks)| == |NodesSeq(ks)|
    ensures forall i :: 0 <= i < |IdsSeq(ks)| ==> IdsSeq(ks)[i] == NodesSeq(ks)[i].id
  {
    if ks != [] {
      IdsOfNodesSeq(ks[..|ks| - 1]);
      IdsOfNodes(ks[|ks| - 1]);
    }
  }

  /** A subtree's nodes and ids lie within the tree's, and its ids are a
      contiguous stretch of the tree's preorder. */
  lemma {:induction false} Within(t: Shape, u: Shape) returns (a: seq<int>, b: seq<int>)
    requires u in Nodes(t)
    ensures forall v :: v in Nodes(u) ==> v in Nodes(t)
    ensures Ids(t) == a + Ids(u) + b
  {
    if u == t {
      a, b := [], [];
    } else {
      var a', b' := WithinSeq(t.kids, u);
      a, b := [t.id] + a', b';
    }
  }

  lemma {:induction false} WithinSeq(ks: seq<Shape>, u: Shape) returns (a: seq<int>, b: seq<int>)
    requires u in NodesSeq(ks)
    ensures forall v :: v in Nodes(u) ==> v in NodesSeq(ks)
    ensures IdsSeq(ks) == a + Ids(u) + b
  {
    var ks', k := ks[..|ks| - 1], ks[|ks| - 1];
    assert NodesSeq(ks) == NodesSeq(ks') + Nodes(k);
    assert IdsSeq(ks) == IdsSeq(ks') + Ids(k);
    if u in NodesSeq(ks') {
      var a', b' := WithinSeq(ks', u);
      a, b := a', b' + Ids(k);
      assert IdsSeq(ks) == a' + Ids(u) + b' + Ids(k);
    } else {
      var a', b' := Within(k, u);
      a, b := IdsSeq(ks') + a', b';
      assert IdsSeq(ks) == IdsSeq(ks') + (a' + Ids(u) + b');
    }
  }

  lemma SubIds(t: Shape, u: Shape)
    requires u in Nodes(t)
    ensures forall x :: x in Ids(u) ==> x in Ids(t)
    ensures WellFormed(t) ==> WellFormed(u)
  {
    var a, b := Within(t, u);
    if WellFormed(t) {
      NoDupConcat(a + Ids(u), b);
      NoDupConcat(a, Ids(u));
    }
  }

  lemma {:induction false} KidWithin(ks: seq<Shape>, i: int)
    requires 0 <= i < |ks|
    ensures ks[i] in NodesSeq(ks)
  {
    if i < |ks| - 1 {
      KidWithin(ks[..|ks| - 1], i);
    }
  }

  /** The kids of a node of `t` are nodes of `t`. */
  lemma KidIsNode(t: Shape, u: Shape, i: int)
    requires u in Nodes(t) && 0 <= i < |u.kids|
    ensures u.kids[i] in Nodes(t)
  {
    KidWithin(u.kids, i);
    var _, _ := Within(t, u);
  }

  /** In a well-formed tree, a node is determined by its id. */
  lemma NodeById(t: Shape, u: Shape, v: Shape)
    requires WellFormed(t) && u in Nodes(t) && v in Nodes(t) && u.id == v.id
    ensures u == v
  {
    IdsOfNodes(t);
    var i :| 0 <= i < |Nodes(t)| && Nodes(t)[i] == u;
    var j :| 0 <= j < |Nodes(t)| && Nodes(t)[j] == v;
    assert Ids(t)[i] == Ids(t)[j];
  }

  lemma NodeIdIn(t: Shape, u: Shape)
    requires u in Nodes(t)
    ensures u.id in Ids(t)
  {
    IdsOfNodes(t);
    var i :| 0 <= i < |Nodes(t)| && Nodes(t)[i] == u;
    assert Ids(t)[i] == u.id;
  }

  lemma NodeIdInSeq(ks: seq<Shape>, u: Shape)
    requires u in NodesSeq(ks)
    ensures u.id in IdsSeq(ks)
  {
    IdsOfNodesSeq(ks);
    var i :| 0 <= i < |NodesSeq(ks)| && NodesSeq(ks)[i] == u;
    assert IdsSeq(ks)[i] == u.id;
  }

  /** The kids of a node of a forest are nodes of that forest. */
  lemma KidIsNodeSeq(ks: seq<Shape>, u: Shape, i: int)
    requires u in NodesSeq(ks) && 0 <= i < |u.kids|
    ensures u.kids[i] in NodesSeq(ks)
  {
    KidWithin(u.kids, i);
    var _, _ := WithinSeq(ks, u);
  }

  /** The nodes of siblings: the earlier siblings', then the last one, then
      the last one's descendants. */
  lemma NodesSeqStep(ks: seq<Shape>)
    requires ks != []
    ensures var k := ks[|ks| - 1];
            NodesSeq(ks) == NodesSeq(ks[..|ks| - 1]) + [k] + NodesSeq(k.kids)
  {
  }

  /** The nodes of a forest, their ids and their kids' ids belong to it. */
  lemma ForestClosed(ks: seq<Shape>)
    ensures forall u :: u in NodesSeq(ks) ==> u.id in IdsSeq(ks)
    ensures forall u, i :: u in NodesSeq(ks) && 0 <= i < |u.kids| ==> u.kids[i] in NodesSeq(ks) && u.kids[i].id in IdsSeq(ks)
  {
    forall u | u in NodesSeq(ks)
      ensures u.id in IdsSeq(ks)
    {
      NodeIdInSeq(ks, u);
    }
    forall u, i | u in NodesSeq(ks) && 0 <= i < |u.kids|
      ensures u.kids[i] in NodesSeq(ks) && u.kids[i].id in IdsSeq(ks)
    {
      KidIsNodeSeq(ks, u, i);
      NodeIdInSeq(ks, u.kids[i]);
    }
  }

  /** The ids of siblings belong to their forest. */
  lemma KidIdsIn(ks: seq<Shape>)
    ensures forall i :: 0 <= i < |ks| ==> ks[i].id in IdsSeq(ks)
  {
    forall i | 0 <= i < |ks|
      ensures ks[i].id in IdsSeq(ks)
    {
      KidWithin(ks, i);
      NodeIdInSeq(ks, ks[i]);
    }
  }

  /** The ids of a node of a forest belong to the forest. */
  lemma NodeIdsInSeq(ks: seq<Shape>, u: Shape)
    requires u in NodesSeq(ks)
    ensures forall x :: x in Ids(u) ==> x in IdsSeq(ks)
  {
    var _, _ := WithinSeq(ks, u);
  }

  /** Splits a well-formed forest at its last tree. */
  lemma SplitLast(ks: seq<Shape>, k: Shape)
    requires NoDup(IdsSeq(ks + [k]))
    ensures NoDup(IdsSeq(ks)) && NoDup(Ids(k))
    ensures forall x :: x in IdsSeq(ks) ==> x !in Ids(k)
  {
    IdsSeqSnoc(ks, k);
    NoDupConcat(IdsSeq(ks), Ids(k));
  }

  /** The prefix before the `i`th tree of a well-formed forest and that
      tree are well formed and apart. */
  lemma PrefixSplit(ks: seq<Shape>, i: int)
    requires NoDup(IdsSeq(ks)) && 0 <= i < |ks|
    ensures NoDup(IdsSeq(ks[..i])) && NoDup(Ids(ks[i]))
    ensures forall x :: x in IdsSeq(ks[..i]) ==> x !in Ids(ks[i])
  {
    var s := ks[..i + 1];
    PrefixIds(ks, i + 1);
    assert s[..i] == ks[..i] && s[i] == ks[i];
    assert IdsSeq(s) == IdsSeq(ks[..i]) + Ids(ks[i]);
    NoDupConcat(IdsSeq(ks[..i]), Ids(ks[i]));
  }

  /** A prefix of a well-formed forest is one, within it. */
  lemma PrefixIds(ks: seq<Shape>, n: int)
    requires NoDup(IdsSeq(ks)) && 0 <= n <= |ks|
    ensures NoDup(IdsSeq(ks[..n]))
    ensures forall x :: x in IdsSeq(ks[..n]) ==> x in IdsSeq(ks)
  {
    assert ks == ks[..n] + ks[n..];
    IdsSeqConcat(ks[..n], ks[n..]);
    NoDupConcat(IdsSeq(ks[..n]), IdsSeq(ks[n..]));
  }

  /** Splits a well-formed tree at its root. */
  lemma SplitRoot(t: Shape)
    requires WellFormed(t)
    ensures NoDup(IdsSeq(t.kids)) && t.id !in IdsSeq(t.kids)
  {
    NoDupConcat([t.id], IdsSeq(t.kids));
  }

  // ---------------------------------------------------------------------
  // Lookup

  /** The subtree whose root has id `x`, if any (js-tree `getIndex`). */
  function Find(t: Shape, x: int): (r: Option<Shape>)
    ensures r.Some? ==> r.value in Nodes(t) && r.value.id == x && x in Ids(t)
    ensures r.None? ==> x !in Ids(t)
  {
    if t.id == x then Some(t) else FindSeq(t.kids, x)
  }

  function FindSeq(ks: seq<Shape>, x: int): (r: Option<Shape>)
    ensures r.Some? ==> r.value in NodesSeq(ks) && r.value.id == x && x in IdsSeq(ks)
    ensures r.None? ==> x !in IdsSeq(ks)
  {
    if ks == [] then None
    else
      match FindSeq(ks[..|ks| - 1], x)
      case Some(u) => Some(u)
      case None => Find(ks[|ks| - 1], x)
  }

  // ---------------------------------------------------------------------
  // Cutting out and grafting in

  /** `t` with the subtree rooted at id `f` cut out. */
  function Prune(t: Shape, f: int): Shape
  {
    Shape(t.id, PruneSeq(t.kids, f))
  }

  function PruneSeq(ks: seq<Shape>, f: int): seq<Shape>
  {
    if ks == [] then []
    else
      var k := ks[|ks| - 1];
      PruneSeq(ks[..|ks| - 1], f) + (if k.id == f then [] else [Prune(k, f)])
  }

  /** `t` with `sub` placed relative to the node with id `to`. */
  function Graft(t: Shape, sub: Shape, to: int, pl: Placement): Shape
    decreases t, 0
  {
    var ks := GraftSeq(t.kids, sub, to, pl);
    Shape(t.id, if t.id == to && pl == Prepend then [sub] + ks
                else if t.id == to && pl == Append then ks + [sub]
                else ks)
  }

  function GraftSeq(ks: seq<Shape>, sub: Shape, to: int, pl: Placement): seq<Shape>
  {
    if ks == [] then []
    else GraftSeq(ks[..|ks| - 1], sub, to, pl) + Splice(ks[|ks| - 1], sub, to, pl)
  }

  /** What one kid `k` becomes: itself grafted, with `sub` beside it when
      `k` is the target of a sibling placement. */
  function Splice(k: Shape, sub: Shape, to: int, pl: Placement): seq<Shape>
    decreases k, 1
  {
    var k' := Graft(k, sub, to, pl);
    if k.id == to && pl == Before then [sub, k']
    else if k.id == to && pl == After then [k', sub]
    else [k']
  }

  /** The nested structure after `move(f, to, pl)`: the subtree of `f` cut
      out, then grafted in relative to `to`. */
  function Relocate(t: Shape, f: int, to: int, pl: Placement): Shape
    requires Find(t, f).Some?
  {
    Graft(Prune(t, f), Find(t, f).value, to, pl)
  }

  lemma {:induction false} PruneMissing(t: Shape, f: int)
    requires f !in IdsSeq(t.kids)
    ensures Prune(t, f) == t
  {
    PruneSeqMissing(t.kids, f);
  }

  lemma {:induction false} PruneSeqMissing(ks: seq<Shape>, f: int)
    requires f !in IdsSeq(ks)
    ensures PruneSeq(ks, f) == ks
  {
    if ks != [] {
      var ks', k := ks[..|ks| - 1], ks[|ks| - 1];
      PruneSeqMissing(ks', f);
      PruneMissing(k, f);
      assert ks == ks' + [k];
    }
  }

  lemma {:induction false} GraftMissing(t: Shape, sub: Shape, to: int, pl: Placement)
    requires to !in Ids(t)
    ensures Graft(t, sub, to, pl) == t
  {
    GraftSeqMissing(t.kids, sub, to, pl);
  }

  lemma {:induction false} GraftSeqMissing(ks: seq<Shape>, sub: Shape, to: int, pl: Placement)
    requires to !in IdsSeq(ks)
    ensures GraftSeq(ks, sub, to, pl) == ks
  {
    if ks != [] {
      var ks', k := ks[..|ks| - 1], ks[|ks| - 1];
      GraftSeqMissing(ks', sub, to, pl);
      GraftMissing(k, sub, to, pl);
      assert ks == ks' + [k];
    }
  }

  /** Cutting out a subtree removes exactly that subtree's ids. */
  lemma {:induction false} PruneCount(t: Shape, f: int, u: Shape)
    requires WellFormed(t) && f != t.id && Find(t, f) == Some(u)
    ensures multiset(Ids(Prune(t, f))) + multiset(Ids(u)) == multiset(Ids(t))
  {
    SplitRoot(t);
    PruneSeqCount(t.kids, f, u);
  }

  lemma {:induction false} PruneSeqCount(ks: seq<Shape>, f: int, u: Shape)
    requires NoDup(IdsSeq(ks)) && FindSeq(ks, f) == Some(u)
    ensures multiset(IdsSeq(PruneSeq(ks, f))) + multiset(Ids(u)) == multiset(IdsSeq(ks))
  {
    var ks', k := ks[..|ks| - 1], ks[|ks| - 1];
    assert ks == ks' + [k];
    SplitLast(ks', k);
    if FindSeq(ks', f).Some? {
      PruneSeqCount(ks', f, u);
      assert f !in Ids(k);
      PruneKeep(ks', k, f, u);
    } else {
      assert Find(k, f) == Some(u);
      PruneSeqMissing(ks', f);
      if k.id != f {
        PruneCount(k, f, u);
      }
      PruneLast(ks', k, f, u);
    }
  }

  lemma PruneSnoc(ks: seq<Shape>, k: Shape, f: int)
    ensures PruneSeq(ks + [k], f) == PruneSeq(ks, f) + (if k.id == f then [] else [Prune(k, f)])
  {
    assert (ks + [k])[..|ks + [k]| - 1] == ks;
  }

  /** The step of `PruneSeqCount` when `f` lies in the first siblings. */
  lemma PruneKeep(ks: seq<Shape>, k: Shape, f: int, u: Shape)
    requires multiset(IdsSeq(PruneSeq(ks, f))) + multiset(Ids(u)) == multiset(IdsSeq(ks))
    requires f !in Ids(k)
    ensures multiset(IdsSeq(PruneSeq(ks + [k], f))) + multiset(Ids(u)) == multiset(IdsSeq(ks + [k]))
  {
    assert Ids(k) == [k.id] + IdsSeq(k.kids);
    PruneMissing(k, f);
    PruneSnoc(ks, k, f);
    var p := PruneSeq(ks, f);
    IdsSeqSnoc(p, k);
    IdsSeqSnoc(ks, k);
    calc {
      multiset(IdsSeq(PruneSeq(ks + [k], f))) + multiset(Ids(u));
      multiset(IdsSeq(p + [k])) + multiset(Ids(u));
      multiset(IdsSeq(p)) + multiset(Ids(k)) + multiset(Ids(u));
      multiset(IdsSeq(ks)) + multiset(Ids(k));
      multiset(IdsSeq(ks + [k]));
    }
  }

  /** The step of `PruneSeqCount` when `f` lies in the last sibling `k`. */
  lemma PruneLast(ks: seq<Shape>, k: Shape, f: int, u: Shape)
    requires PruneSeq(ks, f) == ks
    requires k.id == f ==> u == k
    requires k.id != f ==> multiset(Ids(Prune(k, f))) + multiset(Ids(u)) == multiset(Ids(k))
    ensures multiset(IdsSeq(PruneSeq(ks + [k], f))) + multiset(Ids(u)) == multiset(IdsSeq(ks + [k]))
  {
    PruneSnoc(ks, k, f);
    IdsSeqSnoc(ks, k);
    if k.id != f {
      var k' := Prune(k, f);
      IdsSeqSnoc(ks, k');
      calc {
        multiset(IdsSeq(PruneSeq(ks + [k], f))) + multiset(Ids(u));
        multiset(IdsSeq(ks + [k'])) + multiset(Ids(u));
        multiset(IdsSeq(ks)) + multiset(Ids(k')) + multiset(Ids(u));
        multiset(IdsSeq(ks)) + multiset(Ids(k));
        multiset(IdsSeq(ks + [k]));
      }
    } else {
      assert PruneSeq(ks + [k], f) == ks + [];
      assert ks + [] == ks;
      calc {
        multiset(IdsSeq(PruneSeq(ks + [k], f))) + multiset(Ids(u));
        multiset(IdsSeq(ks)) + multiset(Ids(k));
        multiset(IdsSeq(ks + [k]));
      }
    }
  }

  /** Grafting adds exactly the grafted subtree's ids, provided the target
      is present (and, for a sibling placement, is not the root). */
  lemma {:induction false} GraftCount(t: Shape, sub: Shape, to: int, pl: Placement)
    requires WellFormed(t) && to in Ids(t)
    requires pl == Before || pl == After ==> to != t.id
    ensures multiset(Ids(Graft(t, sub, to, pl))) == multiset(Ids(t)) + multiset(Ids(sub))
    decreases t, 0
  {
    SplitRoot(t);
    if t.id == to {
      if pl == Prepend {
        GraftPrependCount(t, sub);
      } else {
        GraftAppendCount(t, sub);
      }
    } else {
      var g := Graft(t, sub, to, pl);
      GraftSeqCount(t.kids, sub, to, pl);
      assert Ids(g) == [t.id] + IdsSeq(GraftSeq(t.kids, sub, to, pl));
      Regroup(Ids(g), [t.id], IdsSeq(GraftSeq(t.kids, sub, to, pl)), [t.id], IdsSeq(t.kids), Ids(sub));
    }
  }

  /** Grafting first under the root adds the grafted ids. */
  lemma GraftPrependCount(t: Shape, sub: Shape)
    requires t.id !in IdsSeq(t.kids)
    ensures multiset(Ids(Graft(t, sub, t.id, Prepend))) == multiset(Ids(t)) + multiset(Ids(sub))
  {
    var g := Graft(t, sub, t.id, Prepend);
    GraftSeqMissing(t.kids, sub, t.id, Prepend);
    assert g.kids == [sub] + t.kids;
    IdsSeqConcat([sub], t.kids);
    IdsSeqSnoc([], sub);
    assert Ids(g) == ([t.id] + Ids(sub)) + IdsSeq(t.kids);
    Regroup(Ids(g), [t.id] + Ids(sub), IdsSeq(t.kids), [t.id], IdsSeq(t.kids), Ids(sub));
  }

  /** Grafting last under the root adds the grafted ids. */
  lemma GraftAppendCount(t: Shape, sub: Shape)
    requires t.id !in IdsSeq(t.kids)
    ensures multiset(Ids(Graft(t, sub, t.id, Append))) == multiset(Ids(t)) + multiset(Ids(sub))
  {
    var g := Graft(t, sub, t.id, Append);
    GraftSeqMissing(t.kids, sub, t.id, Append);
    assert g.kids == t.kids + [sub];
    IdsSeqSnoc(t.kids, sub);
    assert Ids(g) == [t.id] + (IdsSeq(t.kids) + Ids(sub));
    Regroup(Ids(g), [t.id], IdsSeq(t.kids) + Ids(sub), [t.id], IdsSeq(t.kids), Ids(sub));
  }

  lemma {:induction false} GraftSeqCount(ks: seq<Shape>, sub: Shape, to: int, pl: Placement)
    requires NoDup(IdsSeq(ks)) && to in IdsSeq(ks)
    ensures multiset(IdsSeq(GraftSeq(ks, sub, to, pl))) == multiset(IdsSeq(ks)) + multiset(Ids(sub))
  {
    var ks', k := ks[..|ks| - 1], ks[|ks| - 1];
    assert ks == ks' + [k];
    SplitLast(ks', k);
    IdsSeqSnoc(ks', k);
    var rest := GraftSeq(ks', sub, to, pl);
    var tail := Splice(k, sub, to, pl);
    assert GraftSeq(ks, sub, to, pl) == rest + tail;
    IdsSeqConcat(rest, tail);
    if to in IdsSeq(ks') {
      GraftSeqCount(ks', sub, to, pl);
      GraftMissing(k, sub, to, pl);
      assert tail == [k];
      IdsSeqSnoc([], k);
      assert [] + [k] == [k];
      Regroup(IdsSeq(GraftSeq(ks, sub, to, pl)), IdsSeq(rest), IdsSeq(tail), IdsSeq(ks'), Ids(k), Ids(sub));
    } else {
      GraftSeqMissing(ks', sub, to, pl);
      SpliceCount(k, sub, to, pl);
      Regroup(IdsSeq(GraftSeq(ks, sub, to, pl)), IdsSeq(rest), IdsSeq(tail), IdsSeq(ks'), Ids(k), Ids(sub));
    }
  }

  /** The multiset bookkeeping of one step of a graft. */
  lemma Regroup(x: seq<int>, r: seq<int>, t: seq<int>, a: seq<int>, k: seq<int>, s: seq<int>)
    requires x == r + t
    requires (multiset(r) == multiset(a) + multiset(s) && t == k) || (r == a && multiset(t) == multiset(k) + multiset(s))
    ensures multiset(x) == multiset(a + k) + multiset(s)
  {
  }

  lemma {:induction false} SpliceCount(k: Shape, sub: Shape, to: int, pl: Placement)
    requires NoDup(Ids(k)) && to in Ids(k)
    ensures multiset(IdsSeq(Splice(k, sub, to, pl))) == multiset(Ids(k)) + multiset(Ids(sub))
    decreases k, 1
  {
    if k.id == to && (pl == Before || pl == After) {
      SpliceBeside(k, sub, pl);
    } else {
      var k' := Graft(k, sub, to, pl);
      assert Splice(k, sub, to, pl) == [k'];
      GraftCount(k, sub, to, pl);
      IdsSeqSnoc([], k');
      assert [] + [k'] == [k'];
    }
  }

  /** `sub` placed just before or after `k` itself. */
  lemma SpliceBeside(k: Shape, sub: Shape, pl: Placement)
    requires NoDup(Ids(k)) && (pl == Before || pl == After)
    ensures multiset(IdsSeq(Splice(k, sub, k.id, pl))) == multiset(Ids(k)) + multiset(Ids(sub))
  {
    SplitRoot(k);
    GraftSeqMissing(k.kids, sub, k.id, pl);
    assert Graft(k, sub, k.id, pl) == k;
    if pl == Before {
      assert Splice(k, sub, k.id, pl) == [sub, k];
      IdsOfPair(sub, k);
      Regroup(IdsSeq([sub, k]), Ids(sub), Ids(k), [], Ids(k), Ids(sub));
    } else {
      assert Splice(k, sub, k.id, pl) == [k, sub];
      IdsOfPair(k, sub);
      Regroup(IdsSeq([k, sub]), Ids(k), Ids(sub), Ids(k), [], Ids(sub));
    }
  }

  lemma IdsOfPair(x: Shape, y: Shape)
    ensures IdsSeq([x, y]) == Ids(x) + Ids(y)
  {
    IdsSeqSnoc([], x);
    IdsSeqSnoc([x], y);
    assert [] + [x] == [x];
    assert [x] + [y] == [x, y];
  }

  /** Moving a subtree keeps the tree's ids, each once, and its root. */
  lemma RelocateIds(t: Shape, f: int, to: int, pl: Placement)
    requires WellFormed(t) && f != t.id && Find(t, f).Some?
    requires to in Ids(t) && to !in Ids(Find(t, f).value) && to != t.id
    ensures multiset(Ids(Relocate(t, f, to, pl))) == multiset(Ids(t))
    ensures WellFormed(Relocate(t, f, to, pl)) && Relocate(t, f, to, pl).id == t.id
  {
    var u := Find(t, f).value;
    var p := Prune(t, f);
    PruneCount(t, f, u);
    assert multiset(Ids(p)) <= multiset(Ids(t));
    NoDupByCounts(Ids(t), Ids(p));
    assert to in multiset(Ids(p));
    GraftCount(p, u, to, pl);
    NoDupByCounts(Ids(t), Ids(Relocate(t, f, to, pl)));
  }
}
