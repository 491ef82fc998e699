/** What `Tree.move` does to the `children` links of the index.

    src/tree.ts:75-84 relinks through js-tree's `remove` followed by one of
    `insertBefore`, `insertAfter`, `prepend` or `append`. Those primitives
    are foreign to this model; the effect assumed of them is the one stated
    here on children lists (`Without`, `Relinked`), and the lemmas show that
    `Relocate`, the nested-structure move the rest of the model uses, has
    exactly that effect on every record. */
module Relinks {
  import opened Wrappers
  import opened Shapes
  import opened Links

  /** A children list after `remove(x)`. */
  function Without(ids: seq<int>, x: int): seq<int>
  {
    if ids == [] then []
    else
      var y := ids[|ids| - 1];
      Without(ids[..|ids| - 1], x) + (if y == x then [] else [y])
  }

  /** A children list after `insertBefore(x, to)` or `insertAfter(x, to)`:
      `x` put next to `to`, on the side the placement names. */
  function Beside(ids: seq<int>, to: int, x: int, pl: Placement): seq<int>
  {
    if ids == [] then []
    else
      var y := ids[|ids| - 1];
      Beside(ids[..|ids| - 1], to, x, pl)
        + (if y == to && pl == Before then [x, y]
           else if y == to && pl == After then [y, x]
           else [y])
  }

  /** The children list of the record `y` once `x` is placed relative to
      `to`: first or last child of `to` for `prepend`/`append`, a new
      sibling of `to` for `insertBefore`/`insertAfter`. */
  function Relinked(ids: seq<int>, y: int, to: int, x: int, pl: Placement): seq<int>
  {
    if y == to && pl == Prepend then [x] + ids
    else if y == to && pl == Append then ids + [x]
    else Beside(ids, to, x, pl)
  }

  // ---------------------------------------------------------------------
  // Children lists under Prune and Graft

  lemma KidIdsSnoc(ks: seq<Shape>, k: Shape)
    ensures KidIds(ks + [k]) == KidIds(ks) + [k.id]
  {
  }

  lemma {:induction false} KidIdsPrune(ks: seq<Shape>, f: int)
    ensures KidIds(PruneSeq(ks, f)) == Without(KidIds(ks), f)
  {
    if ks != [] {
      var ks', k := ks[..|ks| - 1], ks[|ks| - 1];
      KidIdsPrune(ks', f);
      assert ks == ks' + [k];
      KidIdsSnoc(ks', k);
      assert KidIds(ks)[..|ks| - 1] == KidIds(ks');
      if k.id != f {
        KidIdsSnoc(PruneSeq(ks', f), Prune(k, f));
      } else {
        assert PruneSeq(ks, f) == PruneSeq(ks', f) + [];
      }
    }
  }

  lemma {:induction false} KidIdsGraft(ks: seq<Shape>, sub: Shape, to: int, pl: Placement)
    ensures KidIds(GraftSeq(ks, sub, to, pl)) == Beside(KidIds(ks), to, sub.id, pl)
  {
    if ks != [] {
      var ks', k := ks[..|ks| - 1], ks[|ks| - 1];
      KidIdsGraft(ks', sub, to, pl);
      assert KidIds(ks)[..|ks| - 1] == KidIds(ks');
      var g, k' := GraftSeq(ks', sub, to, pl), Graft(k, sub, to, pl);
      if k.id == to && pl == Before {
        assert KidIds(g + [sub, k']) == KidIds(g) + [sub.id, k.id];
      } else if k.id == to && pl == After {
        assert KidIds(g + [k', sub]) == KidIds(g) + [k.id, sub.id];
      } else {
        KidIdsSnoc(g, k');
      }
    }
  }

  /** Only the sibling placements change lists other than the target's. */
  lemma {:induction false} BesideInside(ids: seq<int>, to: int, x: int, pl: Placement)
    requires pl == Prepend || pl == Append
    ensures Beside(ids, to, x, pl) == ids
  {
    if ids != [] {
      BesideInside(ids[..|ids| - 1], to, x, pl);
      assert ids == ids[..|ids| - 1] + [ids[|ids| - 1]];
    }
  }

  // ---------------------------------------------------------------------
  // Finding a record after Prune and Graft

  lemma {:induction false} FindSeqConcat(a: seq<Shape>, b: seq<Shape>, x: int)
    ensures FindSeq(a + b, x) == if FindSeq(a, x).Some? then FindSeq(a, x) else FindSeq(b, x)
  {
    if b != [] {
      var b' := b[..|b| - 1];
      FindSeqConcat(a, b', x);
      assert (a + b)[..|a + b| - 1] == a + b';
    } else {
      assert a + b == a;
    }
  }

  /** A node outside every cut subtree is found where it was, cut too. */
  lemma {:induction false} FindPrune(t: Shape, f: int, x: int)
    requires forall u :: u in Nodes(t) && u.id == f ==> x !in Ids(u)
    ensures Find(Prune(t, f), x) == if Find(t, x).Some? then Some(Prune(Find(t, x).value, f)) else None
    decreases t, 1
  {
    if t.id != x {
      FindPruneSeq(t.kids, f, x);
    }
  }

  lemma {:induction false} FindPruneSeq(ks: seq<Shape>, f: int, x: int)
    requires forall u :: u in NodesSeq(ks) && u.id == f ==> x !in Ids(u)
    ensures FindSeq(PruneSeq(ks, f), x) == if FindSeq(ks, x).Some? then Some(Prune(FindSeq(ks, x).value, f)) else None
    decreases ks, 0
  {
    if ks != [] {
      var ks', k := ks[..|ks| - 1], ks[|ks| - 1];
      assert NodesSeq(ks) == NodesSeq(ks') + Nodes(k);
      FindPruneSeq(ks', f, x);
      var tail := if k.id == f then [] else [Prune(k, f)];
      FindSeqConcat(PruneSeq(ks', f), tail, x);
      if FindSeq(ks', x).None? {
        if k.id == f {
          assert k in Nodes(k);
        } else {
          FindPrune(k, f, x);
          assert [Prune(k, f)][..0] == [];
        }
      }
    }
  }

  /** A node of the tree grafted onto is found where it was, grafted too. */
  lemma {:induction false} FindGraft(t: Shape, sub: Shape, to: int, pl: Placement, x: int)
    requires x !in Ids(sub)
    ensures Find(Graft(t, sub, to, pl), x) == if Find(t, x).Some? then Some(Graft(Find(t, x).value, sub, to, pl)) else None
    decreases t, 1
  {
    if t.id != x {
      var ks := GraftSeq(t.kids, sub, to, pl);
      FindGraftSeq(t.kids, sub, to, pl, x);
      FindSub(sub, x);
      if t.id == to && pl == Prepend {
        FindSeqConcat([sub], ks, x);
        assert [sub][..0] == [];
      } else if t.id == to && pl == Append {
        FindSeqConcat(ks, [sub], x);
        assert [sub][..0] == [];
      }
    }
  }

  lemma {:induction false} FindGraftSeq(ks: seq<Shape>, sub: Shape, to: int, pl: Placement, x: int)
    requires x !in Ids(sub)
    ensures FindSeq(GraftSeq(ks, sub, to, pl), x) == if FindSeq(ks, x).Some? then Some(Graft(FindSeq(ks, x).value, sub, to, pl)) else None
    decreases ks, 0
  {
    if ks != [] {
      var ks', k := ks[..|ks| - 1], ks[|ks| - 1];
      FindGraftSeq(ks', sub, to, pl, x);
      FindSeqConcat(GraftSeq(ks', sub, to, pl), Splice(k, sub, to, pl), x);
      FindGraftSplice(k, sub, to, pl, x);
    }
  }

  /** The step of `FindGraftSeq`: one kid, with `sub` perhaps beside it. */
  lemma {:induction false} FindGraftSplice(k: Shape, sub: Shape, to: int, pl: Placement, x: int)
    requires x !in Ids(sub)
    ensures FindSeq(Splice(k, sub, to, pl), x) == if Find(k, x).Some? then Some(Graft(Find(k, x).value, sub, to, pl)) else None
    decreases k, 2
  {
    var s, k' := Splice(k, sub, to, pl), Graft(k, sub, to, pl);
    FindGraft(k, sub, to, pl, x);
    FindSub(sub, x);
    assert [sub][..0] == [] && [k'][..0] == [];
    if k.id == to && pl == Before {
      FindSeqConcat([sub], [k'], x);
      assert [sub] + [k'] == s;
    } else if k.id == to && pl == After {
      FindSeqConcat([k'], [sub], x);
      assert [k'] + [sub] == s;
    }
  }

  lemma FindSub(sub: Shape, x: int)
    requires x !in Ids(sub)
    ensures Find(sub, x).None?
  {
  }

  /** The grafted subtree is found whole, where it was put. */
  lemma {:induction false} FindGrafted(t: Shape, sub: Shape, to: int, pl: Placement)
    requires WellFormed(t) && to in Ids(t) && sub.id !in Ids(t)
    requires pl == Before || pl == After ==> to != t.id
    ensures Find(Graft(t, sub, to, pl), sub.id) == Some(sub)
    decreases t, 2
  {
    SplitRoot(t);
    var ks := GraftSeq(t.kids, sub, to, pl);
    if t.id == to {
      GraftSeqMissing(t.kids, sub, to, pl);
      if pl == Prepend {
        FindSeqConcat([sub], ks, sub.id);
        assert [sub][..0] == [];
      } else {
        FindSeqConcat(ks, [sub], sub.id);
        assert [sub][..0] == [];
      }
    } else {
      FindGraftedSeq(t.kids, sub, to, pl);
    }
  }

  lemma {:induction false} FindGraftedSeq(ks: seq<Shape>, sub: Shape, to: int, pl: Placement)
    requires NoDup(IdsSeq(ks)) && to in IdsSeq(ks) && sub.id !in IdsSeq(ks)
    ensures FindSeq(GraftSeq(ks, sub, to, pl), sub.id) == Some(sub)
    decreases ks, 1
  {
    var ks', k := ks[..|ks| - 1], ks[|ks| - 1];
    assert ks == ks' + [k];
    SplitLast(ks', k);
    var g := GraftSeq(ks', sub, to, pl);
    FindSeqConcat(g, Splice(k, sub, to, pl), sub.id);
    if to in IdsSeq(ks') {
      FindGraftedSeq(ks', sub, to, pl);
    } else {
      GraftSeqMissing(ks', sub, to, pl);
      FindSplice(k, sub, to, pl);
    }
  }

  /** The step of `FindGraftedSeq` when the target lies in the last kid. */
  lemma {:induction false} FindSplice(k: Shape, sub: Shape, to: int, pl: Placement)
    requires NoDup(Ids(k)) && to in Ids(k) && sub.id !in Ids(k)
    ensures FindSeq(Splice(k, sub, to, pl), sub.id) == Some(sub)
    decreases k, 3
  {
    var s, k' := Splice(k, sub, to, pl), Graft(k, sub, to, pl);
    if k.id == to && pl == Before {
      assert FindSeq([sub], sub.id) == Some(sub) by { assert [sub][..0] == []; }
      FindSeqConcat([sub], [k'], sub.id);
      assert [sub] + [k'] == s;
    } else if k.id == to && pl == After {
      SplitRoot(k);
      GraftSeqMissing(k.kids, sub, to, pl);
      assert k' == k;
      FindSub(k', sub.id);
      assert FindSeq([k'], sub.id).None? by { assert [k'][..0] == []; }
      FindSeqConcat([k'], [sub], sub.id);
      assert [k'] + [sub] == s && [sub][..0] == [];
    } else {
      FindGrafted(k, sub, to, pl);
      assert [k'][..0] == [];
    }
  }

  // ---------------------------------------------------------------------
  // A move, record by record

  /** After `move(f, to, pl)` every record outside the moved subtree has
      the children it had, less `f`, plus `f` wherever the placement puts
      it. */
  lemma RelocateRelinks(t: Shape, f: int, to: int, pl: Placement, y: int)
    requires WellFormed(t) && f != t.id && Find(t, f).Some?
    requires to in Ids(t) && to !in Ids(Find(t, f).value) && to != t.id
    requires y in Ids(t) && y !in Ids(Find(t, f).value)
    ensures KidsOf(Relocate(t, f, to, pl), y) == Relinked(Without(KidsOf(t, y), f), y, to, f, pl)
  {
    var u := Find(t, f).value;
    PruneApart(t, f, y);
    forall w | w in Nodes(t) && w.id == f
      ensures y !in Ids(w)
    {
      NodeById(t, w, u);
    }
    var v := Find(t, y).value;
    FindPrune(t, f, y);
    FindGraft(Prune(t, f), u, to, pl, y);
    assert Find(Relocate(t, f, to, pl), y) == Some(Graft(Prune(v, f), u, to, pl));
    KidIdsPrune(v.kids, f);
    GraftKids(Prune(v, f), u, to, pl);
  }

  /** The children of a node grafted onto, as a list of ids. */
  lemma GraftKids(w: Shape, sub: Shape, to: int, pl: Placement)
    ensures KidIds(Graft(w, sub, to, pl).kids) == Relinked(KidIds(w.kids), w.id, to, sub.id, pl)
  {
    var ks := GraftSeq(w.kids, sub, to, pl);
    KidIdsGraft(w.kids, sub, to, pl);
    if pl == Prepend || pl == Append {
      BesideInside(KidIds(w.kids), to, sub.id, pl);
    }
    if w.id == to && pl == Prepend {
      assert KidIds([sub] + ks) == [sub.id] + KidIds(ks);
    } else if w.id == to && pl == Append {
      KidIdsSnoc(ks, sub);
    }
  }

  /** The moved subtree arrives whole, so the records inside it keep their
      children. */
  lemma RelocateWhole(t: Shape, f: int, to: int, pl: Placement)
    requires WellFormed(t) && f != t.id && Find(t, f).Some?
    requires to in Ids(t) && to !in Ids(Find(t, f).value) && to != t.id
    ensures Find(Relocate(t, f, to, pl), f) == Find(t, f)
  {
    PruneApart(t, f, to);
    FindGrafted(Prune(t, f), Find(t, f).value, to, pl);
  }

  /** Cutting out the subtree of `f` leaves a well-formed tree without `f`
      that keeps every other id. */
  lemma PruneApart(t: Shape, f: int, y: int)
    requires WellFormed(t) && f != t.id && Find(t, f).Some?
    requires y in Ids(t) && y !in Ids(Find(t, f).value)
    ensures WellFormed(Prune(t, f)) && f !in Ids(Prune(t, f)) && y in Ids(Prune(t, f))
  {
    var u := Find(t, f).value;
    var p := Prune(t, f);
    PruneCount(t, f, u);
    NoDupCounts(Ids(t));
    NoDupByCounts(Ids(t), Ids(p));
    assert multiset(Ids(t))[f] == multiset(Ids(p))[f] + multiset(Ids(u))[f];
    assert multiset(Ids(t))[y] == multiset(Ids(p))[y] + multiset(Ids(u))[y];
  }
}
