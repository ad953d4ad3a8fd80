/**
 Moving a subtree (TenantClosureUpdateSubtree and its Safe wrapper): which rows change, what
 the new depths are, when depths stay exact, and that the safety nets never act on a table
 that stands for a forest.
 */
module ClosureMove {
  import opened Forest
  import opened Closure
  import opened ClosureLeaf

  /** A move that the circular-reference check admits, between nodes of the forest. */
  ghost predicate Movable(f: Forest, t: Id, p: Id)
    requires Valid(f)
  {
    t in f.level && (p == 0 || (p in f.level && !IsAnc(f, t, p)))
  }

  /** The row (a, y) enters the moved subtree from outside. */
  ghost predicate Crosses(f: Forest, t: Id, a: Id, y: Id)
    requires Valid(f)
  {
    IsAnc(f, t, y) && !IsAnc(f, t, a)
  }

  /** The old row (a, y) is there after both DELETEs. */
  ghost predicate Survives(r: Rows, t: Id, p: Id, a: Id, y: Id)
  {
    (a, y) in r && (a, p) in r && !(y == t && r[(a, y)] == 1 && a != p)
  }

  /** The depth a move stores for a new ancestor: the smaller of a surviving depth and the joined path. */
  ghost function MovedDepth(r: Rows, t: Id, p: Id, a: Id, y: Id): nat
    requires (a, p) in r && (t, y) in r
  {
    var joined := r[(a, p)] + r[(t, y)] + 1;
    if Survives(r, t, p, a, y) && r[(a, y)] < joined then r[(a, y)] else joined
  }

  ghost function AfterBothDeletes(r: Rows, t: Id, p: Id): Rows
  {
    DeleteOldParent(DeleteOldAncestors(r, t, p), t, p)
  }

  /** What is left after the two DELETEs. */
  lemma AfterDeletes(r: Rows, f: Forest, t: Id, p: Id, a: Id, y: Id)
    requires Represents(r, f) && Movable(f, t, p)
    ensures var r2 := AfterBothDeletes(r, t, p);
            && ((a, y) in r2 <==> if Crosses(f, t, a, y) then Survives(r, t, p, a, y) else (a, y) in r)
            && ((a, y) in r2 ==> r2[(a, y)] == r[(a, y)])
  {
    var r1 := DeleteOldAncestors(r, t, p);
    assert p != 0 ==> (p, p) in r by { assert p != 0 ==> IsAnc(f, p, p); }
    if (a, y) in r {
      AncBounds(f, a, y);
    }
    assert (a, y) in r1 <==> (a, y) in r && !(Crosses(f, t, a, y) && (a, p) !in r);
    if (a, y) in r && y == t && r[(a, y)] == 1 {
      assert IsAnc(f, t, t);
      if IsAnc(f, t, a) {
        AncBounds(f, t, a);
        AncBounds(f, a, t);
      }
    }
  }

  /** The subtree below `t` and the path above `p` are untouched by the DELETEs. */
  lemma DeletesKeepPaths(r: Rows, f: Forest, t: Id, p: Id, x: Id)
    requires Represents(r, f) && Movable(f, t, p)
    ensures var r2 := AfterBothDeletes(r, t, p);
            && ((t, x) in r2 <==> (t, x) in r) && ((t, x) in r ==> r2[(t, x)] == r[(t, x)])
            && ((x, p) in r2 <==> (x, p) in r) && ((x, p) in r ==> r2[(x, p)] == r[(x, p)])
  {
    AfterDeletes(r, f, t, p, t, x);
    AfterDeletes(r, f, t, p, x, p);
    assert IsAnc(f, t, t);
  }

  /** Row by row, what MoveCore leaves in the table. */
  lemma CoreRow(r: Rows, f: Forest, t: Id, p: Id, a: Id, y: Id)
    requires Represents(r, f) && Movable(f, t, p)
    ensures var r3 := MoveCore(r, t, p);
            if Crosses(f, t, a, y) then
              && ((a, y) in r3 <==> p != 0 && (a, p) in r)
              && ((a, y) in r3 ==> r3[(a, y)] == MovedDepth(r, t, p, a, y))
            else
              && ((a, y) in r3 <==> (a, y) in r)
              && ((a, y) in r3 ==> r3[(a, y)] == r[(a, y)])
  {
    AfterDeletes(r, f, t, p, a, y);
    DeletesKeepPaths(r, f, t, p, a);
    DeletesKeepPaths(r, f, t, p, y);
    assert p == 0 ==> (a, p) !in r by { assert p == 0 ==> !IsAnc(f, a, p); }
    if p != 0 && (a, p) in r && (t, y) in r && !Crosses(f, t, a, y) {
      AncTransitive(f, t, a, p);
      assert false;
    }
  }

  /** The parent row comes out of the main INSERT, so the manual fallback never fires. */
  lemma FallbackNeverFires(r: Rows, f: Forest, t: Id, p: Id)
    requires Represents(r, f) && Movable(f, t, p)
    ensures p != 0 ==> DirectRelation(MoveCore(r, t, p), p, t)
    ensures MoveRows(r, t, p) == MoveCore(r, t, p)
  {
    if p != 0 {
      CoreRow(r, f, t, p, p, t);
      ParentRowDepth(r, f, t, p);
    }
  }

  lemma ParentRowDepth(r: Rows, f: Forest, t: Id, p: Id)
    requires Represents(r, f) && Movable(f, t, p) && p != 0
    ensures Crosses(f, t, p, t) && (p, p) in r && (t, t) in r && MovedDepth(r, t, p, p, t) == 1
  {
    assert IsAnc(f, t, t) && IsAnc(f, p, p);
    assert DepthOk(f, p, p, r[(p, p)]) && DepthOk(f, t, t, r[(t, t)]);
    assert (p, t) in r ==> DepthOk(f, p, t, r[(p, t)]);
  }

  /**
   A move replaces exactly the rows that cross into the subtree: the old outside ancestors go,
   the new parent and its ancestors come, at the smaller of a surviving depth and the joined path.
   Every other row and depth is as before.
   */
  lemma MoveRow(r: Rows, f: Forest, t: Id, p: Id, a: Id, y: Id)
    requires Represents(r, f) && Movable(f, t, p)
    ensures var m := MoveRows(r, t, p);
            if Crosses(f, t, a, y) then
              && ((a, y) in m <==> p != 0 && (a, p) in r)
              && ((a, y) in m ==> m[(a, y)] == MovedDepth(r, t, p, a, y))
            else
              && ((a, y) in m <==> (a, y) in r)
              && ((a, y) in m ==> m[(a, y)] == r[(a, y)])
  {
    FallbackNeverFires(r, f, t, p);
    CoreRow(r, f, t, p, a, y);
  }

  /** Tree distances after a move. */
  lemma MovedDist(f: Forest, t: Id, p: Id, a: Id, y: Id)
    requires Valid(f) && Movable(f, t, p) && Valid(Reparent(f, t, p)) && IsAnc(Reparent(f, t, p), a, y)
    ensures var g := Reparent(f, t, p);
            if Crosses(f, t, a, y) then
              p != 0 && IsAnc(f, a, p) && Dist(g, a, y) == Dist(f, a, p) + Dist(f, t, y) + 1
            else
              IsAnc(f, a, y) && Dist(g, a, y) == Dist(f, a, y)
  {
    var g := Reparent(f, t, p);
    ReparentAnc(f, t, p, a, y);
    AncBounds(g, a, y);
    ReparentLevel(f, t, p, y);
    ReparentLevel(f, t, p, a);
    if Crosses(f, t, a, y) {
      AncBounds(f, a, p);
    } else if IsAnc(f, t, y) {
      if !IsAnc(f, a, y) {
        AncTransitive(f, t, a, p);
        assert false;
      }
      AncBounds(f, t, a);
    } else if IsAnc(f, t, a) {
      AncTransitive(f, t, a, y);
      assert false;
    }
  }

  /** A stored depth after a move is again a permitted one. */
  lemma MovedDepthOk(r: Rows, f: Forest, t: Id, p: Id, a: Id, y: Id)
    requires Represents(r, f) && Movable(f, t, p)
    requires Valid(Reparent(f, t, p)) && IsAnc(Reparent(f, t, p), a, y) && (a, y) in MoveRows(r, t, p)
    ensures DepthOk(Reparent(f, t, p), a, y, MoveRows(r, t, p)[(a, y)])
  {
    MoveRow(r, f, t, p, a, y);
    MovedDist(f, t, p, a, y);
    var g := Reparent(f, t, p);
    if Crosses(f, t, a, y) {
      assert a != y;
      assert (a, p) in r && (t, y) in r;
      assert y != t && y in f.parent ==> IsAnc(f, t, f.parent[y]);
    }
  }

  /** Moves keep the table standing for a forest: the one with `t` hung below `p`. */
  lemma MoveRepresents(r: Rows, f: Forest, t: Id, p: Id)
    requires Represents(r, f) && Movable(f, t, p)
    ensures Represents(MoveRows(r, t, p), Reparent(f, t, p))
  {
    var m, g := MoveRows(r, t, p), Reparent(f, t, p);
    ReparentValid(f, t, p);
    forall a: Id, y: Id
      ensures (a, y) in m <==> IsAnc(g, a, y)
    {
      MoveRow(r, f, t, p, a, y);
      ReparentAnc(f, t, p, a, y);
      if p != 0 && IsAnc(f, t, a) && IsAnc(f, a, p) {
        AncTransitive(f, t, a, p);
      }
      if IsAnc(f, t, a) && IsAnc(f, a, y) {
        AncTransitive(f, t, a, y);
      }
    }
    forall a: Id, y: Id | (a, y) in m
      ensures DepthOk(g, a, y, m[(a, y)])
    {
      MovedDepthOk(r, f, t, p, a, y);
    }
  }

  /** Moving away and back restores every pair and every parent row (deeper depths may have shrunk). */
  lemma MoveAndBack(r: Rows, f: Forest, t: Id, p: Id)
    requires Represents(r, f) && Movable(f, t, p)
    ensures var b := MoveRows(MoveRows(r, t, p), t, ParentOf(f, t));
            && Represents(b, f)
            && b.Keys == r.Keys
            && forall k :: k in r && (r[k] <= 1 || b[k] <= 1) ==> b[k] == r[k]
  {
    MoveRepresents(r, f, t, p);
    ReparentBack(f, t, p);
    var b := MoveRows(MoveRows(r, t, p), t, ParentOf(f, t));
    MoveRepresents(MoveRows(r, t, p), Reparent(f, t, p), t, ParentOf(f, t));
    SameForestSameRows(r, b, f);
  }

  /** Tables of one forest agree on pairs and on depths 0 and 1. */
  lemma SameForestSameRows(r: Rows, b: Rows, f: Forest)
    requires Represents(r, f) && Represents(b, f)
    ensures b.Keys == r.Keys
    ensures forall k :: k in r && (r[k] <= 1 || b[k] <= 1) ==> b[k] == r[k]
  {
    forall k: (Id, Id)
      ensures k in r <==> k in b
      ensures k in r && (r[k] <= 1 || b[k] <= 1) ==> b[k] == r[k]
    {
      assert k == (k.0, k.1);
      assert k in r ==> DepthOk(f, k.0, k.1, r[k]);
      assert k in b ==> DepthOk(f, k.0, k.1, b[k]);
    }
  }

  // ---------------------------------------------------------------- when depths stay exact

  /**
   Checkable before the call: every common ancestor of `t` and `p` gets closer to `t`, or is a
   parent whose only row into the (one-node) subtree is the deleted depth-1 row.
   */
  ghost predicate NothingGetsFurther(r: Rows, t: Id, p: Id)
  {
    forall a: Id :: a != t && (a, p) in r && (a, t) in r ==>
      r[(a, p)] < r[(a, t)] || (r[(a, t)] == 1 && Below(r, t) == {t})
  }

  lemma AncestorsAdd(f: Forest, a: Id, t: Id, y: Id)
    requires Valid(f) && IsAnc(f, a, t) && IsAnc(f, t, y)
    ensures IsAnc(f, a, y) && Dist(f, a, y) == Dist(f, a, t) + Dist(f, t, y)
  {
    AncTransitive(f, a, t, y);
    AncBounds(f, a, t);
    AncBounds(f, t, y);
  }

  /** A crossing row of an exact table came from above `t`. */
  lemma CrossingIsAbove(f: Forest, t: Id, a: Id, y: Id)
    requires Valid(f) && Crosses(f, t, a, y) && IsAnc(f, a, y)
    ensures a != t && IsAnc(f, a, t)
  {
    AncBounds(f, a, y);
    AncBounds(f, t, y);
    assert IsAnc(f, t, t);
    if f.level[a] <= f.level[t] {
      AncChain(f, a, t, y);
    } else {
      AncChain(f, t, a, y);
    }
  }

  lemma SurvivorGetsCloser(r: Rows, f: Forest, t: Id, p: Id, a: Id, y: Id)
    requires Exact(r, f) && NothingGetsFurther(r, t, p) && a != t
    requires Survives(r, t, p, a, y) && (a, t) in r && (t, y) in r
    ensures r[(a, p)] < r[(a, t)]
  {
    assert y in Below(r, t);
    if a == p {
      assert r[(a, t)] == Dist(f, a, t);
      AncBounds(f, a, t);
    }
  }

  /** With nothing getting further, a crossing row stores the joined path. */
  lemma CrossingStoresJoined(r: Rows, f: Forest, t: Id, p: Id, a: Id, y: Id)
    requires Exact(r, f) && Valid(f) && NothingGetsFurther(r, t, p)
    requires Crosses(f, t, a, y) && (a, p) in r && (t, y) in r
    ensures MovedDepth(r, t, p, a, y) == r[(a, p)] + r[(t, y)] + 1
  {
    if Survives(r, t, p, a, y) {
      CrossingIsAbove(f, t, a, y);
      AncestorsAdd(f, a, t, y);
      SurvivorGetsCloser(r, f, t, p, a, y);
    }
  }

  lemma StaysExactRow(r: Rows, f: Forest, t: Id, p: Id, a: Id, y: Id)
    requires Exact(r, f) && Represents(r, f) && Movable(f, t, p) && NothingGetsFurther(r, t, p)
    requires Valid(Reparent(f, t, p)) && IsAnc(Reparent(f, t, p), a, y) && (a, y) in MoveRows(r, t, p)
    ensures MoveRows(r, t, p)[(a, y)] == Dist(Reparent(f, t, p), a, y)
  {
    MoveRow(r, f, t, p, a, y);
    MovedDist(f, t, p, a, y);
    if Crosses(f, t, a, y) {
      CrossingStoresJoined(r, f, t, p, a, y);
    }
  }

  /** From exact depths, a move leaves exact depths if and only if no surviving ancestor gets further away. */
  lemma MoveStaysExactIff(r: Rows, f: Forest, t: Id, p: Id)
    requires Exact(r, f) && Movable(f, t, p)
    ensures Exact(MoveRows(r, t, p), Reparent(f, t, p)) <==> NothingGetsFurther(r, t, p)
  {
    ExactRepresents(r, f);
    MoveRepresents(r, f, t, p);
    var m, g := MoveRows(r, t, p), Reparent(f, t, p);
    if NothingGetsFurther(r, t, p) {
      forall a: Id, y: Id | (a, y) in m
        ensures m[(a, y)] == Dist(g, a, y)
      {
        StaysExactRow(r, f, t, p, a, y);
      }
    } else {
      var a: Id :| a != t && (a, p) in r && (a, t) in r &&
                   !(r[(a, p)] < r[(a, t)] || (r[(a, t)] == 1 && Below(r, t) == {t}));
      var y := GetsFurther(r, f, t, p, a);
      assert m[(a, y)] != Dist(g, a, y);
    }
  }

  /** The row that keeps its stale, smaller depth. */
  lemma GetsFurther(r: Rows, f: Forest, t: Id, p: Id, a: Id) returns (y: Id)
    requires Exact(r, f) && Represents(r, f) && Movable(f, t, p)
    requires a != t && (a, p) in r && (a, t) in r && Valid(Reparent(f, t, p))
    requires r[(a, p)] >= r[(a, t)] && (r[(a, t)] != 1 || Below(r, t) != {t})
    ensures IsAnc(Reparent(f, t, p), a, y) && (a, y) in MoveRows(r, t, p)
    ensures MoveRows(r, t, p)[(a, y)] < Dist(Reparent(f, t, p), a, y)
  {
    assert IsAnc(f, t, t);
    if IsAnc(f, t, a) {
      AncBounds(f, t, a);
      AncBounds(f, a, t);
      assert false;
    }
    if r[(a, t)] != 1 {
      y := t;
    } else {
      assert t in Below(r, t);
      y :| y in Below(r, t) && y != t;
    }
    AncestorsAdd(f, a, t, y);
    assert Crosses(f, t, a, y);
    assert p != 0;
    MoveRow(r, f, t, p, a, y);
    ReparentAnc(f, t, p, a, y);
    MovedDist(f, t, p, a, y);
    assert Survives(r, t, p, a, y);
  }

  // ---------------------------------------------------------------- the safe wrapper

  /** On a table that stands for a forest, the consistency step after a move changes nothing. */
  lemma EnsureIsIdentity(r: Rows, f: Forest, t: Id, p: Id)
    requires Represents(r, f) && (p == 0 || ParentOf(f, t) == p)
    ensures EnsureRows(r, t, p) == r
  {
    if p != 0 && t != 0 {
      DepthOneIsParent(r, f);
      assert DirectRelation(r, p, t);
      forall a: Id | (a, p) in r
        ensures (a, t) in r
      {
        AncTransitive(f, a, p, t);
      }
    }
  }

  /** TenantClosureUpdateSubtreeV2Safe leaves exactly the rows of the plain move. */
  lemma SafeMoveIsPlainMove(r: Rows, f: Forest, t: Id, p: Id)
    requires Represents(r, f) && Movable(f, t, p)
    ensures EnsureRows(MoveRows(r, t, p), t, p) == MoveRows(r, t, p)
    ensures p != 0 ==> DirectRelation(MoveRows(r, t, p), p, t)
  {
    MoveRepresents(r, f, t, p);
    EnsureIsIdentity(MoveRows(r, t, p), Reparent(f, t, p), t, p);
    FallbackNeverFires(r, f, t, p);
  }

  // ---------------------------------------------------------------- limits

  /** Below `a`: a child `t` with its own child `y`, and a second child `p`. */
  ghost function Siblings(f: Forest, a: Id, t: Id, y: Id, p: Id): Forest
    requires a in f.level
  {
    AddLeaf(AddLeaf(AddLeaf(f, a, t), t, y), a, p)
  }

  lemma SiblingsFacts(f: Forest, a: Id, t: Id, y: Id, p: Id)
    requires Valid(f) && a in f.level && 0 !in {t, y, p} && {t, y, p} !! f.level.Keys && t != y && t != p && y != p
    ensures var g := Siblings(f, a, t, y, p);
            && Valid(g) && Movable(g, t, p)
            && IsAnc(g, a, p) && IsAnc(g, a, t) && IsAnc(g, t, y) && Dist(g, a, p) == Dist(g, a, t)
  {
    var f1 := AddLeaf(f, a, t);
    var f2 := AddLeaf(f1, t, y);
    assert IsAnc(f, a, a);
    AddLeafAnc(f, a, t, a, t);
    AddLeafAnc(f, a, t, a, a);
    AddLeafAnc(f, a, t, t, a);
    AddLeafAnc(f1, t, y, t, y);
    AddLeafAnc(f1, t, y, a, t);
    AddLeafAnc(f1, t, y, a, a);
    AddLeafAnc(f1, t, y, t, a);
    AddLeafAnc(f2, a, p, t, y);
    AddLeafAnc(f2, a, p, a, t);
    AddLeafAnc(f2, a, p, a, p);
    AddLeafAnc(f2, a, p, t, p);
    if IsAnc(f, t, a) {
      AncBounds(f, t, a);
    }
  }

  /** From any exact table, three creations and one move leave a depth that is too small. */
  lemma StaleDepthWitness(r: Rows, f: Forest, a: Id, t: Id, y: Id, p: Id)
    requires Exact(r, f)
    requires a in f.level && 0 !in {t, y, p} && {t, y, p} !! f.level.Keys && t != y && t != p && y != p
    ensures var g := Siblings(f, a, t, y, p);
            var r3 := InsertLeaf(InsertLeaf(InsertLeaf(r, a, t), t, y), a, p);
            && Exact(r3, g) && Movable(g, t, p)
            && Represents(MoveRows(r3, t, p), Reparent(g, t, p))
            && !Exact(MoveRows(r3, t, p), Reparent(g, t, p))
  {
    var f1 := AddLeaf(f, a, t);
    var f2 := AddLeaf(f1, t, y);
    var r1 := InsertLeaf(r, a, t);
    var r2 := InsertLeaf(r1, t, y);
    ExactRepresents(r, f);
    InsertRepresents(r, f, a, t);
    InsertRepresents(r1, f1, t, y);
    InsertRepresents(r2, f2, a, p);
    StaleSiblings(InsertLeaf(r2, a, p), f, a, t, y, p);
  }

  lemma StaleSiblings(r: Rows, f: Forest, a: Id, t: Id, y: Id, p: Id)
    requires Valid(f) && a in f.level && 0 !in {t, y, p} && {t, y, p} !! f.level.Keys && t != y && t != p && y != p
    requires Exact(r, Siblings(f, a, t, y, p))
    ensures var g := Siblings(f, a, t, y, p);
            && Movable(g, t, p)
            && Represents(MoveRows(r, t, p), Reparent(g, t, p))
            && !Exact(MoveRows(r, t, p), Reparent(g, t, p))
  {
    var g := Siblings(f, a, t, y, p);
    SiblingsFacts(f, a, t, y, p);
    ExactRepresents(r, g);
    MoveRepresents(r, g, t, p);
    StaleWhenSiblings(r, g, a, t, y, p);
  }

  /** Hanging a node with a child below a node of its own level always leaves a stale depth. */
  lemma StaleWhenSiblings(r: Rows, f: Forest, a: Id, t: Id, y: Id, p: Id)
    requires Exact(r, f) && Movable(f, t, p) && a != t && y != t
    requires IsAnc(f, a, p) && IsAnc(f, a, t) && IsAnc(f, t, y) && Dist(f, a, p) == Dist(f, a, t)
    ensures !Exact(MoveRows(r, t, p), Reparent(f, t, p))
  {
    assert (a, p) in r && (a, t) in r && y in Below(r, t);
    assert !NothingGetsFurther(r, t, p);
    MoveStaysExactIff(r, f, t, p);
  }

  ghost function SafeRows(r: Rows, t: Id, p: Id): Rows
  {
    EnsureRows(MoveRows(r, t, p), t, p)
  }

  /** The manual parent row is what an off-forest move adds; self rows are never added. */
  lemma OffForestRows(r: Rows, t: Id, p: Id)
    requires t != 0 && p != 0 && (t, p) !in r
    ensures (p, t) in SafeRows(r, t, p) && (t == p ==> SafeRows(r, t, p)[(p, t)] == 1)
    ensures t != p && (p, p) !in r ==> (p, p) !in SafeRows(r, t, p)
    ensures t != p && (t, t) !in r ==> (t, t) !in SafeRows(r, t, p)
  {
  }

  /** With nothing below `t` and nothing above 0, detaching an off-forest tenant is a no-op. */
  lemma DetachOffForest(r: Rows, f: Forest, t: Id)
    requires Represents(r, f) && t !in f.level
    ensures SafeRows(r, t, 0) == r
  {
    assert forall x: Id :: (t, x) !in r && (x, t) !in r by {
      forall x: Id
        ensures (t, x) !in r && (x, t) !in r
      {
        if IsAnc(f, t, x) {
          AncBounds(f, t, x);
        }
      }
    }
    assert DeleteOldAncestors(r, t, 0) == r;
    assert DeleteOldParent(r, t, 0) == r by {
      assert forall k :: k in r ==> (k.0, k.1) in r;
    }
  }

  /** `s` is `r` with a row to `t` from `p` and from every stored ancestor of `p`, one deeper each, and nothing else. */
  ghost predicate HungBelow(r: Rows, t: Id, p: Id, s: Rows)
  {
    forall a: Id, d: Id ::
      && ((a, d) in s <==> (a, d) in r || (d == t && (a == p || (a, p) in r)))
      && ((a, d) in r ==> s[(a, d)] == r[(a, d)])
      && ((a, d) in s && (a, d) !in r ==> s[(a, d)] == if a == p then 1 else r[(a, p)] + 1)
  }

  lemma DeletesIdle(r: Rows, t: Id, p: Id)
    requires forall k :: k in r ==> k.0 != t && k.1 != t
    ensures DeleteOldAncestors(r, t, p) == r && DeleteOldParent(r, t, p) == r
  {
    assert Below(r, t) == {};
  }

  lemma UpsertIdle(r: Rows, t: Id, p: Id)
    requires Below(r, t) == {} || Above(r, p) == {}
    ensures UpsertSubtree(r, t, p) == r
  {
    assert Cross(Above(r, p), Below(r, t)) == {};
  }

  lemma RowlessKeys(r: Rows, f: Forest, t: Id)
    requires Represents(r, f) && t !in f.level
    ensures forall k :: k in r ==> k.0 != t && k.1 != t
    ensures Below(r, t) == {} && Above(r, t) == {}
  {
    Absent(r, f, t);
    forall k | k in r
      ensures k.0 != t && k.1 != t
    {
      assert k == (k.0, k.1);
    }
  }

  lemma MoveRowless(r: Rows, f: Forest, t: Id, p: Id)
    requires Represents(r, f) && t != 0 && p != 0 && t != p && t !in f.level
    ensures MoveRows(r, t, p) == r[(p, t) := 1]
  {
    RowlessKeys(r, f, t);
    DeletesIdle(r, t, p);
    UpsertIdle(r, t, p);
    assert (p, t) !in r;
  }

  /**
   A tenant without closure rows, as TenantAdd leaves it, gets its rows from the new parent and the ancestors stored
   for that parent, but no self row; every other row stays.
   */
  lemma SafeMoveRowless(r: Rows, f: Forest, t: Id, p: Id)
    requires Represents(r, f) && t != 0 && p != 0 && t != p && t !in f.level
    ensures HungBelow(r, t, p, SafeRows(r, t, p))
  {
    MoveRowless(r, f, t, p);
    Absent(r, f, t);
    forall a: Id, d: Id
      ensures (a, d) in SafeRows(r, t, p) <==> (a, d) in r || (d == t && (a == p || (a, p) in r))
      ensures (a, d) in r ==> SafeRows(r, t, p)[(a, d)] == r[(a, d)]
      ensures (a, d) in SafeRows(r, t, p) && (a, d) !in r ==>
                SafeRows(r, t, p)[(a, d)] == if a == p then 1 else r[(a, p)] + 1
    {
      EnsureRow(MoveRows(r, t, p), t, p, a, d);
    }
  }

  /** Deletions for a new parent that has no rows are those of a detachment. */
  lemma DeletesLikeDetach(r: Rows, t: Id, p: Id)
    requires forall k :: k in r ==> k.0 != p && k.1 != p && k.0 != 0 && k.1 != 0
    ensures AfterBothDeletes(r, t, p) == AfterBothDeletes(r, t, 0)
  {
    assert Above(r, p) == {} && Above(r, 0) == {};
    assert DeleteOldAncestors(r, t, p) == DeleteOldAncestors(r, t, 0);
    DeleteParentLike(DeleteOldAncestors(r, t, 0), t, p);
  }

  lemma DeleteParentLike(r: Rows, t: Id, p: Id)
    requires forall k :: k in r ==> k.0 != p && k.0 != 0
    ensures DeleteOldParent(r, t, p) == DeleteOldParent(r, t, 0)
  {
  }

  lemma DeletesShrink(r: Rows, t: Id, p: Id)
    ensures AfterBothDeletes(r, t, p).Keys <= r.Keys
  {
  }

  lemma AncestorsIdle(r: Rows, t: Id, p: Id)
    requires Above(r, p) == {}
    ensures InsertAncestors(r, p, t) == r
  {
    assert Cross(Above(r, p), {t}) == {};
  }

  /** The insertions of a Safe move below a tenant that has no rows. */
  lemma FinishBelowRowless(r: Rows, t: Id, p: Id)
    requires t != 0 && p != 0 && t != p && forall k :: k in r ==> k.0 != p && k.1 != p
    ensures var r3 := UpsertSubtree(r, t, p);
            !DirectRelation(r3, p, t) && EnsureRows(InsertDirect(r3, p, t), t, p) == r[(p, t) := 1]
  {
    assert Above(r, p) == {};
    UpsertIdle(r, t, p);
    assert (p, t) !in r;
    AncestorsIdle(r[(p, t) := 1], t, p);
  }

  /** A subtree moved below a tenant without closure rows is detached and gets the row of its new parent alone. */
  lemma SafeMoveBelowRowless(r: Rows, f: Forest, t: Id, p: Id)
    requires Represents(r, f) && t in f.level && p != 0 && p !in f.level
    ensures SafeRows(r, t, p) == MoveRows(r, t, 0)[(p, t) := 1]
  {
    RowlessKeys(r, f, p);
    RowlessKeys(r, f, 0);
    DeletesLikeDetach(r, t, p);
    DeletesShrink(r, t, p);
    FinishBelowRowless(AfterBothDeletes(r, t, p), t, p);
  }

  lemma RowsNeedSelfRows(m: Rows, g: Forest, a: Id, d: Id)
    requires Represents(m, g) && (a, d) in m
    ensures (a, a) in m && (d, d) in m && (a == d ==> m[(a, d)] == 0)
  {
    AncBounds(g, a, d);
    assert IsAnc(g, a, a) && IsAnc(g, d, d);
    assert DepthOk(g, a, d, m[(a, d)]);
  }

  /**
   An admitted move keeps the table standing for some forest if and only if it detaches or both
   tenants have their self row: a tenant without closure rows must be repaired before it is moved
   or moved under.
   */
  lemma MoveKeepsForestIff(r: Rows, f: Forest, t: Id, p: Id)
    requires Represents(r, f) && MoveCheck(r, t, p) == Ok
    ensures (exists g: Forest :: Represents(SafeRows(r, t, p), g)) <==>
            p == 0 || ((t, t) in r && (p, p) in r)
  {
    assert (t, t) in r <==> t in f.level;
    assert (p, p) in r <==> p in f.level;
    if p == 0 || ((t, t) in r && (p, p) in r) {
      if t in f.level {
        assert Movable(f, t, p);
        SafeMoveIsPlainMove(r, f, t, p);
        MoveRepresents(r, f, t, p);
        assert Represents(SafeRows(r, t, p), Reparent(f, t, p));
      } else {
        DetachOffForest(r, f, t);
      }
    } else {
      OffForestRows(r, t, p);
      forall g: Forest | Represents(SafeRows(r, t, p), g)
        ensures false
      {
        RowsNeedSelfRows(SafeRows(r, t, p), g, p, t);
      }
    }
  }
}
