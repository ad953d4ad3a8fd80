/**
 The tenant forest: the tree structure that the `tenant_closure` table indexes.
 Parent edges are the primary data. `level` is the distance of a node from the root
 of its tree; that it exists is what makes the edges acyclic.
 */
module Forest {
  type Id = nat

  datatype Forest = Forest(parent: map<Id, Id>, level: map<Id, nat>)

  ghost predicate Valid(f: Forest)
  {
    && 0 !in f.level
    && f.parent.Keys <= f.level.Keys
    && (forall x :: x in f.level && x !in f.parent ==> f.level[x] == 0)
    && (forall x :: x in f.parent ==> f.parent[x] in f.level && f.level[x] == f.level[f.parent[x]] + 1)
  }

  /** `a` is an ancestor of `d`, or `d` itself, in the forest. */
  ghost predicate IsAnc(f: Forest, a: Id, d: Id)
    requires Valid(f)
    decreases if d in f.level then f.level[d] else 0
  {
    d in f.level && (a == d || (d in f.parent && IsAnc(f, a, f.parent[d])))
  }

  /** The tree distance from an ancestor down to its descendant. */
  ghost function Dist(f: Forest, a: Id, d: Id): nat
    requires Valid(f) && IsAnc(f, a, d)
  {
    AncBounds(f, a, d);
    f.level[d] - f.level[a]
  }

  /** Following `k` parent edges up from `d` arrives at `a`: needs no levels. */
  ghost predicate Climbs(parent: map<Id, Id>, a: Id, d: Id, k: nat)
    decreases k
  {
    if k == 0 then a == d else d in parent && Climbs(parent, a, parent[d], k - 1)
  }

  /** `a` is above `d`, or `d` itself, along the parent edges. */
  ghost predicate Connected(parent: map<Id, Id>, a: Id, d: Id)
  {
    exists k: nat :: Climbs(parent, a, d, k)
  }

  lemma {:induction false} AncBounds(f: Forest, a: Id, d: Id)
    requires Valid(f) && IsAnc(f, a, d)
    ensures a in f.level && f.level[a] <= f.level[d]
    ensures f.level[a] == f.level[d] ==> a == d
    decreases f.level[d]
  {
    if a == d {
    } else {
      AncBounds(f, a, f.parent[d]);
    }
  }

  lemma {:induction false} AncTransitive(f: Forest, a: Id, b: Id, d: Id)
    requires Valid(f) && IsAnc(f, a, b) && IsAnc(f, b, d)
    ensures IsAnc(f, a, d)
    decreases f.level[d]
  {
    if b == d {
    } else {
      AncTransitive(f, a, b, f.parent[d]);
    }
  }

  /** The ancestors of one node form a chain ordered by level. */
  lemma {:induction false} AncChain(f: Forest, a: Id, b: Id, d: Id)
    requires Valid(f) && IsAnc(f, a, d) && IsAnc(f, b, d)
    requires f.level[AncNode(f, a, d)] <= f.level[AncNode(f, b, d)]
    ensures IsAnc(f, a, b)
    decreases f.level[d]
  {
    if b == d {
    } else {
      if a == d {
        AncBounds(f, b, d);
        assert false;
      } else {
        AncChain(f, a, b, f.parent[d]);
      }
    }
  }

  /** An ancestor, known to be a node. */
  ghost function AncNode(f: Forest, a: Id, d: Id): (r: Id)
    requires Valid(f) && IsAnc(f, a, d)
    ensures r == a && r in f.level
  {
    AncBounds(f, a, d);
    a
  }

  /** Every distance below a descendant is met by some node on the path to an ancestor. */
  lemma {:induction false} AncMiddle(f: Forest, a: Id, d: Id, k: nat) returns (m: Id)
    requires Valid(f) && IsAnc(f, a, d) && k <= Dist(f, a, d)
    ensures IsAnc(f, a, m) && IsAnc(f, m, d) && Dist(f, m, d) == k
    decreases k
  {
    if k == 0 {
      m := d;
    } else {
      m := AncMiddle(f, a, f.parent[d], k - 1);
      AncBounds(f, m, f.parent[d]);
      assert IsAnc(f, m, d);
    }
  }

  /** Ancestry is exactly "some number of parent edges", and that number is the distance. */
  lemma {:induction false} AncClimbs(f: Forest, a: Id, d: Id)
    requires Valid(f) && IsAnc(f, a, d)
    ensures Climbs(f.parent, a, d, Dist(f, a, d))
    decreases f.level[d]
  {
    if a == d {
    } else {
      AncClimbs(f, a, f.parent[d]);
      AncBounds(f, a, f.parent[d]);
      AncBounds(f, a, d);
    }
  }

  lemma {:induction false} ClimbsAnc(f: Forest, a: Id, d: Id, k: nat)
    requires Valid(f) && d in f.level && Climbs(f.parent, a, d, k)
    ensures IsAnc(f, a, d) && Dist(f, a, d) == k
    decreases k
  {
    if k == 0 {
    } else {
      ClimbsAnc(f, a, f.parent[d], k - 1);
      AncBounds(f, a, d);
    }
  }

  lemma AncIsConnected(f: Forest, a: Id, d: Id)
    requires Valid(f) && d in f.level
    ensures IsAnc(f, a, d) <==> Connected(f.parent, a, d)
  {
    if IsAnc(f, a, d) {
      AncClimbs(f, a, d);
    } else {
      forall k: nat | Climbs(f.parent, a, d, k)
        ensures false
      {
        ClimbsAnc(f, a, d, k);
      }
    }
  }

  // ---------------------------------------------------------------- adding and removing nodes

  ghost function AddRoot(f: Forest, n: Id): Forest
  {
    f.(level := f.level[n := 0])
  }

  ghost function AddLeaf(f: Forest, p: Id, n: Id): Forest
    requires p in f.level
  {
    Forest(f.parent[n := p], f.level[n := f.level[p] + 1])
  }

  ghost function RemoveLeaf(f: Forest, n: Id): Forest
  {
    Forest(f.parent - {n}, f.level - {n})
  }

  lemma AddRootValid(f: Forest, n: Id)
    requires Valid(f) && n != 0 && n !in f.level
    ensures Valid(AddRoot(f, n))
  {
  }

  lemma {:induction false} AddRootAnc(f: Forest, n: Id, a: Id, d: Id)
    requires Valid(f) && n != 0 && n !in f.level
    ensures Valid(AddRoot(f, n))
    ensures IsAnc(AddRoot(f, n), a, d) <==> IsAnc(f, a, d) || a == d == n
    decreases if d in f.level then f.level[d] else 0
  {
    AddRootValid(f, n);
    if d !in f.parent {
    } else {
      AddRootAnc(f, n, a, f.parent[d]);
    }
  }

  lemma {:induction false} AddLeafAnc(f: Forest, p: Id, n: Id, a: Id, d: Id)
    requires Valid(f) && p in f.level && n != 0 && n !in f.level
    ensures Valid(AddLeaf(f, p, n))
    ensures IsAnc(AddLeaf(f, p, n), a, d) <==>
            IsAnc(f, a, d) || (d == n && (a == n || IsAnc(f, a, p)))
    decreases if d in f.level then f.level[d] else f.level[p] + 1
  {
    var g := AddLeaf(f, p, n);
    assert Valid(g);
    if d == n {
      AddLeafAnc(f, p, n, a, p);
    } else if d in f.parent {
      AddLeafAnc(f, p, n, a, f.parent[d]);
    }
  }

  lemma {:induction false} RemoveLeafAnc(f: Forest, n: Id, a: Id, d: Id)
    requires Valid(f) && (forall x :: x in f.parent ==> f.parent[x] != n)
    ensures Valid(RemoveLeaf(f, n))
    ensures IsAnc(RemoveLeaf(f, n), a, d) <==> IsAnc(f, a, d) && a != n && d != n
    decreases if d in f.level then f.level[d] else 0
  {
    var g := RemoveLeaf(f, n);
    assert Valid(g);
    if d !in f.parent {
    } else {
      RemoveLeafAnc(f, n, a, f.parent[d]);
    }
  }

  // ---------------------------------------------------------------- moving a subtree

  /** Hang the subtree of `t` below `p`; `p == 0` makes `t` a root. */
  ghost function Reparent(f: Forest, t: Id, p: Id): Forest
    requires Valid(f) && t in f.level && (p == 0 || p in f.level)
  {
    var base := if p == 0 then 0 else f.level[p] + 1;
    Forest(
      if p == 0 then f.parent - {t} else f.parent[t := p],
      map x | x in f.level :: if IsAnc(f, t, x) then SubLevel(f, t, x) + base else f.level[x])
  }

  ghost function SubLevel(f: Forest, t: Id, x: Id): nat
    requires Valid(f) && IsAnc(f, t, x)
  {
    Dist(f, t, x)
  }

  lemma ReparentValid(f: Forest, t: Id, p: Id)
    requires Valid(f) && t in f.level && (p == 0 || (p in f.level && !IsAnc(f, t, p)))
    ensures Valid(Reparent(f, t, p))
  {
    var g := Reparent(f, t, p);
    forall x | x in g.parent
      ensures g.parent[x] in g.level && g.level[x] == g.level[g.parent[x]] + 1
    {
      if x != t {
        var q := f.parent[x];
        if IsAnc(f, t, x) {
          AncBounds(f, t, x);
          AncBounds(f, t, q);
        } else {
          assert !IsAnc(f, t, q);
        }
      }
    }
    forall x | x in g.level && x !in g.parent
      ensures g.level[x] == 0
    {
      assert x == t || !IsAnc(f, t, x);
    }
  }

  /** Who is above whom after a move. */
  lemma {:induction false} ReparentAnc(f: Forest, t: Id, p: Id, a: Id, y: Id)
    requires Valid(f) && t in f.level && (p == 0 || (p in f.level && !IsAnc(f, t, p)))
    ensures Valid(Reparent(f, t, p))
    ensures IsAnc(Reparent(f, t, p), a, y) <==>
            if IsAnc(f, t, y) then (IsAnc(f, t, a) && IsAnc(f, a, y)) || (p != 0 && IsAnc(f, a, p))
            else IsAnc(f, a, y)
    decreases IsAnc(f, t, y), if y in f.level then f.level[y] else 0
  {
    ReparentValid(f, t, p);
    if y == t {
      if p != 0 {
        ReparentAnc(f, t, p, a, p);
      }
      if IsAnc(f, t, a) && IsAnc(f, a, t) {
        AncBounds(f, t, a);
        AncBounds(f, a, t);
      }
    } else if y in f.parent {
      var q := f.parent[y];
      assert IsAnc(f, t, y) <==> IsAnc(f, t, q);
      ReparentAnc(f, t, p, a, q);
    }
  }

  /** Levels inside the moved subtree shift; all others stay. */
  lemma ReparentLevel(f: Forest, t: Id, p: Id, x: Id)
    requires Valid(f) && t in f.level && (p == 0 || (p in f.level && !IsAnc(f, t, p))) && x in f.level
    ensures Valid(Reparent(f, t, p)) && (IsAnc(Reparent(f, t, p), t, x) <==> IsAnc(f, t, x))
    ensures var base := if p == 0 then 0 else f.level[p] + 1;
            Reparent(f, t, p).level[x] == if IsAnc(f, t, x) then Dist(f, t, x) + base else f.level[x]
  {
    ReparentAnc(f, t, p, t, x);
  }

  /** Where a node hangs; 0 for a root. */
  ghost function ParentOf(f: Forest, t: Id): Id
  {
    if t in f.parent then f.parent[t] else 0
  }

  lemma ParentIsNoDescendant(f: Forest, t: Id)
    requires Valid(f) && t in f.level
    ensures var q := ParentOf(f, t); q == 0 || (q in f.level && !IsAnc(f, t, q))
  {
    var q := ParentOf(f, t);
    if q != 0 && IsAnc(f, t, q) {
      AncBounds(f, t, q);
    }
  }

  /** Moving away and back to where the node hung before gives the forest back. */
  lemma ReparentBack(f: Forest, t: Id, p: Id)
    requires Valid(f) && t in f.level && (p == 0 || (p in f.level && !IsAnc(f, t, p)))
    ensures var q := ParentOf(f, t);
            var g := Reparent(f, t, p);
            && Valid(g) && (q == 0 || (q in g.level && !IsAnc(g, t, q)))
            && Reparent(g, t, q) == f
  {
    ReparentBackLevel(f, t, p, t);
    ReparentBackLevels(f, t, p);
    ReparentBackParents(f, t, p);
    SameForest(f, Reparent(Reparent(f, t, p), t, ParentOf(f, t)));
  }

  lemma ReparentBackParents(f: Forest, t: Id, p: Id)
    requires Valid(f) && t in f.level && (p == 0 || p in f.level)
    requires Valid(Reparent(f, t, p)) && (ParentOf(f, t) == 0 || ParentOf(f, t) in f.level)
    ensures Reparent(Reparent(f, t, p), t, ParentOf(f, t)).parent == f.parent
  {
  }

  lemma ReparentBackLevels(f: Forest, t: Id, p: Id)
    requires Valid(f) && t in f.level && (p == 0 || (p in f.level && !IsAnc(f, t, p)))
    requires Valid(Reparent(f, t, p)) && (ParentOf(f, t) == 0 || ParentOf(f, t) in f.level)
    ensures var h := Reparent(Reparent(f, t, p), t, ParentOf(f, t));
            h.level.Keys == f.level.Keys && forall x :: x in f.level ==> h.level[x] == f.level[x]
  {
    forall x | x in f.level
      ensures Reparent(Reparent(f, t, p), t, ParentOf(f, t)).level[x] == f.level[x]
    {
      ReparentBackLevel(f, t, p, x);
    }
  }

  lemma SameForest(f: Forest, h: Forest)
    requires h.parent == f.parent && h.level.Keys == f.level.Keys
    requires forall x :: x in f.level ==> h.level[x] == f.level[x]
    ensures h == f
  {
    assert h.level == f.level;
  }

  lemma ReparentBackLevel(f: Forest, t: Id, p: Id, x: Id)
    requires Valid(f) && t in f.level && (p == 0 || (p in f.level && !IsAnc(f, t, p))) && x in f.level
    ensures var q := ParentOf(f, t);
            var g := Reparent(f, t, p);
            && Valid(g) && (q == 0 || (q in g.level && !IsAnc(g, t, q)))
            && Reparent(g, t, q).level[x] == f.level[x]
  {
    var q := ParentOf(f, t);
    var g := Reparent(f, t, p);
    ParentIsNoDescendant(f, t);
    if q != 0 {
      ReparentLevel(f, t, p, q);
    }
    ReparentLevel(f, t, p, x);
    ReparentLevel(f, t, p, t);
    ReparentLevel(g, t, q, x);
  }
}
