/**
 The triangle inequality of stored depths, which every statement keeps: no path through a stored middle node is
 shorter than the stored depth. It is why repair finds nothing to lower on a table the services have written.
 */
module ClosureTriangle {
  import opened Forest
  import opened Closure
  import opened ClosureLeaf
  import opened ClosureMove
  import opened ClosureRepair

  ghost predicate Triangle(r: Rows)
  {
    forall a: Id, m: Id, c: Id :: (a, m) in r && (m, c) in r && (a, c) in r ==> r[(a, c)] <= r[(a, m)] + r[(m, c)]
  }

  // ---------------------------------------------------------------- adding and removing nodes

  lemma InsertTriangleAt(r: Rows, f: Forest, p: Id, n: Id, a: Id, m: Id, c: Id)
    requires Represents(r, f) && Triangle(r) && p in f.level && n != 0 && n !in f.level
    requires var s := InsertLeaf(r, p, n); (a, m) in s && (m, c) in s && (a, c) in s
    ensures var s := InsertLeaf(r, p, n); s[(a, c)] <= s[(a, m)] + s[(m, c)]
  {
    Absent(r, f, n);
    assert IsAnc(f, p, p);
    assert DepthOk(f, p, p, r[(p, p)]);
    InsertRow(r, p, n, a, m);
    InsertRow(r, p, n, m, c);
    InsertRow(r, p, n, a, c);
    if c == n && m != n && a == p && m != p {
      AncBounds(f, p, m);
      AncBounds(f, m, p);
    }
  }

  lemma InsertTriangle(r: Rows, f: Forest, p: Id, n: Id)
    requires Represents(r, f) && Triangle(r) && p in f.level && n != 0 && n !in f.level
    ensures Triangle(InsertLeaf(r, p, n))
  {
    var s := InsertLeaf(r, p, n);
    forall a: Id, m: Id, c: Id | (a, m) in s && (m, c) in s && (a, c) in s
      ensures s[(a, c)] <= s[(a, m)] + s[(m, c)]
    {
      InsertTriangleAt(r, f, p, n, a, m, c);
    }
  }

  lemma SelfRowsTriangle(r: Rows, f: Forest, tenants: set<Id>)
    requires Represents(r, f) && Triangle(r)
    ensures Triangle(AddSelfRows(r, tenants))
  {
    var s := AddSelfRows(r, tenants);
    forall a: Id, m: Id, c: Id | (a, m) in s && (m, c) in s && (a, c) in s
      ensures s[(a, c)] <= s[(a, m)] + s[(m, c)]
    {
      if (a, m) in r && (m, c) in r {
        AncTransitive(f, a, m, c);
      }
      assert a != c || s[(a, c)] == 0 by {
        if a == c && (a, a) in r {
          assert DepthOk(f, a, a, r[(a, a)]);
        }
      }
    }
  }

  lemma SelfRowTriangle(r: Rows, f: Forest, n: Id)
    requires Represents(r, f) && Triangle(r)
    ensures Triangle(InsertIgnore(r, n, n, 0))
  {
    SelfRowsTriangle(r, f, {n});
    assert InsertIgnore(r, n, n, 0) == AddSelfRows(r, {n});
  }

  lemma CascadeTriangle(r: Rows, n: Id)
    requires Triangle(r)
    ensures Triangle(Cascade(r, n))
  {
  }

  // ---------------------------------------------------------------- moving a subtree

  /** The ways a stored depth can arise in a move. */
  lemma NewDepth(r: Rows, f: Forest, t: Id, p: Id, a: Id, y: Id)
    requires Represents(r, f) && Movable(f, t, p) && (a, y) in MoveRows(r, t, p)
    ensures var d := MoveRows(r, t, p)[(a, y)];
            if Crosses(f, t, a, y) then
              && (a, p) in r && (t, y) in r && d <= r[(a, p)] + r[(t, y)] + 1
              && (Survives(r, t, p, a, y) ==> d <= r[(a, y)])
              && (d == r[(a, p)] + r[(t, y)] + 1 || (Survives(r, t, p, a, y) && d == r[(a, y)]))
            else (a, y) in r && d == r[(a, y)]
  {
    MoveRow(r, f, t, p, a, y);
  }

  /** The middle node lies in the moved subtree, the ancestor does not. */
  lemma MiddleInside(r: Rows, f: Forest, t: Id, p: Id, a: Id, m: Id, c: Id)
    requires Represents(r, f) && Triangle(r) && Movable(f, t, p)
    requires var s := MoveRows(r, t, p); (a, m) in s && (m, c) in s && (a, c) in s
    requires IsAnc(f, t, m) && IsAnc(f, m, c) && !IsAnc(f, t, a)
    ensures var s := MoveRows(r, t, p); s[(a, c)] <= s[(a, m)] + s[(m, c)]
  {
    AncTransitive(f, t, m, c);
    NewDepth(r, f, t, p, a, m);
    NewDepth(r, f, t, p, m, c);
    NewDepth(r, f, t, p, a, c);
    if Survives(r, t, p, a, m) {
      AncTransitive(f, a, m, c);
      if c == t {
        AncBounds(f, t, m);
        AncBounds(f, m, t);
      }
    }
  }

  /** Only the descendant lies in the moved subtree. */
  lemma MiddleOutside(r: Rows, f: Forest, t: Id, p: Id, a: Id, m: Id, c: Id)
    requires Represents(r, f) && Triangle(r) && Movable(f, t, p)
    requires var s := MoveRows(r, t, p); (a, m) in s && (m, c) in s && (a, c) in s
    requires IsAnc(f, t, c) && !IsAnc(f, t, m) && !IsAnc(f, t, a) && a != m
    ensures var s := MoveRows(r, t, p); s[(a, c)] <= s[(a, m)] + s[(m, c)]
  {
    NewDepth(r, f, t, p, a, m);
    NewDepth(r, f, t, p, m, c);
    NewDepth(r, f, t, p, a, c);
    if Survives(r, t, p, m, c) {
      AncTransitive(f, a, m, c);
      if c == t && r[(a, c)] == 1 {
        assert DepthOk(f, a, t, r[(a, t)]);
        ParentIsLast(f, a, m, t);
      }
    }
  }

  /** Nothing lies strictly between a node and its parent. */
  lemma ParentIsLast(f: Forest, a: Id, m: Id, t: Id)
    requires Valid(f) && IsAnc(f, a, m) && IsAnc(f, m, t) && m != t && a != m
    ensures !(t in f.parent && f.parent[t] == a)
  {
    AncBounds(f, a, m);
    AncBounds(f, m, f.parent[t]);
  }

  lemma MoveTriangleAt(r: Rows, f: Forest, t: Id, p: Id, a: Id, m: Id, c: Id)
    requires Represents(r, f) && Triangle(r) && Movable(f, t, p)
    requires var s := MoveRows(r, t, p); (a, m) in s && (m, c) in s && (a, c) in s
    ensures var s := MoveRows(r, t, p); s[(a, c)] <= s[(a, m)] + s[(m, c)]
  {
    if a == m {
    } else if !IsAnc(f, t, c) {
      OutsideAll(r, f, t, p, a, m, c);
    } else if IsAnc(f, t, a) {
      InsideAll(r, f, t, p, a, m, c);
    } else if IsAnc(f, t, m) {
      NewDepth(r, f, t, p, m, c);
      MiddleInside(r, f, t, p, a, m, c);
    } else {
      MiddleOutside(r, f, t, p, a, m, c);
    }
  }

  lemma OutsideAll(r: Rows, f: Forest, t: Id, p: Id, a: Id, m: Id, c: Id)
    requires Represents(r, f) && Triangle(r) && Movable(f, t, p) && !IsAnc(f, t, c)
    requires var s := MoveRows(r, t, p); (a, m) in s && (m, c) in s && (a, c) in s
    ensures var s := MoveRows(r, t, p); s[(a, c)] <= s[(a, m)] + s[(m, c)]
  {
    NewDepth(r, f, t, p, m, c);
    NewDepth(r, f, t, p, a, c);
    if IsAnc(f, t, m) {
      AncTransitive(f, t, m, c);
    }
    NewDepth(r, f, t, p, a, m);
  }

  lemma InsideAll(r: Rows, f: Forest, t: Id, p: Id, a: Id, m: Id, c: Id)
    requires Represents(r, f) && Triangle(r) && Movable(f, t, p) && IsAnc(f, t, a)
    requires var s := MoveRows(r, t, p); (a, m) in s && (m, c) in s && (a, c) in s
    ensures var s := MoveRows(r, t, p); s[(a, c)] <= s[(a, m)] + s[(m, c)]
  {
    NewDepth(r, f, t, p, a, m);
    NewDepth(r, f, t, p, a, c);
    AncTransitive(f, t, a, m);
    NewDepth(r, f, t, p, m, c);
  }

  lemma MoveTriangle(r: Rows, f: Forest, t: Id, p: Id)
    requires Represents(r, f) && Triangle(r) && Movable(f, t, p)
    ensures Triangle(MoveRows(r, t, p))
  {
    var s := MoveRows(r, t, p);
    forall a: Id, m: Id, c: Id | (a, m) in s && (m, c) in s && (a, c) in s
      ensures s[(a, c)] <= s[(a, m)] + s[(m, c)]
    {
      MoveTriangleAt(r, f, t, p, a, m, c);
    }
  }

  // ---------------------------------------------------------------- repair

  /** No join offers less than what is stored. */
  lemma UpdateIdle(r: Rows)
    requires Triangle(r)
    ensures UpdateDepths(r) == r
  {
    forall k | k in r
      ensures !exists v :: v in Sums(r, k.0, k.1) && v < r[k]
    {
      assert k == (k.0, k.1);
      forall v | v in Sums(r, k.0, k.1)
        ensures r[k] <= v
      {
        var m: Id :| m in Via(r, k.0, k.1) && v == r[(k.0, m)] + r[(m, k.1)];
      }
    }
  }

  /** On the table of a forest that satisfies the inequality, repair adds self rows and does nothing else. */
  lemma RepairAddsSelfRows(r: Rows, f: Forest, tenants: set<Id>, s: Rows)
    requires Represents(r, f) && Triangle(r) && 0 !in tenants && Repairs(tenants, r, s)
    ensures s == AddSelfRows(r, tenants)
  {
    SelfRowsRepresent(r, f, tenants);
    OnlyUpdateLeft(r, tenants, s, WithTenants(f, tenants));
    SelfRowsTriangle(r, f, tenants);
    UpdateIdle(AddSelfRows(r, tenants));
  }
}
