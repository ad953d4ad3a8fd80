/**
 The `tenant_closure` table: one (ancestor, descendant) -> depth row per key. Each SQL
 statement is a function from rows to rows.
 */
module Closure {
  import opened Forest

  type Rows = map<(Id, Id), nat>

  // ---------------------------------------------------------------- statements

  /** `SELECT descendant_id ... WHERE ancestor_id = t` */
  function Below(r: Rows, t: Id): (s: set<Id>)
    ensures forall y: Id :: y in s <==> (t, y) in r
  {
    set k | k in r && k.0 == t :: k.1
  }

  /** `SELECT ancestor_id ... WHERE descendant_id = p` */
  function Above(r: Rows, p: Id): (s: set<Id>)
    ensures forall a: Id :: a in s <==> (a, p) in r
  {
    set k | k in r && k.1 == p :: k.0
  }

  function Cross(s: set<Id>, t: set<Id>): (c: set<(Id, Id)>)
    ensures forall a: Id, y: Id :: (a, y) in c <==> a in s && y in t
  {
    set a, y | a in s && y in t :: (a, y)
  }

  /** First DELETE of a move: rows into the subtree from ancestors the new parent does not share. */
  function DeleteOldAncestors(r: Rows, t: Id, p: Id): Rows
  {
    var sub, sup := Below(r, t), Above(r, p);
    map k | k in r && !(k.1 in sub && k.0 !in sub && k.0 != p && k.0 !in sup) :: r[k]
  }

  /** Second DELETE of a move: the old depth-1 row of `t` itself. */
  function DeleteOldParent(r: Rows, t: Id, p: Id): Rows
  {
    map k | k in r && !(k.1 == t && r[k] == 1 && k.0 != p) :: r[k]
  }

  /** The INSERT of a move: ancestors of `p` crossed with the subtree of `t`, keeping smaller depths. */
  function UpsertSubtree(r: Rows, t: Id, p: Id): Rows
  {
    var sup, sub := Above(r, p), Below(r, t);
    var incoming := Cross(sup, sub);
    map k | k in r.Keys + incoming ::
      if k.0 in sup && k.1 in sub then
        var d := r[(k.0, p)] + r[(t, k.1)] + 1;
        if k in r && r[k] <= d then r[k] else d
      else
        r[k]
  }

  predicate DirectRelation(r: Rows, p: Id, t: Id)
  {
    (p, t) in r && r[(p, t)] == 1
  }

  /** `INSERT (p, t, 1) ON CONFLICT DO UPDATE SET depth = 1 WHERE depth > 1` */
  function InsertDirect(r: Rows, p: Id, t: Id): Rows
  {
    if (p, t) in r && r[(p, t)] <= 1 then r else r[(p, t) := 1]
  }

  /** `INSERT ... ON CONFLICT DO NOTHING` of one row. */
  function InsertIgnore(r: Rows, a: Id, d: Id, depth: nat): Rows
  {
    if (a, d) in r then r else r[(a, d) := depth]
  }

  /** `INSERT ... SELECT ancestor_id, n, depth + 1 ... WHERE descendant_id = p ON CONFLICT DO NOTHING` */
  function InsertAncestors(r: Rows, p: Id, n: Id): Rows
  {
    var sup := Above(r, p);
    map k | k in r.Keys + Cross(sup, {n}) ::
      if k in r then r[k]
      else if k.1 == n && k.0 in sup then r[(k.0, p)] + 1
      else 0          // no key is left
  }

  /** `ON DELETE CASCADE` on both columns. */
  function Cascade(r: Rows, n: Id): Rows
  {
    map k | k in r && k.0 != n && k.1 != n :: r[k]
  }

  // ---------------------------------------------------------------- operations as row functions

  /** TenantClosureInsert. */
  function InsertLeaf(r: Rows, p: Id, n: Id): Rows
  {
    InsertAncestors(InsertIgnore(InsertIgnore(r, n, n, 0), p, n, 1), p, n)
  }

  datatype MoveError = Ok | InvalidId | Circular | NotEstablished

  /** Why TenantClosureUpdateSubtree refuses a move, if it does. */
  function MoveCheck(r: Rows, t: Id, p: Id): MoveError
  {
    if t == 0 then InvalidId
    else if p > 0 && (t, p) in r then Circular
    else Ok
  }

  /** TenantClosureUpdateSubtree past its checks, without the final verification. */
  function MoveCore(r: Rows, t: Id, p: Id): Rows
  {
    var r2 := DeleteOldParent(DeleteOldAncestors(r, t, p), t, p);
    if p == 0 then r2 else UpsertSubtree(r2, t, p)
  }

  function MoveRows(r: Rows, t: Id, p: Id): Rows
  {
    var r3 := MoveCore(r, t, p);
    if p > 0 && !DirectRelation(r3, p, t) then InsertDirect(r3, p, t) else r3
  }

  /** EnsureTenantClosureConsistency. */
  function EnsureRows(r: Rows, t: Id, p: Id): Rows
  {
    if t == 0 || p == 0 then r
    else
      var r1 := if DirectRelation(r, p, t) then r else InsertDirect(r, p, t);
      InsertAncestors(r1, p, t)
  }

  /**
   Row by row, on any table: the consistency step keeps every row and depth but that of (p, t), which ends at depth
   1 unless it was 0; `t` gets a row from every stored ancestor of `p` that has none, one deeper than to `p`; no
   other row appears.
   */
  lemma EnsureRow(r: Rows, t: Id, p: Id, a: Id, d: Id)
    requires t != 0 && p != 0
    ensures var e := EnsureRows(r, t, p);
            && ((a, d) in e <==> (a, d) in r || (d == t && (a == p || (a, p) in r)))
            && ((a, d) in r && (a, d) != (p, t) ==> e[(a, d)] == r[(a, d)])
            && e[(p, t)] == (if (p, t) in r && r[(p, t)] == 0 then 0 else 1)
            && ((a, d) in e && (a, d) !in r && a != p ==> e[(a, d)] == r[(a, p)] + 1)
  {
    var r1 := if DirectRelation(r, p, t) then r else InsertDirect(r, p, t);
    assert (a, p) in r1 && (a, p) !in r ==> a == p == t;
  }

  // ---------------------------------------------------------------- what a table means

  /** The pairs are exactly the ancestor-or-self pairs of the forest. */
  ghost predicate PairsOf(r: Rows, f: Forest)
    requires Valid(f)
  {
    forall a: Id, d: Id :: (a, d) in r <==> IsAnc(f, a, d)
  }

  /** What a stored depth promises: depths 0 and 1 are exact, others lie between 2 and the true distance. */
  ghost predicate DepthOk(f: Forest, a: Id, d: Id, v: nat)
    requires Valid(f) && IsAnc(f, a, d)
  {
    && v <= Dist(f, a, d)
    && (v == 0 <==> a == d)
    && (v == 1 <==> d in f.parent && f.parent[d] == a)
  }

  ghost predicate Represents(r: Rows, f: Forest)
  {
    && Valid(f)
    && PairsOf(r, f)
    && forall a: Id, d: Id :: (a, d) in r ==> DepthOk(f, a, d, r[(a, d)])
  }

  ghost predicate Exact(r: Rows, f: Forest)
  {
    && Valid(f)
    && PairsOf(r, f)
    && forall a: Id, d: Id :: (a, d) in r ==> r[(a, d)] == Dist(f, a, d)
  }

  lemma ExactRepresents(r: Rows, f: Forest)
    requires Exact(r, f)
    ensures Represents(r, f)
  {
    forall a: Id, d: Id | (a, d) in r
      ensures DepthOk(f, a, d, r[(a, d)])
    {
      AncBounds(f, a, d);
      if a != d {
        AncBounds(f, a, f.parent[d]);
      }
    }
  }

  /** The table a forest ought to have. */
  ghost function ExactClosure(f: Forest): (r: Rows)
    requires Valid(f)
    ensures Exact(r, f)
  {
    var nodes := f.level.Keys;
    var pairs := Cross(nodes, nodes);
    assert forall a: Id, d: Id :: IsAnc(f, a, d) ==> (a, d) in pairs by {
      forall a: Id, d: Id | IsAnc(f, a, d)
        ensures (a, d) in pairs
      {
        AncBounds(f, a, d);
      }
    }
    map k | k in pairs && IsAnc(f, k.0, k.1) :: Dist(f, k.0, k.1)
  }

  /** Exact tables of one forest are equal. */
  lemma ExactUnique(r: Rows, b: Rows, f: Forest)
    requires Exact(r, f) && Exact(b, f)
    ensures r == b
  {
    forall k: (Id, Id)
      ensures k in r <==> k in b
      ensures k in r ==> r[k] == b[k]
    {
      assert k == (k.0, k.1);
    }
  }

  /** The depth-1 rows alone are the parent map: at most one per descendant, none invented, none lost. */
  lemma DepthOneIsParent(r: Rows, f: Forest)
    requires Represents(r, f)
    ensures forall a: Id, d: Id :: ((a, d) in r && r[(a, d)] == 1) <==> (d in f.parent && f.parent[d] == a)
  {
    forall a: Id, d: Id | d in f.parent && f.parent[d] == a
      ensures (a, d) in r && r[(a, d)] == 1
    {
      assert IsAnc(f, a, d) by { assert IsAnc(f, a, f.parent[d]); }
    }
  }

  /** A pair is stored exactly when following the depth-1 rows upwards connects it. */
  lemma PairsClimbParents(r: Rows, f: Forest, a: Id, d: Id)
    requires Represents(r, f)
    ensures (a, d) in r <==> (d, d) in r && Connected(f.parent, a, d)
  {
    if (d, d) in r {
      AncIsConnected(f, a, d);
    }
    assert IsAnc(f, a, d) ==> IsAnc(f, d, d);
  }

  /** A table stands for one forest only. */
  lemma ForestUnique(r: Rows, f: Forest, g: Forest)
    requires Represents(r, f) && Represents(r, g)
    ensures f == g
  {
    DepthOneIsParent(r, f);
    DepthOneIsParent(r, g);
    SameParents(r, f, g);
    SameParents(r, g, f);
    assert f.parent == g.parent;
    assert f.level.Keys == g.level.Keys by {
      assert forall x :: x in f.level <==> IsAnc(f, x, x);
      assert forall x :: x in g.level <==> IsAnc(g, x, x);
    }
    forall x | x in f.level
      ensures f.level[x] == g.level[x]
    {
      SameLevel(f, g, x);
    }
    SameForest(g, f);
  }

  lemma SameParents(r: Rows, f: Forest, g: Forest)
    requires Represents(r, f) && Represents(r, g)
    ensures forall d :: d in f.parent ==> d in g.parent && g.parent[d] == f.parent[d]
  {
    forall d | d in f.parent
      ensures d in g.parent && g.parent[d] == f.parent[d]
    {
      DepthOneIsParent(r, f);
      assert (f.parent[d], d) in r;
    }
  }

  lemma {:induction false} SameLevel(f: Forest, g: Forest, x: Id)
    requires Valid(f) && Valid(g) && f.parent == g.parent && f.level.Keys == g.level.Keys
    requires x in f.level
    ensures f.level[x] == g.level[x]
    decreases f.level[x]
  {
    if x !in f.parent {
    } else {
      SameLevel(f, g, f.parent[x]);
    }
  }
}
