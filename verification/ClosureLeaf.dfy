/**
 Adding a node (TenantClosureInsert, the seeded root) and removing one (the cascade behind a
 tenant row's deletion).
 */
module ClosureLeaf {
  import opened Forest
  import opened Closure

  /** Row by row, what TenantClosureInsert leaves in the table. */
  lemma InsertRow(r: Rows, p: Id, n: Id, a: Id, d: Id)
    requires (n, n) !in r && (p, n) !in r && (n, p) !in r && p != n
    ensures var s := InsertLeaf(r, p, n);
            && ((a, d) in s <==> (a, d) in r || (d == n && (a == n || a == p || (a, p) in r)))
            && ((a, d) in r ==> s[(a, d)] == r[(a, d)])
            && ((a, d) in s && (a, d) !in r ==>
                  s[(a, d)] == if a == n then 0 else if a == p then 1 else r[(a, p)] + 1)
  {
  }

  lemma Absent(r: Rows, f: Forest, n: Id)
    requires Represents(r, f) && n !in f.level
    ensures forall x: Id :: (n, x) !in r && (x, n) !in r
  {
    forall x: Id
      ensures (n, x) !in r && (x, n) !in r
    {
      if IsAnc(f, n, x) {
        AncBounds(f, n, x);
      }
    }
  }

  lemma InsertDepthOk(r: Rows, f: Forest, p: Id, n: Id, a: Id, d: Id)
    requires Represents(r, f) && p in f.level && n != 0 && n !in f.level
    requires Valid(AddLeaf(f, p, n)) && IsAnc(AddLeaf(f, p, n), a, d) && (a, d) in InsertLeaf(r, p, n)
    ensures DepthOk(AddLeaf(f, p, n), a, d, InsertLeaf(r, p, n)[(a, d)])
    ensures Exact(r, f) ==> InsertLeaf(r, p, n)[(a, d)] == Dist(AddLeaf(f, p, n), a, d)
  {
    Absent(r, f, n);
    assert IsAnc(f, p, p);
    InsertRow(r, p, n, a, d);
    AddLeafAnc(f, p, n, a, d);
    if (a, d) in r {
      AncBounds(f, a, d);
    } else if a != n && a != p {
      AncBounds(f, a, p);
    }
  }

  /** A new leaf gets exactly its ancestors' rows; an exact table stays exact. */
  lemma InsertRepresents(r: Rows, f: Forest, p: Id, n: Id)
    requires Represents(r, f) && p in f.level && n != 0 && n !in f.level
    ensures Represents(InsertLeaf(r, p, n), AddLeaf(f, p, n))
    ensures Exact(r, f) ==> Exact(InsertLeaf(r, p, n), AddLeaf(f, p, n))
  {
    var s, g := InsertLeaf(r, p, n), AddLeaf(f, p, n);
    Absent(r, f, n);
    assert IsAnc(f, p, p);
    AddLeafAnc(f, p, n, n, n);
    forall a: Id, d: Id
      ensures (a, d) in s <==> IsAnc(g, a, d)
    {
      InsertRow(r, p, n, a, d);
      AddLeafAnc(f, p, n, a, d);
    }
    forall a: Id, d: Id | (a, d) in s
      ensures DepthOk(g, a, d, s[(a, d)])
      ensures Exact(r, f) ==> s[(a, d)] == Dist(g, a, d)
    {
      InsertDepthOk(r, f, p, n, a, d);
    }
  }

  /** A self row for a tenant outside the forest makes it a one-node tree. */
  lemma SelfRowRepresents(r: Rows, f: Forest, n: Id)
    requires Represents(r, f) && n != 0 && n !in f.level
    ensures Represents(InsertIgnore(r, n, n, 0), AddRoot(f, n))
    ensures Exact(r, f) ==> Exact(InsertIgnore(r, n, n, 0), AddRoot(f, n))
  {
    var s, g := InsertIgnore(r, n, n, 0), AddRoot(f, n);
    Absent(r, f, n);
    AddRootValid(f, n);
    forall a: Id, d: Id
      ensures (a, d) in s <==> IsAnc(g, a, d)
    {
      AddRootAnc(f, n, a, d);
    }
    forall a: Id, d: Id | (a, d) in s
      ensures DepthOk(g, a, d, s[(a, d)])
      ensures Exact(r, f) ==> s[(a, d)] == Dist(g, a, d)
    {
      AddRootAnc(f, n, a, d);
      if (a, d) in r {
        AncBounds(f, a, d);
      }
    }
  }

  /** Deleting a childless tenant's row cascades to exactly that node. */
  lemma CascadeRepresents(r: Rows, f: Forest, n: Id)
    requires Represents(r, f) && (forall x :: x in f.parent ==> f.parent[x] != n)
    ensures Represents(Cascade(r, n), RemoveLeaf(f, n))
    ensures Exact(r, f) ==> Exact(Cascade(r, n), RemoveLeaf(f, n))
  {
    var s, g := Cascade(r, n), RemoveLeaf(f, n);
    RemoveLeafAnc(f, n, n, n);
    forall a: Id, d: Id
      ensures (a, d) in s <==> IsAnc(g, a, d)
    {
      RemoveLeafAnc(f, n, a, d);
    }
    forall a: Id, d: Id | (a, d) in s
      ensures DepthOk(g, a, d, s[(a, d)])
      ensures Exact(r, f) ==> s[(a, d)] == Dist(g, a, d)
    {
      RemoveLeafAnc(f, n, a, d);
      AncBounds(f, a, d);
    }
  }
}
