/**
 CheckAndRepairTenantClosureTable: self rows, one round of transitive joins, one round of
 depth minimisation. The rounds double the covered distance, so about log2(height) calls
 rebuild a closure from its parent edges.
 */
module ClosureRepair {
  import opened Forest
  import opened Closure
  import opened Sets

  // ---------------------------------------------------------------- statements

  /** `INSERT SELECT id, id, 0 FROM tenants ON CONFLICT DO NOTHING` */
  function AddSelfRows(r: Rows, tenants: set<Id>): (s: Rows)
    ensures s.Keys == r.Keys + set n | n in tenants :: (n, n)
    ensures forall k :: k in r ==> s[k] == r[k]
  {
    map k | k in r.Keys + (set n | n in tenants :: (n, n)) :: if k in r then r[k] else 0
  }

  /** Nodes through which the self-join connects `a` to `c`. */
  function Via(r: Rows, a: Id, c: Id): (s: set<Id>)
    ensures forall m: Id :: m in s <==> (a, m) in r && (m, c) in r
  {
    set k | k in r && k.0 == a && (k.1, c) in r :: k.1
  }

  /** Depths the self-join offers for (a, c). */
  function Sums(r: Rows, a: Id, c: Id): (s: set<nat>)
    ensures forall v :: v in s <==> exists m: Id :: m in Via(r, a, c) && v == r[(a, m)] + r[(m, c)]
  {
    set m | m in Via(r, a, c) :: r[(a, m)] + r[(m, c)]
  }

  /** Keys the transitive INSERT produces. */
  function Joins(r: Rows): (s: set<(Id, Id)>)
    ensures forall a: Id, c: Id :: (a, c) in s <==> a != c && Via(r, a, c) != {}
  {
    var s := set k, l | k in r && l in r && k.1 == l.0 && k.0 != l.1 :: (k.0, l.1);
    assert forall a: Id, c: Id, m: Id :: a != c && m in Via(r, a, c) ==> (a, m) in r && (m, c) in r && (a, c) in s;
    assert forall a: Id, c: Id :: a != c && Via(r, a, c) != {} ==> (a, c) in s by {
      forall a: Id, c: Id | a != c && Via(r, a, c) != {}
        ensures (a, c) in s
      {
        var m :| m in Via(r, a, c);
      }
    }
    assert forall a: Id, c: Id :: (a, c) in s ==> a != c && Via(r, a, c) != {} by {
      forall a: Id, c: Id | (a, c) in s
        ensures a != c && Via(r, a, c) != {}
      {
        var k, l :| k in r && l in r && k.1 == l.0 && k.0 != l.1 && (a, c) == (k.0, l.1);
        assert k.1 in Via(r, a, c);
      }
    }
    s
  }

  /** With DO NOTHING, whichever joined row the database produces first is the one that stays. */
  ghost predicate ValidPick(r: Rows, pick: Rows)
  {
    forall k :: k in Joins(r) ==> k in pick && pick[k] in Sums(r, k.0, k.1)
  }

  function InsertTransitive(r: Rows, pick: Rows): Rows
    requires ValidPick(r, pick)
  {
    map k | k in r.Keys + Joins(r) :: if k in r then r[k] else pick[k]
  }

  /** The UPDATE: the smallest joined depth where some join is smaller than the stored one. */
  function UpdateDepths(r: Rows): Rows
  {
    map k | k in r ::
      if exists v :: v in Sums(r, k.0, k.1) && v < r[k] then Min(Sums(r, k.0, k.1)) else r[k]
  }

  /**
   Row by row, on any table: no row is lost, none raised; each depth ends at most at every joined sum, and is the old
   one or one of those sums.
   */
  lemma UpdateIsLeast(r: Rows, a: Id, d: Id)
    ensures var s := UpdateDepths(r);
            && ((a, d) in s <==> (a, d) in r)
            && ((a, d) in r ==>
                  && s[(a, d)] <= r[(a, d)]
                  && (forall m: Id :: (a, m) in r && (m, d) in r ==> s[(a, d)] <= r[(a, m)] + r[(m, d)])
                  && (s[(a, d)] == r[(a, d)] ||
                      exists m: Id :: (a, m) in r && (m, d) in r && s[(a, d)] == r[(a, m)] + r[(m, d)]))
  {
    if (a, d) in r {
      var s := UpdateDepths(r);
      LeastOf(Sums(r, a, d), r[(a, d)], s[(a, d)]);
      forall m: Id | (a, m) in r && (m, d) in r
        ensures s[(a, d)] <= r[(a, m)] + r[(m, d)]
      {
        JoinOffers(r, a, d, m);
      }
      if s[(a, d)] != r[(a, d)] {
        var m := OfferedBy(r, a, d, s[(a, d)]);
      }
    }
  }

  lemma LeastOf(sums: set<nat>, was: nat, v: nat)
    requires v == if exists w :: w in sums && w < was then Min(sums) else was
    ensures v <= was && (forall w :: w in sums ==> v <= w) && (v == was || v in sums)
  {
  }

  lemma JoinOffers(r: Rows, a: Id, d: Id, m: Id)
    requires (a, m) in r && (m, d) in r
    ensures r[(a, m)] + r[(m, d)] in Sums(r, a, d)
  {
    assert m in Via(r, a, d);
  }

  lemma OfferedBy(r: Rows, a: Id, d: Id, v: nat) returns (m: Id)
    requires v in Sums(r, a, d)
    ensures (a, m) in r && (m, d) in r && v == r[(a, m)] + r[(m, d)]
  {
    m :| m in Via(r, a, d) && v == r[(a, m)] + r[(m, d)];
  }

  /** One call of CheckAndRepairTenantClosureTable. */
  function RepairRows(r: Rows, tenants: set<Id>, pick: Rows): Rows
    requires ValidPick(AddSelfRows(r, tenants), pick)
  {
    UpdateDepths(InsertTransitive(AddSelfRows(r, tenants), pick))
  }

  ghost predicate Repairs(tenants: set<Id>, r: Rows, s: Rows)
  {
    exists pick :: ValidPick(AddSelfRows(r, tenants), pick) && s == RepairRows(r, tenants, pick)
  }

  // ---------------------------------------------------------------- rebuilding from true rows

  /** Every row is a true ancestor pair with its exact distance. */
  ghost predicate TrueRows(r: Rows, f: Forest)
  {
    && Valid(f)
    && forall a: Id, d: Id :: (a, d) in r ==> IsAnc(f, a, d) && r[(a, d)] == Dist(f, a, d)
  }

  /** All pairs whose distance is between 1 and `k` are present. */
  ghost predicate Covers(r: Rows, f: Forest, k: nat)
    requires Valid(f)
  {
    forall a: Id, d: Id :: IsAnc(f, a, d) && 1 <= Dist(f, a, d) <= k ==> (a, d) in r
  }

  ghost predicate HasEdges(r: Rows, f: Forest)
  {
    forall d :: d in f.parent ==> (f.parent[d], d) in r
  }

  lemma EdgesCoverOne(r: Rows, f: Forest)
    requires Valid(f) && HasEdges(r, f)
    ensures Covers(r, f, 1)
  {
    forall a: Id, d: Id | IsAnc(f, a, d) && 1 <= Dist(f, a, d) <= 1
      ensures (a, d) in r
    {
      AncBounds(f, a, f.parent[d]);
    }
  }

  /** On true rows every join through a middle node offers the same, exact, depth. */
  lemma TrueSums(r: Rows, f: Forest, a: Id, c: Id, v: nat)
    requires TrueRows(r, f) && v in Sums(r, a, c)
    ensures IsAnc(f, a, c) && v == Dist(f, a, c)
  {
    var m: Id :| m in Via(r, a, c) && v == r[(a, m)] + r[(m, c)];
    AncTransitive(f, a, m, c);
    AncBounds(f, a, m);
    AncBounds(f, m, c);
  }

  lemma SelfRowsTrue(r: Rows, f: Forest, tenants: set<Id>)
    requires TrueRows(r, f) && tenants <= f.level.Keys
    ensures TrueRows(AddSelfRows(r, tenants), f)
  {
    assert forall n :: n in tenants ==> IsAnc(f, n, n);
  }

  lemma TransitiveTrue(r: Rows, f: Forest, pick: Rows)
    requires TrueRows(r, f) && ValidPick(r, pick)
    ensures TrueRows(InsertTransitive(r, pick), f)
  {
    var s := InsertTransitive(r, pick);
    forall a: Id, d: Id | (a, d) in s
      ensures IsAnc(f, a, d) && s[(a, d)] == Dist(f, a, d)
    {
      if (a, d) !in r {
        TrueSums(r, f, a, d, pick[(a, d)]);
      }
    }
  }

  /** On true rows the minimisation finds nothing smaller. */
  lemma UpdateKeepsTrue(r: Rows, f: Forest)
    requires TrueRows(r, f)
    ensures UpdateDepths(r) == r
  {
    forall k | k in r
      ensures !exists v :: v in Sums(r, k.0, k.1) && v < r[k]
    {
      assert k == (k.0, k.1);
      forall v | v in Sums(r, k.0, k.1)
        ensures v >= r[k]
      {
        TrueSums(r, f, k.0, k.1, v);
      }
    }
  }

  /** One call adds no false row, keeps exact depths, and doubles the distance that is covered. */
  lemma RepairDoubles(r: Rows, f: Forest, tenants: set<Id>, s: Rows, k: nat)
    requires TrueRows(r, f) && tenants == f.level.Keys && 1 <= k && Covers(r, f, k) && Repairs(tenants, r, s)
    ensures TrueRows(s, f) && Covers(s, f, 2 * k)
    ensures r.Keys <= s.Keys && forall n :: n in tenants ==> (n, n) in s
  {
    var pick :| ValidPick(AddSelfRows(r, tenants), pick) && s == RepairRows(r, tenants, pick);
    var r1 := AddSelfRows(r, tenants);
    SelfRowsTrue(r, f, tenants);
    var r2 := InsertTransitive(r1, pick);
    TransitiveTrue(r1, f, pick);
    UpdateKeepsTrue(r2, f);
    JoinCovers(r1, f, pick, k);
  }

  lemma JoinCovers(r: Rows, f: Forest, pick: Rows, k: nat)
    requires Valid(f) && 1 <= k && Covers(r, f, k) && ValidPick(r, pick)
    ensures Covers(InsertTransitive(r, pick), f, 2 * k)
  {
    forall a: Id, d: Id | IsAnc(f, a, d) && 1 <= Dist(f, a, d) <= 2 * k
      ensures (a, d) in InsertTransitive(r, pick)
    {
      JoinedWithin(r, f, a, d, k);
    }
  }

  lemma JoinedWithin(r: Rows, f: Forest, a: Id, d: Id, k: nat)
    requires Valid(f) && Covers(r, f, k) && IsAnc(f, a, d) && 1 <= k && 1 <= Dist(f, a, d) <= 2 * k
    ensures (a, d) in r || (a, d) in Joins(r)
  {
    if Dist(f, a, d) > k {
      var m := AncMiddle(f, a, d, k);
      AncBounds(f, a, m);
      AncBounds(f, m, d);
      assert m in Via(r, a, d);
    }
  }

  function Pow2(n: nat): nat
  {
    if n == 0 then 1 else 2 * Pow2(n - 1)
  }

  /** A run of repair calls, one table per call. */
  ghost predicate RepairRun(tenants: set<Id>, tables: seq<Rows>)
  {
    |tables| > 0 && forall i :: 0 <= i < |tables| - 1 ==> Repairs(tenants, tables[i], tables[i + 1])
  }

  lemma RepairRunStep(tenants: set<Id>, tables: seq<Rows>, i: nat)
    requires RepairRun(tenants, tables) && i < |tables| - 1
    ensures Repairs(tenants, tables[i], tables[i + 1])
  {
  }

  /** After n calls from true rows with all parent edges, every pair within distance 2^n is exact. */
  lemma {:induction false} RepairReaches(f: Forest, tables: seq<Rows>, n: nat)
    requires RepairRun(f.level.Keys, tables) && n < |tables|
    requires TrueRows(tables[0], f) && HasEdges(tables[0], f)
    ensures TrueRows(tables[n], f) && Covers(tables[n], f, Pow2(n)) && 1 <= Pow2(n)
    ensures n > 0 ==> forall x :: x in f.level ==> (x, x) in tables[n]
    decreases n
  {
    if n == 0 {
      EdgesCoverOne(tables[0], f);
    } else {
      RepairReaches(f, tables, n - 1);
      RepairRunStep(f.level.Keys, tables, n - 1);
      RepairDoubles(tables[n - 1], f, f.level.Keys, tables[n], Pow2(n - 1));
    }
  }

  /** Once 2^n is at least the height, the table is the exact closure, and it stays so. */
  lemma RepairConverges(f: Forest, tables: seq<Rows>, n: nat)
    requires RepairRun(f.level.Keys, tables) && 0 < n < |tables|
    requires TrueRows(tables[0], f) && HasEdges(tables[0], f)
    requires forall x :: x in f.level ==> f.level[x] <= Pow2(n)
    ensures tables[n] == ExactClosure(f)
    ensures forall i :: n <= i < |tables| ==> tables[i] == tables[n]
  {
    RepairReaches(f, tables, n);
    forall a: Id, d: Id
      ensures (a, d) in tables[n] <==> IsAnc(f, a, d)
    {
      if IsAnc(f, a, d) {
        AncBounds(f, a, d);
      }
    }
    assert Exact(tables[n], f);
    ExactUnique(tables[n], ExactClosure(f), f);
    forall i | n <= i < |tables|
      ensures tables[i] == tables[n]
    {
      RepairStable(f, tables, n, i);
    }
  }

  lemma {:induction false} RepairStable(f: Forest, tables: seq<Rows>, n: nat, m: nat)
    requires RepairRun(f.level.Keys, tables) && n <= m < |tables| && Exact(tables[n], f)
    ensures tables[m] == tables[n]
    decreases m
  {
    if n == m {
    } else {
      RepairStable(f, tables, n, m - 1);
      RepairRunStep(f.level.Keys, tables, m - 1);
      RepairFixesExact(f, tables[n], tables[m]);
    }
  }

  /** The pairs of a forest are transitively closed: the join produces no new key. */
  lemma NoNewPairs(r: Rows, f: Forest)
    requires Valid(f) && PairsOf(r, f)
    ensures Joins(r) <= r.Keys
  {
    forall k | k in Joins(r)
      ensures k in r
    {
      assert k == (k.0, k.1);
      var m :| m in Via(r, k.0, k.1);
      AncTransitive(f, k.0, m, k.1);
    }
  }

  lemma InsertIdle(r: Rows, pick: Rows)
    requires ValidPick(r, pick) && Joins(r) <= r.Keys
    ensures InsertTransitive(r, pick) == r
  {
  }

  /** When the self rows complete the pairs of a forest, only the depth update is left to do. */
  lemma OnlyUpdateLeft(r: Rows, tenants: set<Id>, s: Rows, g: Forest)
    requires Repairs(tenants, r, s) && Valid(g) && PairsOf(AddSelfRows(r, tenants), g)
    ensures s == UpdateDepths(AddSelfRows(r, tenants))
  {
    var pick :| ValidPick(AddSelfRows(r, tenants), pick) && s == RepairRows(r, tenants, pick);
    NoNewPairs(AddSelfRows(r, tenants), g);
    InsertIdle(AddSelfRows(r, tenants), pick);
  }

  lemma SelfRowsIdle(r: Rows, f: Forest)
    requires Valid(f) && PairsOf(r, f)
    ensures AddSelfRows(r, f.level.Keys) == r
  {
    assert forall n :: n in f.level ==> IsAnc(f, n, n);
  }

  /** The exact closure is a fixed point. */
  lemma RepairFixesExact(f: Forest, r: Rows, s: Rows)
    requires Exact(r, f) && Repairs(f.level.Keys, r, s)
    ensures s == r
  {
    SelfRowsIdle(r, f);
    OnlyUpdateLeft(r, f.level.Keys, s, f);
    UpdateKeepsTrue(r, f);
  }

  // ---------------------------------------------------------------- repairing a live table

  /** The forest with every tenant that has no rows added as a one-node tree. */
  ghost function WithTenants(f: Forest, tenants: set<Id>): Forest
  {
    f.(level := f.level + map n | n in tenants - f.level.Keys :: 0)
  }

  lemma {:induction false} WithTenantsAnc(f: Forest, tenants: set<Id>, a: Id, d: Id)
    requires Valid(f) && 0 !in tenants
    ensures Valid(WithTenants(f, tenants))
    ensures IsAnc(WithTenants(f, tenants), a, d) <==> IsAnc(f, a, d) || (a == d && a in tenants)
    decreases if d in f.level then f.level[d] else 0
  {
    var g := WithTenants(f, tenants);
    assert Valid(g);
    if d !in f.parent {
    } else {
      WithTenantsAnc(f, tenants, a, f.parent[d]);
    }
  }

  lemma SelfRowsRepresent(r: Rows, f: Forest, tenants: set<Id>)
    requires Represents(r, f) && 0 !in tenants
    ensures Represents(AddSelfRows(r, tenants), WithTenants(f, tenants))
  {
    var s, g := AddSelfRows(r, tenants), WithTenants(f, tenants);
    WithTenantsAnc(f, tenants, 1, 1);
    forall a: Id, d: Id
      ensures (a, d) in s <==> IsAnc(g, a, d)
    {
      WithTenantsAnc(f, tenants, a, d);
    }
    forall a: Id, d: Id | (a, d) in s
      ensures DepthOk(g, a, d, s[(a, d)])
    {
      WithTenantsAnc(f, tenants, a, d);
      if (a, d) in r {
        AncBounds(f, a, d);
        assert DepthOk(f, a, d, r[(a, d)]);
      }
    }
  }

  /** Every depth a join offers on a live table is a permitted one. */
  lemma JoinDepthOk(r: Rows, f: Forest, a: Id, c: Id, v: nat)
    requires Represents(r, f) && v in Sums(r, a, c)
    ensures IsAnc(f, a, c) && DepthOk(f, a, c, v)
  {
    var m: Id :| m in Via(r, a, c) && v == r[(a, m)] + r[(m, c)];
    AncTransitive(f, a, m, c);
    AncBounds(f, a, m);
    AncBounds(f, m, c);
    assert DepthOk(f, a, m, r[(a, m)]) && DepthOk(f, m, c, r[(m, c)]);
    if a == c {
      AncBounds(f, m, a);
    }
    if c in f.parent && f.parent[c] == a && m != a && m != c {
      AncBounds(f, a, c);
    }
  }

  lemma UpdateRepresents(r: Rows, f: Forest)
    requires Represents(r, f)
    ensures Represents(UpdateDepths(r), f) && UpdateDepths(r).Keys == r.Keys
    ensures forall k :: k in r ==> UpdateDepths(r)[k] <= r[k]
  {
    var s := UpdateDepths(r);
    forall a: Id, d: Id | (a, d) in s
      ensures DepthOk(f, a, d, s[(a, d)])
    {
      if exists v :: v in Sums(r, a, d) && v < r[(a, d)] {
        JoinDepthOk(r, f, a, d, Min(Sums(r, a, d)));
      }
    }
  }

  ghost predicate OnlySelfRowsNew(r: Rows, tenants: set<Id>, s: Rows)
  {
    forall a: Id, d: Id :: (a, d) in s <==> (a, d) in r || (a == d && a in tenants)
  }

  /** No row is lost, no depth grows, and depths 0 and 1 neither change nor appear. */
  ghost predicate DepthsShrink(r: Rows, s: Rows)
  {
    forall k :: k in r ==> k in s && s[k] <= r[k] && (r[k] <= 1 || s[k] <= 1 ==> s[k] == r[k])
  }

  /**
   On a live table one call adds the missing self rows and no other pair, keeps depths 0 and 1,
   and never raises a depth: in particular a depth below the true distance is never healed.
   */
  lemma RepairLive(r: Rows, f: Forest, tenants: set<Id>, s: Rows)
    requires Represents(r, f) && 0 !in tenants && Repairs(tenants, r, s)
    ensures Represents(s, WithTenants(f, tenants))
    ensures OnlySelfRowsNew(r, tenants, s) && DepthsShrink(r, s)
  {
    RepairLiveCore(r, f, tenants, s);
  }

  /** What one call leaves of the table of any forest. */
  lemma RepairOutcome(r: Rows, tenants: set<Id>, s: Rows)
    requires Repairs(tenants, r, s)
    ensures forall f: Forest :: Represents(r, f) && 0 !in tenants ==>
              Represents(s, WithTenants(f, tenants)) && OnlySelfRowsNew(r, tenants, s) && DepthsShrink(r, s)
    ensures forall f: Forest :: Exact(r, f) && f.level.Keys == tenants ==> s == r
  {
    forall f: Forest | Represents(r, f) && 0 !in tenants
      ensures Represents(s, WithTenants(f, tenants)) && OnlySelfRowsNew(r, tenants, s) && DepthsShrink(r, s)
    {
      RepairLive(r, f, tenants, s);
    }
    forall f: Forest | Exact(r, f) && f.level.Keys == tenants
      ensures s == r
    {
      RepairFixesExact(f, r, s);
    }
  }

  lemma RepairLiveCore(r: Rows, f: Forest, tenants: set<Id>, s: Rows)
    requires Represents(r, f) && 0 !in tenants && Repairs(tenants, r, s)
    ensures var r1 := AddSelfRows(r, tenants);
            && Represents(s, WithTenants(f, tenants)) && s.Keys == r1.Keys
            && forall k :: k in r1 ==> s[k] <= r1[k] && (r1[k] <= 1 || s[k] <= 1 ==> s[k] == r1[k])
  {
    var g := WithTenants(f, tenants);
    var r1 := AddSelfRows(r, tenants);
    SelfRowsRepresent(r, f, tenants);
    OnlyUpdateLeft(r, tenants, s, g);
    UpdateRepresents(r1, g);
    forall k | k in r1
      ensures r1[k] <= 1 || s[k] <= 1 ==> s[k] == r1[k]
    {
      SmallDepthsKept(r1, s, g, k);
    }
  }

  lemma SmallDepthsKept(r: Rows, s: Rows, g: Forest, k: (Id, Id))
    requires Represents(r, g) && Represents(s, g) && k in r && k in s
    ensures r[k] <= 1 || s[k] <= 1 ==> s[k] == r[k]
  {
    assert k == (k.0, k.1);
    assert DepthOk(g, k.0, k.1, s[k]) && DepthOk(g, k.0, k.1, r[k]);
  }
}
