/**
 The database tables behind the tenant tree and the dao and service calls that rewrite them,
 statement by statement. `View` ties every call to the state machine of TenantTree.
 */
module TenantAdmin {
  import opened Common
  import opened Forest
  import opened Closure
  import opened ClosureMove
  import opened ClosureLeaf
  import opened ClosureRepair
  import opened TenantTree
  import opened TenantRepair
  import opened Sets

  const PAGE_SIZE: nat := 500

  class Database {
    var tenants: set<Id>
    var rows: Rows
    var lastId: nat
    var users: map<Id, Id>      // uid -> tenant_id

    constructor ()
      ensures Initial(View()) && users == map[]
    {
      tenants, rows, lastId, users := {}, map[], 0, map[];
    }

    function View(): State
      reads this
    {
      State(tenants, rows, lastId)
    }

    // -------------------------------------------------------------- dao

    /** In the table of any forest a new descendant becomes a leaf below the ancestor, and exact depths stay exact. */
    method TenantClosureInsert(ancestor: Id, descendant: Id)
      modifies this`rows
      ensures rows == InsertLeaf(old(rows), ancestor, descendant)
      ensures forall f: Forest ::
                Represents(old(rows), f) && ancestor in f.level && descendant != 0 && descendant !in f.level ==>
                && Represents(rows, AddLeaf(f, ancestor, descendant))
                && (Exact(old(rows), f) ==> Exact(rows, AddLeaf(f, ancestor, descendant)))
    {
      rows := InsertIgnore(rows, descendant, descendant, 0);
      rows := InsertIgnore(rows, ancestor, descendant, 1);
      rows := InsertAncestors(rows, ancestor, descendant);
      forall f: Forest | Represents(old(rows), f) && ancestor in f.level && descendant != 0 && descendant !in f.level
        ensures Represents(rows, AddLeaf(f, ancestor, descendant))
        ensures Exact(old(rows), f) ==> Exact(rows, AddLeaf(f, ancestor, descendant))
      {
        InsertRepresents(old(rows), f, ancestor, descendant);
      }
    }

    /** The stored depth, or -1 when there is no row. */
    method TenantClosureIsDescendant(ancestor: Id, descendant: Id) returns (depth: int)
      ensures depth >= 0 <==> (ancestor, descendant) in rows
      ensures depth >= 0 ==> depth == rows[(ancestor, descendant)]
      ensures depth < 0 ==> depth == -1
    {
      if (ancestor, descendant) in rows {
        depth := rows[(ancestor, descendant)];
      } else {
        depth := -1;
      }
    }

    /** A refused move changes nothing; an accepted one hangs the subtree below the new parent. */
    method TenantClosureUpdateSubtree(t: Id, p: Id) returns (e: MoveError)
      modifies this`rows
      ensures e == MoveCheck(old(rows), t, p)
      ensures rows == if e == Ok then MoveRows(old(rows), t, p) else old(rows)
      ensures forall f: Forest :: Represents(old(rows), f) && e == Ok && t in f.level && (p == 0 || p in f.level) ==>
                Represents(rows, Reparent(f, t, p))
    {
      if t == 0 {
        return InvalidId;
      }
      if p > 0 && (t, p) in rows {
        return Circular;
      }
      rows := DeleteOldAncestors(rows, t, p);
      rows := DeleteOldParent(rows, t, p);
      if p > 0 {
        rows := UpsertSubtree(rows, t, p);
        if !DirectRelation(rows, p, t) {
          rows := InsertDirect(rows, p, t);
        }
      }
      e := Ok;
      forall f: Forest | Represents(old(rows), f) && t in f.level && (p == 0 || p in f.level)
        ensures Represents(rows, Reparent(f, t, p))
      {
        MoveRepresents(old(rows), f, t, p);
      }
    }

    /**
     Every row keeps its depth but that of (p, t), which ends at depth 1 at most; `t` gets a row from every stored
     ancestor of `p` that has none yet, one deeper than to `p`; no other row appears. With its parent in place in the
     table of a forest nothing changes.
     */
    method EnsureTenantClosureConsistency(t: Id, p: Id)
      modifies this`rows
      ensures rows == EnsureRows(old(rows), t, p)
      ensures t == 0 || p == 0 ==> rows == old(rows)
      ensures t != 0 && p != 0 ==> Ensured(old(rows), t, p, rows)
      ensures forall f: Forest :: Represents(old(rows), f) && ParentOf(f, t) == p ==> rows == old(rows)
    {
      if t == 0 || p == 0 {
        return;
      }
      if !DirectRelation(rows, p, t) {
        rows := InsertDirect(rows, p, t);
      }
      rows := InsertAncestors(rows, p, t);
      forall f: Forest | Represents(old(rows), f) && ParentOf(f, t) == p
        ensures rows == old(rows)
      {
        EnsureIsIdentity(old(rows), f, t, p);
      }
      EnsuredRows(old(rows), t, p);
    }

    /**
     Refused like the plain move, which then changes nothing. An accepted one re-hangs any forest; a tenant that has
     no rows yet gets the rows of its new parent and of the ancestors stored for it; and whatever the table was, all
     stored ancestors of the new parent have a row to `t` afterwards.
     */
    method TenantClosureUpdateSubtreeV2Safe(t: Id, p: Id) returns (e: MoveError)
      modifies this`rows
      ensures MoveCheck(old(rows), t, p) != Ok ==> e == MoveCheck(old(rows), t, p) && rows == old(rows)
      ensures MoveCheck(old(rows), t, p) == Ok ==>
                && rows == EnsureRows(MoveRows(old(rows), t, p), t, p)
                && e == if p > 0 && !DirectRelation(rows, p, t) then NotEstablished else Ok
      ensures MoveCheck(old(rows), t, p) == Ok && p > 0 ==> forall a: Id :: (a, p) in rows ==> (a, t) in rows
      ensures forall f: Forest :: Represents(old(rows), f) && e == Ok && t in f.level && (p == 0 || p in f.level) ==>
                Represents(rows, Reparent(f, t, p))
      ensures forall f: Forest :: Represents(old(rows), f) && t !in f.level && t != 0 && p != 0 && t != p ==>
                e == Ok && HungBelow(old(rows), t, p, rows)
    {
      forall f: Forest | Represents(rows, f) && t !in f.level && t != 0
        ensures MoveCheck(rows, t, p) == Ok
      {
        Absent(rows, f, t);
      }
      if t != 0 && MoveCheck(rows, t, p) == Ok {
        SafeOutcome(rows, t, p);
      }
      e := TenantClosureUpdateSubtree(t, p);
      if e != Ok {
        return;
      }
      if p > 0 {
        EnsureTenantClosureConsistency(t, p);
        if !DirectRelation(rows, p, t) {
          return NotEstablished;
        }
      }
    }

    /**
     `pick` is the order-dependent choice the database makes among joined rows. On the table of any forest the
     tenants' self rows are the only new pairs, depths 0 and 1 stay and no depth grows; an exact table of all
     tenants, and any table a run of the services has left, is not changed at all.
     */
    method CheckAndRepairTenantClosureTable(pick: Rows)
      requires ValidPick(AddSelfRows(rows, tenants), pick)
      modifies this`rows
      ensures Repairs(tenants, old(rows), rows)
      ensures forall f: Forest :: Represents(old(rows), f) && 0 !in tenants ==>
                && Represents(rows, WithTenants(f, tenants))
                && OnlySelfRowsNew(old(rows), tenants, rows) && DepthsShrink(old(rows), rows)
      ensures forall f: Forest :: Exact(old(rows), f) && f.level.Keys == tenants ==> rows == old(rows)
      ensures forall root: Id :: Reachable(old(View()), root) ==> rows == old(rows)
    {
      rows := AddSelfRows(rows, tenants);
      rows := InsertTransitive(rows, pick);
      rows := UpdateDepths(rows);
      RepairOutcome(old(rows), tenants, rows);
      forall root: Id | Reachable(old(View()), root)
        ensures rows == old(rows)
      {
        RepairIsIdentity(old(View()), root, rows);
      }
    }

    /** One page of TenantListByAncestorID: descendants in id order with their stored depth. */
    method TenantListByAncestorID(ancestor: Id, page: nat, pageSize: nat) returns (list: seq<(Id, nat)>)
      requires page >= 1
      ensures list == Page(Listing(View(), ancestor), page, pageSize)
      ensures PageOf(View(), ancestor, Offset(page, pageSize), pageSize, list)
    {
      var all := Listing(View(), ancestor);
      list := Page(all, page, pageSize);
      ListedPage(View(), ancestor, Offset(page, pageSize), pageSize, list);
    }

    /** One page of a tenant's users, in no particular order. */
    method UserQueryByTenant(tenant: Id, pageSize: nat) returns (page: seq<Id>)
      ensures forall i, j :: 0 <= i < j < |page| ==> page[i] != page[j]
      ensures forall u :: u in page ==> u in users && users[u] == tenant
      ensures |page| == if |UsersOf(users, tenant)| < pageSize then |UsersOf(users, tenant)| else pageSize
    {
      var all := Sorted(UsersOf(users, tenant));
      page := if |all| < pageSize then all else all[..pageSize];
      assert forall u :: u in page ==> u in all;
    }
  }

  /** What the consistency step leaves of any table. */
  ghost predicate Ensured(r: Rows, t: Id, p: Id, s: Rows)
  {
    && (p, t) in s && s[(p, t)] <= 1
    && forall a: Id, d: Id ::
         && ((a, d) in s <==> (a, d) in r || (d == t && (a == p || (a, p) in r)))
         && ((a, d) in r && (a, d) != (p, t) ==> s[(a, d)] == r[(a, d)])
         && ((a, d) in s && (a, d) !in r && a != p ==> s[(a, d)] == r[(a, p)] + 1)
  }

  lemma EnsuredRows(r: Rows, t: Id, p: Id)
    requires t != 0 && p != 0
    ensures Ensured(r, t, p, EnsureRows(r, t, p))
  {
    EnsureRow(r, t, p, p, t);
    forall a: Id, d: Id
      ensures (a, d) in EnsureRows(r, t, p) <==> (a, d) in r || (d == t && (a == p || (a, p) in r))
      ensures (a, d) in r && (a, d) != (p, t) ==> EnsureRows(r, t, p)[(a, d)] == r[(a, d)]
      ensures (a, d) in EnsureRows(r, t, p) && (a, d) !in r && a != p ==>
                EnsureRows(r, t, p)[(a, d)] == r[(a, p)] + 1
    {
      EnsureRow(r, t, p, a, d);
    }
  }

  /** What the Safe move leaves of any table, of the table of a forest, and for a tenant without rows. */
  lemma SafeOutcome(r: Rows, t: Id, p: Id)
    requires t != 0 && MoveCheck(r, t, p) == Ok
    ensures p > 0 ==> forall a: Id :: (a, p) in SafeRows(r, t, p) ==> (a, t) in SafeRows(r, t, p)
    ensures forall f: Forest :: Represents(r, f) && t in f.level && (p == 0 || p in f.level) ==>
              Represents(SafeRows(r, t, p), Reparent(f, t, p))
    ensures forall f: Forest :: Represents(r, f) && t !in f.level && p != 0 && t != p ==>
              DirectRelation(SafeRows(r, t, p), p, t) && HungBelow(r, t, p, SafeRows(r, t, p))
  {
    if p > 0 {
      EnsuredRows(MoveRows(r, t, p), t, p);
    }
    forall f: Forest | Represents(r, f) && t in f.level && (p == 0 || p in f.level)
      ensures Represents(SafeRows(r, t, p), Reparent(f, t, p))
    {
      SafeMoveIsPlainMove(r, f, t, p);
      MoveRepresents(r, f, t, p);
    }
    forall f: Forest | Represents(r, f) && t !in f.level && p != 0 && t != p
      ensures DirectRelation(SafeRows(r, t, p), p, t) && HungBelow(r, t, p, SafeRows(r, t, p))
    {
      RowlessSafe(r, f, t, p);
    }
  }

  lemma RowlessSafe(r: Rows, f: Forest, t: Id, p: Id)
    requires Represents(r, f) && t != 0 && t !in f.level && p != 0 && t != p
    ensures MoveCheck(r, t, p) == Ok && !DirectRelation(r, p, t) && (t, p) !in r
    ensures DirectRelation(SafeRows(r, t, p), p, t) && HungBelow(r, t, p, SafeRows(r, t, p))
  {
    Absent(r, f, t);
    SafeMoveRowless(r, f, t, p);
  }

  function UsersOf(users: map<Id, Id>, tenant: Id): set<Id>
  {
    set u | u in users && users[u] == tenant
  }

  /** The tenants the subtree query selects. */
  function Selected(s: State, ancestor: Id): (ids: set<Id>)
    ensures forall x: Id :: x in ids <==> x in s.tenants && (ancestor, x) in s.rows
  {
    set x | x in Below(s.rows, ancestor) && x in s.tenants
  }

  /** The whole ORDER BY id result of the subtree query. */
  function Listing(s: State, ancestor: Id): (list: seq<(Id, nat)>)
    ensures |list| == |Selected(s, ancestor)|
    ensures forall i :: 0 <= i < |list| ==>
              list[i].0 in Selected(s, ancestor) && list[i].1 == s.rows[(ancestor, list[i].0)]
  {
    var ids := Sorted(Selected(s, ancestor));
    seq(|ids|, i requires 0 <= i < |ids| => assert ids[i] in ids; (ids[i], s.rows[(ancestor, ids[i])]))
  }

  /** The listing has every descendant that is a tenant once, in id order, with its stored depth. */
  lemma ListingSpec(s: State, ancestor: Id)
    ensures var list := Listing(s, ancestor);
            && (forall i, j :: 0 <= i < j < |list| ==> list[i].0 < list[j].0)
            && (forall x: Id, d: nat :: (x, d) in list <==> x in Selected(s, ancestor) && s.rows[(ancestor, x)] == d)
  {
    var list, ids := Listing(s, ancestor), Sorted(Selected(s, ancestor));
    assert forall i :: 0 <= i < |list| ==> list[i].0 == ids[i];
    forall x: Id | x in Selected(s, ancestor)
      ensures (x, s.rows[(ancestor, x)]) in list
    {
      assert x in ids;
      var i :| 0 <= i < |ids| && ids[i] == x;
      assert list[i] == (x, s.rows[(ancestor, x)]);
    }
  }

  /** Ascending ids with their stored depths, as many as the window from `lo` over the selected tenants holds. */
  ghost predicate PageOf(s: State, ancestor: Id, lo: nat, pageSize: nat, list: seq<(Id, nat)>)
  {
    var total := |Selected(s, ancestor)|;
    && (forall i, j :: 0 <= i < j < |list| ==> list[i].0 < list[j].0)
    && (forall i :: 0 <= i < |list| ==>
          list[i].0 in Selected(s, ancestor) && list[i].1 == s.rows[(ancestor, list[i].0)])
    && |list| == if total <= lo then 0 else if total <= lo + pageSize then total - lo else pageSize
  }

  lemma ListedPage(s: State, ancestor: Id, lo: nat, pageSize: nat, list: seq<(Id, nat)>)
    requires var all := Listing(s, ancestor);
             && (forall i :: 0 <= i < |list| ==> lo + i < |all| && list[i] == all[lo + i])
             && |list| == if |all| <= lo then 0 else if |all| <= lo + pageSize then |all| - lo else pageSize
    ensures PageOf(s, ancestor, lo, pageSize, list)
  {
    ListingSpec(s, ancestor);
    SliceAscends(Listing(s, ancestor), lo, list);
  }

  lemma SliceAscends(all: seq<(Id, nat)>, lo: nat, list: seq<(Id, nat)>)
    requires forall i, j :: 0 <= i < j < |all| ==> all[i].0 < all[j].0
    requires forall i :: 0 <= i < |list| ==> lo + i < |all| && list[i] == all[lo + i]
    ensures forall i, j :: 0 <= i < j < |list| ==> list[i].0 < list[j].0
    ensures forall i :: 0 <= i < |list| ==> list[i] in all
  {
  }

  // ---------------------------------------------------------------- service

  /**
   Seeding any tenant id, with its administrator. A valid table stays valid with the same parents, the seeded
   tenant is there with its self row, and the administrator, new or not, belongs to it; no other user changes.
   */
  method SeedRoot(db: Database, root: Id, id: Id, uid: Id)
    requires id > 0
    modifies db
    ensures db.View() == Apply(old(db.View()), root, Seed(id))
    ensures forall f: Forest :: Inv(old(db.View()), root, f) ==>
              exists g: Forest ::
                Inv(db.View(), root, g) && Keeps(old(db.View()), f, db.View(), g) && g.parent == f.parent
    ensures db.tenants == old(db.tenants) + {id} && db.rows.Keys == old(db.rows).Keys + {(id, id)}
    ensures forall k :: k in old(db.rows) ==> db.rows[k] == old(db.rows)[k]
    ensures db.lastId in db.tenants && forall n :: n in db.tenants ==> n <= db.lastId
    ensures db.users == old(db.users)[uid := id]
  {
    db.users := db.users[uid := id];
    var known := db.tenants;
    db.tenants := db.tenants + {id};
    db.rows := InsertIgnore(db.rows, id, id, 0);
    db.lastId := MaxId(known, id);
    forall f: Forest | Inv(old(db.View()), root, f)
      ensures exists g: Forest ::
                Inv(db.View(), root, g) && Keeps(old(db.View()), f, db.View(), g) && g.parent == f.parent
    {
      var g := SeedKeeps(old(db.View()), root, f, id);
    }
  }

  /**
   `admitted` stands for the name and account checks; `admin` is the uid handed out for the administrator account,
   if one is wanted; `io` is whether every statement of the transaction succeeds. An id comes out exactly when the
   session is the root tenant's, the requested parent lies in its subtree and nothing fails; the new tenant is then a
   leaf below that parent, or below the root tenant when none was requested.
   */
  method AdminTenantNew(db: Database, root: Id, sess: Id, parent: Id, admin: Option<Id>, admitted: bool, io: bool)
    returns (id: Id)
    requires root > 0
    modifies db
    ensures sess != root || !admitted || Taken(old(db.users), admin) ==> db.View() == old(db.View()) && id == 0
    ensures sess == root && admitted && !Taken(old(db.users), admin) ==>
              db.View() == Created(old(db.View()), root, parent, io)
    ensures id != 0 ==> id == old(db.lastId) + 1 && db.tenants == old(db.tenants) + {id}
    ensures id == 0 ==> db.tenants == old(db.tenants) && db.rows == old(db.rows)
    ensures db.users == if id != 0 && admin.Some? then old(db.users)[admin.value := id] else old(db.users)
    ensures id != 0 <==>
              && sess == root && admitted && !Taken(old(db.users), admin) && io
              && (parent > 0 ==> (root, parent) in old(db.rows))
              && (if parent > 0 then parent else root) in old(db.tenants)
    ensures id != 0 ==> (if parent > 0 then parent else root, id) in db.rows
    ensures id != 0 ==> forall f: Forest :: Inv(old(db.View()), root, f) ==>
              LeafBelow(old(db.View()), root, f, if parent > 0 then parent else root, id, db.View())
  {
    if sess != root {
      return 0;
    }
    var ancestor := sess;
    if parent > 0 {
      var depth := db.TenantClosureIsDescendant(sess, parent);
      if depth < 0 {
        return 0;
      }
      ancestor := parent;
    }
    if !admitted {
      return 0;
    }
    id := InsertInTransaction(db, ancestor, admin, io);
    if id != 0 {
      CreatedCommit(old(db.View()), root, parent, db.tenants, db.rows);
      CreatedOutcome(old(db.View()), root, parent, db.View());
    }
  }

  /** What a committed creation leaves of any table, and of the table of a forest. */
  lemma CreatedOutcome(s: State, root: Id, parent: Id, u: State)
    requires (parent > 0 ==> (root, parent) in s.rows) && (if parent > 0 then parent else root) in s.tenants
    requires u == Created(s, root, parent, true)
    ensures (if parent > 0 then parent else root, s.lastId + 1) in u.rows
    ensures forall f: Forest :: Inv(s, root, f) ==>
              LeafBelow(s, root, f, if parent > 0 then parent else root, s.lastId + 1, u)
  {
    forall f: Forest | Inv(s, root, f)
      ensures LeafBelow(s, root, f, if parent > 0 then parent else root, s.lastId + 1, u)
    {
      CreatedLeaf(s, root, f, parent);
    }
  }

  /** The tables `u` are those of the forest with the leaf `n` below `p`, at depth 1, exact if they were exact. */
  ghost predicate LeafBelow(s: State, root: Id, f: Forest, p: Id, n: Id, u: State)
  {
    && p in f.level && n !in f.level
    && Inv(u, root, AddLeaf(f, p, n)) && (Exact(s.rows, f) ==> Exact(u.rows, AddLeaf(f, p, n)))
    && DirectRelation(u.rows, p, n)
  }

  lemma CreatedLeaf(s: State, root: Id, f: Forest, parent: Id)
    requires Inv(s, root, f) && (parent > 0 ==> (root, parent) in s.rows)
    requires (if parent > 0 then parent else root) in s.tenants
    ensures LeafBelow(s, root, f, if parent > 0 then parent else root, s.lastId + 1, Created(s, root, parent, true))
  {
    var p, n, u := if parent > 0 then parent else root, s.lastId + 1, Created(s, root, parent, true);
    CreatedBelowParent(s, root, f, parent);
    assert p in ParentRows(u.rows, n);
  }

  /** The administrator's uid is in use already, so its row cannot be inserted. */
  predicate Taken(users: map<Id, Id>, admin: Option<Id>)
  {
    admin.Some? && admin.value in users
  }

  /**
   The tenant row under the next id, and its administrator bound to it; 0 is ErrTenantLimit: the account
   is missing or has a tenant already, so the UPDATE affects no row.
   */
  method TenantInsert(db: Database, admin: Option<Id>) returns (n: Id)
    modifies db`tenants, db`lastId, db`users
    ensures db.lastId == old(db.lastId) + 1 && db.tenants == old(db.tenants) + {db.lastId}
    ensures n == 0 <==> admin.Some? && !(admin.value in old(db.users) && old(db.users)[admin.value] == 0)
    ensures n != 0 ==> n == db.lastId
    ensures db.users == if n != 0 && admin.Some? then old(db.users)[admin.value := n] else old(db.users)
  {
    n := db.lastId + 1;
    db.lastId := n;                          // sequences do not roll back
    db.tenants := db.tenants + {n};
    if admin.Some? {
      if admin.value !in db.users || db.users[admin.value] != 0 {
        return 0;
      }
      db.users := db.users[admin.value := n];
    }
  }

  /**
   The transaction of AdminTenantNew: administrator, tenant row and closure rows together, or at most a used-up id.
   */
  method InsertInTransaction(db: Database, ancestor: Id, admin: Option<Id>, io: bool) returns (id: Id)
    modifies db
    ensures id == 0 <==> ancestor !in old(db.tenants) || !io || Taken(old(db.users), admin)
    ensures id == 0 ==> db.tenants == old(db.tenants) && db.rows == old(db.rows) && db.users == old(db.users)
    ensures id != 0 ==> id == db.lastId && db.tenants == old(db.tenants) + {id}
    ensures id != 0 ==> db.rows == InsertLeaf(old(db.rows), ancestor, id)
    ensures id != 0 ==> db.users == if admin.Some? then old(db.users)[admin.value := id] else old(db.users)
    ensures db.lastId == if Taken(old(db.users), admin) then old(db.lastId) else old(db.lastId) + 1
  {
    if Taken(db.users, admin) {
      return 0;
    }
    var savedTenants, savedRows, savedUsers := db.tenants, db.rows, db.users;
    if admin.Some? {
      db.users := db.users[admin.value := 0];
    }
    var n := TenantInsert(db, admin);
    var fk := n != 0 && ancestor in savedTenants;      // the closure rows reference tenants
    if fk {
      db.TenantClosureInsert(ancestor, n);
    }
    if !fk || !io {
      db.tenants, db.rows, db.users := savedTenants, savedRows, savedUsers;
      return 0;
    }
    id := n;
  }

  /**
   On the table of a forest of all tenants the call goes through exactly when it is permitted, both tenants exist, the
   parent is a new one and lies outside the moved subtree; the subtree then hangs below it. A tenant that has no
   closure rows yet is accepted and gets the rows of its new parent and of the ancestors stored for it.
   */
  method AdminTenantSetParent(db: Database, root: Id, sess: Id, t: Id, p: Id) returns (e: SetParentResult)
    modifies db`rows
    ensures sess != root ==> e == NoAuth && db.View() == old(db.View())
    ensures e == Param <==> sess == root > 0 && (t == 0 || p == 0)
    ensures e == Same <==> sess == root > 0 && t == p != 0
    ensures e == SetParentResult.Root <==> sess == root > 0 && t == root && p != t && p > 0
    ensures sess == root ==> e == SetParentCheck(old(db.View()), root, t, p)
    ensures sess == root ==> db.View() == Apply(old(db.View()), root, SetParent(t, p))
    ensures e != SetParentResult.Move ==> db.rows == old(db.rows)
    ensures forall f: Forest :: Inv(old(db.View()), root, f) ==>
              && (e == SetParentResult.Move <==>
                  && sess == root && 0 < root && 0 < t && 0 < p && t != p && t != root
                  && t in db.tenants && p in db.tenants && ParentOf(f, t) != p && !IsAnc(f, t, p))
              && (e == SetParentResult.Move ==> Inv(db.View(), root, Reparent(f, t, p)))
    ensures forall f: Forest :: Represents(old(db.rows), f) ==>
              (&& sess == root && 0 < root && 0 < t && 0 < p && t != p && t != root
               && t in db.tenants && p in db.tenants && t !in f.level) ==>
                e == SetParentResult.Move && HungBelow(old(db.rows), t, p, db.rows)
  {
    SetParentOutcome(db.View(), root, t, p);
    if root <= 0 || sess != root {
      return NoAuth;
    }
    if t <= 0 || p <= 0 {
      return Param;
    }
    if t == p {
      return Same;
    }
    if t == root {
      return Root;
    }
    if !Found(db.View(), t) || !Found(db.View(), p) {
      return NotFound;
    }
    var depth := db.TenantClosureIsDescendant(p, t);
    if depth == 1 {
      return Unchanged;
    }
    var moved := MoveInTransaction(db, root, t, p);
    e := if moved then Move else Cycle;
  }

  /** What a permitted call does to the table of a forest, and to a tenant without rows. */
  lemma SetParentOutcome(s: State, root: Id, t: Id, p: Id)
    ensures SetParentCheck(s, root, t, p) != SetParentResult.Move ==> Apply(s, root, SetParent(t, p)) == s
    ensures forall f: Forest :: Inv(s, root, f) ==>
              && (SetParentCheck(s, root, t, p) == SetParentResult.Move <==>
                  && 0 < root && 0 < t && 0 < p && t != p && t != root
                  && t in s.tenants && p in s.tenants && ParentOf(f, t) != p && !IsAnc(f, t, p))
              && (SetParentCheck(s, root, t, p) == SetParentResult.Move ==>
                    t in f.level && p in f.level && Inv(Apply(s, root, SetParent(t, p)), root, Reparent(f, t, p)))
    ensures forall f: Forest :: Represents(s.rows, f) ==>
              (&& 0 < root && 0 < t && 0 < p && t != p && t != root
               && t in s.tenants && p in s.tenants && t !in f.level) ==>
                && SetParentCheck(s, root, t, p) == SetParentResult.Move
                && HungBelow(s.rows, t, p, Apply(s, root, SetParent(t, p)).rows)
  {
    forall f: Forest | Inv(s, root, f)
      ensures SetParentCheck(s, root, t, p) == SetParentResult.Move <==>
                && 0 < root && 0 < t && 0 < p && t != p && t != root
                && t in s.tenants && p in s.tenants && ParentOf(f, t) != p && !IsAnc(f, t, p)
      ensures SetParentCheck(s, root, t, p) == SetParentResult.Move ==>
                t in f.level && p in f.level && Inv(Apply(s, root, SetParent(t, p)), root, Reparent(f, t, p))
    {
      SetParentDecides(s, root, f, t, p);
      var g := SetParentKeeps(s, root, f, t, p);
    }
    forall f: Forest | && Represents(s.rows, f) && 0 < root && 0 < t && 0 < p && t != p && t != root
                       && t in s.tenants && p in s.tenants && t !in f.level
      ensures SetParentCheck(s, root, t, p) == SetParentResult.Move
      ensures HungBelow(s.rows, t, p, Apply(s, root, SetParent(t, p)).rows)
    {
      RowlessAccepted(s, root, f, t, p);
    }
  }

  lemma SetParentDecides(s: State, root: Id, f: Forest, t: Id, p: Id)
    requires Inv(s, root, f)
    ensures SetParentCheck(s, root, t, p) == SetParentResult.Move <==>
              && 0 < root && 0 < t && 0 < p && t != p && t != root
              && t in s.tenants && p in s.tenants && ParentOf(f, t) != p && !IsAnc(f, t, p)
  {
    AllFound(s, root, f, t);
    AllFound(s, root, f, p);
    DepthOneIsParent(s.rows, f);
    if && 0 < root && 0 < t && 0 < p && t != p && t != root
       && t in s.tenants && p in s.tenants && ParentOf(f, t) != p {
      SetParentMovable(s, root, f, t, p);
    }
  }

  /** Nobody with at most one parent row is refused for having none. */
  lemma FoundOnForest(s: State, f: Forest, x: Id)
    requires Represents(s.rows, f) && x in s.tenants
    ensures Found(s, x)
  {
    DepthOneIsParent(s.rows, f);
    var ps := ParentRows(s.rows, x);
    assert ps <= {ParentOf(f, x)};
    if ps != {} {
      assert ps == {ParentOf(f, x)};
    }
  }

  lemma RowlessAccepted(s: State, root: Id, f: Forest, t: Id, p: Id)
    requires Represents(s.rows, f) && 0 < root && 0 < t && 0 < p && t != p && t != root
    requires t in s.tenants && p in s.tenants && t !in f.level
    ensures SetParentCheck(s, root, t, p) == SetParentResult.Move
    ensures HungBelow(s.rows, t, p, Apply(s, root, SetParent(t, p)).rows)
  {
    FoundOnForest(s, f, t);
    FoundOnForest(s, f, p);
    RowlessSafe(s.rows, f, t, p);
    SafeRowsStored(s, root, t, p, SafeRows(s.rows, t, p));
  }

  /** A call that finds both tenants, no obstacle and the parent row in place stores these rows. */
  lemma SafeRowsStored(s: State, root: Id, t: Id, p: Id, rows: Rows)
    requires 0 < root && 0 < t && 0 < p && t != p && t != root && Found(s, t) && Found(s, p)
    requires !DirectRelation(s.rows, p, t) && (t, p) !in s.rows && MoveCheck(s.rows, t, p) == Ok
    requires rows == EnsureRows(MoveRows(s.rows, t, p), t, p) && DirectRelation(rows, p, t)
    ensures SetParentCheck(s, root, t, p) == SetParentResult.Move && Apply(s, root, SetParent(t, p)).rows == rows
  {
  }

  /** The serializable transaction of AdminTenantSetParent: the whole move, or no change at all. */
  method MoveInTransaction(db: Database, root: Id, t: Id, p: Id) returns (moved: bool)
    requires t > 0 && p > 0
    modifies db`rows
    ensures moved <==> !(p != root && (t, p) in old(db.rows)) && MoveCheck(old(db.rows), t, p) == Ok &&
                       DirectRelation(EnsureRows(MoveRows(old(db.rows), t, p), t, p), p, t)
    ensures db.rows == if moved then EnsureRows(MoveRows(old(db.rows), t, p), t, p) else old(db.rows)
  {
    var saved := db.rows;
    if p != root && (t, p) in db.rows {
      return false;
    }
    var m := db.TenantClosureUpdateSubtreeV2Safe(t, p);
    if m != Ok {
      db.rows := saved;
      return false;
    }
    moved := true;
  }

  /** The paging loop returns the whole listing: every descendant once. */
  method CollectTenantSubtree(db: Database, ancestor: Id) returns (out: seq<(Id, nat)>)
    ensures out == Listing(db.View(), ancestor)
  {
    out := [];
    var all := Listing(db.View(), ancestor);
    var page := 1;
    while true
      invariant page >= 1
      invariant |out| == Offset(page, PAGE_SIZE) <= |all|
      invariant out == all[..|out|]
      decreases |all| - |out|
    {
      var list := db.TenantListByAncestorID(ancestor, page, PAGE_SIZE);
      PageIsNext(all, page, PAGE_SIZE, |out|);
      if |list| == 0 {
        break;
      }
      out := out + list;
      if |list| < PAGE_SIZE {
        break;
      }
      page := page + 1;
    }
  }

  /** Always reading page 1, the loop ends with no user of the tenant left, unless a deletion fails. */
  method DeleteUsersByTenant(db: Database, tenant: Id, budget: nat) returns (ok: bool)
    modifies db`users
    ensures ok ==> UsersOf(db.users, tenant) == {}
    ensures forall u :: u in old(db.users) && old(db.users)[u] != tenant ==>
              u in db.users && db.users[u] == old(db.users)[u]
    ensures forall u :: u in db.users ==> u in old(db.users) && db.users[u] == old(db.users)[u]
    ensures ok <==> budget >= |UsersOf(old(db.users), tenant)|
  {
    var left := budget;
    while true
      invariant forall u :: u in old(db.users) && old(db.users)[u] != tenant ==>
                  u in db.users && db.users[u] == old(db.users)[u]
      invariant forall u :: u in db.users ==> u in old(db.users) && db.users[u] == old(db.users)[u]
      invariant budget - left == |UsersOf(old(db.users), tenant)| - |UsersOf(db.users, tenant)|
      decreases |UsersOf(db.users, tenant)|
    {
      var page := db.UserQueryByTenant(tenant, PAGE_SIZE);
      if |page| == 0 {
        break;
      }
      ghost var before := UsersOf(db.users, tenant);
      for i := 0 to |page|
        invariant forall u :: u in old(db.users) && old(db.users)[u] != tenant ==>
                    u in db.users && db.users[u] == old(db.users)[u]
        invariant forall u :: u in db.users ==> u in old(db.users) && db.users[u] == old(db.users)[u]
        invariant forall j :: i <= j < |page| ==> page[j] in db.users && db.users[page[j]] == tenant
        invariant |UsersOf(db.users, tenant)| == |before| - i
        invariant budget - left == |UsersOf(old(db.users), tenant)| - |UsersOf(db.users, tenant)|
      {
        var u := page[i];
        assert u in UsersOf(db.users, tenant);
        if left == 0 {
          return false;
        }
        left := left - 1;
        ghost var was := UsersOf(db.users, tenant);
        db.users := db.users - {u};
        assert UsersOf(db.users, tenant) == was - {u};
      }
      if |page| < PAGE_SIZE {
        break;
      }
    }
    return true;
  }

  /** The direct children among the listed descendants, in listing order. */
  function DirectOnes(list: seq<(Id, nat)>, t: Id): seq<Id>
    decreases |list|
  {
    if list == [] then []
    else
      var last := list[|list| - 1];
      DirectOnes(list[..|list| - 1], t) + if last.1 != 1 || last.0 == t then [] else [last.0]
  }

  lemma {:induction false} DirectOnesSpec(list: seq<(Id, nat)>, t: Id)
    requires forall i, j :: 0 <= i < j < |list| ==> list[i].0 < list[j].0
    ensures Ascending(DirectOnes(list, t))
    ensures forall c :: c in DirectOnes(list, t) <==> c != t && (c, 1) in list
    decreases |list|
  {
    if list == [] {
    } else {
      var init, last := list[..|list| - 1], list[|list| - 1];
      DirectOnesSpec(init, t);
      assert list == init + [last];
      assert forall c :: (c, 1) in list <==> (c, 1) in init || last == (c, 1);
      forall c | c in DirectOnes(init, t)
        ensures c < last.0
      {
        var i :| 0 <= i < |init| && init[i] == (c, 1);
        assert list[i] == init[i];
      }
      AscendingAppend(DirectOnes(init, t), last.0);
    }
  }

  /** The children the deletion loop picks are the direct children, each once. */
  lemma ListedChildren(s: State, t: Id)
    ensures DirectOnes(Listing(s, t), t) == Children(s, t)
  {
    var list := Listing(s, t);
    ListingSpec(s, t);
    DirectOnesSpec(list, t);
    AscendingUnique(DirectOnes(list, t), Children(s, t));
  }

  datatype DeleteResult = Done | Refused | Missing | Failed

  /** The re-parenting loop of AdminTenantDelete: a prefix of the children hangs below the root tenant. */
  method ReparentChildren(db: Database, root: Id, t: Id, subtree: seq<(Id, nat)>, stop: nat)
    returns (ok: bool, ghost moved: nat)
    modifies db`rows
    ensures moved <= Accepted(old(db.View()), root, DirectOnes(subtree, t)) &&
              (ok ==> moved == |DirectOnes(subtree, t)|)
    ensures db.View() == MovedAll(old(db.View()), root, DirectOnes(subtree, t)[..moved])
    ensures var cs := DirectOnes(subtree, t); ok <==> |cs| <= stop && Accepted(old(db.View()), root, cs) == |cs|
  {
    ghost var s0, cs := db.View(), DirectOnes(subtree, t);
    moved := 0;
    var left := stop;
    for i := 0 to |subtree|
      invariant moved == |DirectOnes(subtree[..i], t)| <= |cs| && moved + left == stop
      invariant db.View() == MovedAll(s0, root, cs[..moved])
      invariant Accepted(s0, root, cs[..moved]) == moved
    {
      var child := subtree[i];
      NextChild(subtree, i, t);
      if child.1 != 1 || child.0 == t {
        continue;
      }
      AcceptedPrefix(s0, root, cs, moved);
      if left == 0 {
        return false, moved;
      }
      MovedAllNext(s0, root, cs, moved);
      var r := AdminTenantSetParent(db, root, root, child.0, root);
      if r != Move && r != Unchanged {
        AcceptedStops(s0, root, cs, moved);
        return false, moved;
      }
      AcceptedNext(s0, root, cs, moved);
      moved, left := moved + 1, left - 1;
    }
    assert subtree[..|subtree|] == subtree && cs[..|cs|] == cs;
    return true, moved;
  }

  /** The next listed descendant is skipped, or is the next child. */
  lemma NextChild(subtree: seq<(Id, nat)>, i: nat, t: Id)
    requires i < |subtree|
    ensures var cs, m := DirectOnes(subtree, t), |DirectOnes(subtree[..i], t)|;
            if subtree[i].1 != 1 || subtree[i].0 == t then |DirectOnes(subtree[..i + 1], t)| == m
            else |DirectOnes(subtree[..i + 1], t)| == m + 1 && m < |cs| && cs[m] == subtree[i].0
  {
    assert subtree[..i + 1][..i] == subtree[..i];
    DirectOnesPrefix(subtree, i + 1, t);
  }

  /** Collect the subtree and re-parent the children; the tables are those of a deletion cut off here. */
  method MoveChildrenAway(db: Database, root: Id, t: Id, stop: nat) returns (ok: bool, ghost n: nat)
    requires 0 < root && 0 < t != root && Found(db.View(), t)
    modifies db`rows
    ensures ok <==> |Children(old(db.View()), t)| <= stop && Vacates(old(db.View()), root, t)
    ensures db.View() == Deleted(old(db.View()), root, t, n)
    ensures ok ==> n == |Children(old(db.View()), t)|
    ensures ok ==> Removed(db.View(), t) == Deleted(old(db.View()), root, t, n + 1)
  {
    ghost var s0 := db.View();
    var subtree := CollectTenantSubtree(db, t);
    ListedChildren(s0, t);
    ok, n := ReparentChildren(db, root, t, subtree, stop);
    DeletedPrefix(s0, root, t, n);
  }

  /** AdminTenantDelete past its checks. */
  method DeleteFound(db: Database, root: Id, t: Id, stop: nat, budget: nat, related: bool, last: bool)
    returns (ok: bool, ghost n: nat)
    requires 0 < root && 0 < t != root && Found(db.View(), t)
    modifies db
    ensures ok <==> NothingFails(old(db.View()), old(db.users), root, t, stop, budget) && related && last
    ensures db.View() == Deleted(old(db.View()), root, t, n) && (ok ==> n == |Children(old(db.View()), t)| + 1)
    ensures ok ==> UsersOf(db.users, t) == {}
    ensures forall u :: u in db.users ==> u in old(db.users) && db.users[u] == old(db.users)[u]
    ensures forall u :: u in old(db.users) && old(db.users)[u] != t ==> u in db.users
  {
    ok, n := MoveChildrenAway(db, root, t, stop);
    if ok {
      ok := DeleteOwnData(db, t, budget, related, last);
    }
    n := if ok then n + 1 else n;
  }

  /** The tenant's users, its departments and permissions, and last its row. */
  method DeleteOwnData(db: Database, t: Id, budget: nat, related: bool, last: bool) returns (ok: bool)
    modifies db
    ensures ok <==> |UsersOf(old(db.users), t)| <= budget && related && last
    ensures db.View() == if ok then Removed(old(db.View()), t) else old(db.View())
    ensures ok ==> UsersOf(db.users, t) == {}
    ensures forall u :: u in db.users ==> u in old(db.users) && db.users[u] == old(db.users)[u]
    ensures forall u :: u in old(db.users) && old(db.users)[u] != t ==> u in db.users
  {
    ok := DeleteUsersByTenant(db, t, budget);
    if !ok || !related || !last {
      return false;
    }
    DeleteTenantRecord(db, t);
  }

  /** No child is refused, and there are enough successful child moves and user deletions. */
  ghost predicate NothingFails(s: State, users: map<Id, Id>, root: Id, t: Id, stop: nat, budget: nat)
  {
    && |Children(s, t)| <= stop && Vacates(s, root, t)
    && |UsersOf(users, t)| <= budget
  }

  /**
   AdminTenantDelete. `stop` child moves succeed before an I/O failure and `budget` user deletions do;
   `related` and `last` say whether the deletions of departments and permissions and of the tenant row work.
   However it ends, the tables are those of some prefix of the deletion and other tenants' users are untouched;
   it completes, with the tenant, its users and its closure rows gone, exactly when nothing fails.
   */
  method AdminTenantDelete(db: Database, root: Id, sess: Id, t: Id, stop: nat, budget: nat, related: bool, last: bool)
    returns (e: DeleteResult)
    modifies db
    ensures e == Refused <==> sess != root || root == 0 || t == 0 || t == root
    ensures e == Missing <==> sess == root && 0 < root && 0 < t != root && !Found(old(db.View()), t)
    ensures e == Refused || e == Missing ==> db.View() == old(db.View())
    ensures sess == root ==> exists n :: db.View() == Deleted(old(db.View()), root, t, n)
    ensures e == Done ==> db.View() == Deleted(old(db.View()), root, t, |Children(old(db.View()), t)| + 1)
    ensures e == Done ==> UsersOf(db.users, t) == {}
    ensures forall u :: u in db.users ==> u in old(db.users) && db.users[u] == old(db.users)[u]
    ensures forall u :: u in old(db.users) && (old(db.users)[u] != t || sess != root) ==> u in db.users
    ensures e == Done <==>
              && sess == root && 0 < root && 0 < t != root && Found(old(db.View()), t)
              && NothingFails(old(db.View()), old(db.users), root, t, stop, budget) && related && last
  {
    ghost var s0 := db.View();
    if sess != root || root <= 0 || t <= 0 || t == root {
      assert sess == root ==> db.View() == Deleted(s0, root, t, 0);
      return Refused;
    }
    if !Found(db.View(), t) {
      assert db.View() == Deleted(s0, root, t, 0);
      return Missing;
    }
    var ok, n := DeleteFound(db, root, t, stop, budget, related, last);
    e := if ok then Done else Failed;
  }

  /** On a valid table every tenant is found, and children are refused only when the root tenant is missing. */
  lemma ValidDeletion(s: State, root: Id, f: Forest, t: Id)
    requires Inv(s, root, f) && 0 < root && t in s.tenants && t != root
    ensures Found(s, t) && 0 < t
    ensures Vacates(s, root, t) <==> root in s.tenants || Children(s, t) == []
  {
    AcceptedChildren(s, root, f, t);
    InvFound(s, root, f, t);
  }

  /** The final DELETE and its cascade. */
  method DeleteTenantRecord(db: Database, t: Id)
    modifies db`tenants, db`rows
    ensures db.View() == Removed(old(db.View()), t)
    ensures db.tenants == old(db.tenants) - {t}
    ensures forall k :: k in db.rows <==> k in old(db.rows) && k.0 != t && k.1 != t
    ensures forall k :: k in db.rows ==> db.rows[k] == old(db.rows)[k]
    ensures forall f: Forest :: Represents(old(db.rows), f) && (forall x :: x in f.parent ==> f.parent[x] != t) ==>
              Represents(db.rows, RemoveLeaf(f, t)) && (Exact(old(db.rows), f) ==> Exact(db.rows, RemoveLeaf(f, t)))
  {
    db.tenants := db.tenants - {t};
    db.rows := Cascade(db.rows, t);
    forall f: Forest | Represents(old(db.rows), f) && (forall x :: x in f.parent ==> f.parent[x] != t)
      ensures Represents(db.rows, RemoveLeaf(f, t)) && (Exact(old(db.rows), f) ==> Exact(db.rows, RemoveLeaf(f, t)))
    {
      CascadeRepresents(old(db.rows), f, t);
    }
  }

  lemma {:induction false} DirectOnesPrefix(list: seq<(Id, nat)>, i: nat, t: Id)
    requires i <= |list|
    ensures DirectOnes(list[..i], t) <= DirectOnes(list, t)
    decreases |list| - i
  {
    if i < |list| {
      DirectOnesPrefix(list, i + 1, t);
      assert list[..i + 1][..i] == list[..i];
    } else {
      assert list[..i] == list;
    }
  }
}
