/**
 The tenant tree as a state machine: seeding the root tenant, creating, re-parenting and deleting
 tenants, in any order and with any call refused, rolled back or cut short.
 */
module TenantTree {
  import opened Forest
  import opened Closure
  import opened ClosureMove
  import opened ClosureLeaf
  import opened Sets

  /** The `tenants` ids, the `tenant_closure` rows and the last value of the id sequence. */
  datatype State = State(tenants: set<Id>, rows: Rows, lastId: nat)

  /**
   Seeding takes any tenant id, the configured root's or another. `io` tells whether the creating transaction
   commits; `stop` is how many child moves a deletion completes before an I/O failure; past the last child it completes.
   */
  datatype Op = Seed(id: Id) | New(parent: Id, io: bool) | SetParent(t: Id, p: Id) | Delete(t: Id, stop: nat)

  function MaxId(s: set<Id>, least: nat): (m: nat)
    ensures least <= m && forall x :: x in s ==> x <= m
    ensures m == least || m in s
  {
    var o := Sorted(s);
    assert forall x :: x in s ==> x in o;
    if s == {} || o[|o| - 1] <= least then least else o[|o| - 1]
  }

  /** SeedRoot: upsert the tenant and its self row, then set the sequence to the largest id in use. */
  function Seeded(s: State, id: Id): State
  {
    State(s.tenants + {id}, InsertIgnore(s.rows, id, id, 0), MaxId(s.tenants, id))
  }

  /** AdminTenantNew's transaction: a fresh id, then its closure rows. */
  function Added(s: State, p: Id): State
  {
    var n := s.lastId + 1;
    State(s.tenants + {n}, InsertLeaf(s.rows, p, n), n)
  }

  /** The requested parent, or the session's root tenant when none is given. */
  function NewParent(root: Id, parent: Id): Id
  {
    if parent > 0 then parent else root
  }

  /** AdminTenantNew: refused outside the session tenant's subtree; a failed transaction only uses up an id. */
  function Created(s: State, root: Id, parent: Id, io: bool): State
  {
    var p := NewParent(root, parent);
    if parent > 0 && (root, parent) !in s.rows then s
    else if p !in s.tenants || !io then s.(lastId := s.lastId + 1)     // foreign key, or any other failure
    else Added(s, p)
  }

  lemma CreatedCommit(s: State, root: Id, parent: Id, tenants: set<Id>, rows: Rows)
    requires (parent > 0 ==> (root, parent) in s.rows) && NewParent(root, parent) in s.tenants
    requires tenants == s.tenants + {s.lastId + 1} && rows == InsertLeaf(s.rows, NewParent(root, parent), s.lastId + 1)
    ensures State(tenants, rows, s.lastId + 1) == Created(s, root, parent, true)
  {
  }

  /** `LEFT JOIN tenant_closure tp ON tp.descendant_id = t.id AND tp.depth = 1` */
  function ParentRows(r: Rows, t: Id): set<Id>
  {
    set a | a in Above(r, t) && r[(a, t)] == 1
  }

  /** TenantGetByID returns a tenant only when the join gives exactly one row. */
  predicate Found(s: State, t: Id)
  {
    t in s.tenants && |ParentRows(s.rows, t)| <= 1
  }

  datatype SetParentResult = NoAuth | Param | Same | Root | NotFound | Unchanged | Cycle | Move

  /** AdminTenantSetParent's decision. */
  function SetParentCheck(s: State, root: Id, t: Id, p: Id): SetParentResult
  {
    if root <= 0 then NoAuth
    else if t <= 0 || p <= 0 then Param
    else if t == p then Same
    else if t == root then Root
    else if !Found(s, t) || !Found(s, p) then NotFound
    else if DirectRelation(s.rows, p, t) then Unchanged
    else if p != root && (t, p) in s.rows then Cycle
    else if MoveCheck(s.rows, t, p) != Ok then Cycle
    else if !DirectRelation(EnsureRows(MoveRows(s.rows, t, p), t, p), p, t) then Cycle
    else Move
  }

  function Moved(s: State, root: Id, t: Id, p: Id): State
  {
    if SetParentCheck(s, root, t, p) == Move then s.(rows := EnsureRows(MoveRows(s.rows, t, p), t, p)) else s
  }

  /** The direct children that the subtree listing shows, by id. */
  function Children(s: State, t: Id): seq<Id>
  {
    Sorted(set c | c in Below(s.rows, t) && c in s.tenants && s.rows[(t, c)] == 1 && c != t)
  }

  function MovedAll(s: State, root: Id, cs: seq<Id>): State
    decreases |cs|
  {
    if cs == [] then s else Moved(MovedAll(s, root, cs[..|cs| - 1]), root, cs[|cs| - 1], root)
  }

  lemma MovedAllNext(s: State, root: Id, cs: seq<Id>, i: nat)
    requires i < |cs|
    ensures MovedAll(s, root, cs[..i + 1]) == Moved(MovedAll(s, root, cs[..i]), root, cs[i], root)
  {
    assert cs[..i + 1][..i] == cs[..i];
  }

  function Removed(s: State, t: Id): State
  {
    State(s.tenants - {t}, Cascade(s.rows, t), s.lastId)
  }

  /** AdminTenantSetParent reports no error for this child. */
  predicate Accepts(s: State, root: Id, c: Id)
  {
    SetParentCheck(s, root, c, root) == Move || SetParentCheck(s, root, c, root) == Unchanged
  }

  /** How many children are re-parented, one after the other, before one is refused. */
  function Accepted(s: State, root: Id, cs: seq<Id>): (n: nat)
    ensures n <= |cs|
    decreases |cs|
  {
    if cs == [] then 0
    else
      var init := cs[..|cs| - 1];
      var n := Accepted(s, root, init);
      if n == |init| && Accepts(MovedAll(s, root, init), root, cs[|cs| - 1]) then |cs| else n
  }

  lemma {:induction false} AcceptedPrefix(s: State, root: Id, cs: seq<Id>, i: nat)
    requires i <= |cs| && Accepted(s, root, cs[..i]) == i
    ensures i <= Accepted(s, root, cs)
    decreases |cs|
  {
    if i == |cs| {
      assert cs[..i] == cs;
    } else {
      var init := cs[..|cs| - 1];
      assert init[..i] == cs[..i];
      AcceptedPrefix(s, root, init, i);
    }
  }

  /** Nothing after a refused child counts. */
  lemma {:induction false} AcceptedStops(s: State, root: Id, cs: seq<Id>, i: nat)
    requires i < |cs| && Accepted(s, root, cs[..i]) == i && !Accepts(MovedAll(s, root, cs[..i]), root, cs[i])
    ensures Accepted(s, root, cs) == i
    decreases |cs|
  {
    var init := cs[..|cs| - 1];
    if i == |cs| - 1 {
    } else {
      assert init[..i] == cs[..i];
      AcceptedStops(s, root, init, i);
    }
  }

  lemma AcceptedNext(s: State, root: Id, cs: seq<Id>, i: nat)
    requires i < |cs| && Accepted(s, root, cs[..i]) == i && Accepts(MovedAll(s, root, cs[..i]), root, cs[i])
    ensures Accepted(s, root, cs[..i + 1]) == i + 1
  {
    assert cs[..i + 1][..i] == cs[..i];
  }

  /** No child of `t` is refused. */
  predicate Vacates(s: State, root: Id, t: Id)
  {
    Accepted(s, root, Children(s, t)) == |Children(s, t)|
  }

  /**
   AdminTenantDelete: re-parent the children one by one until one is refused; after the last, delete the tenant row.
   */
  function Deleted(s: State, root: Id, t: Id, stop: nat): State
  {
    if root <= 0 || t <= 0 || t == root || !Found(s, t) then s
    else
      var cs := Children(s, t);
      var n := Accepted(s, root, cs);
      if stop <= n then MovedAll(s, root, cs[..stop])
      else if n < |cs| then MovedAll(s, root, cs[..n])
      else Removed(MovedAll(s, root, cs), t)
  }

  /** What a deletion has done after `moved` child moves, and when it completes. */
  lemma DeletedPrefix(s: State, root: Id, t: Id, moved: nat)
    requires 0 < root && 0 < t != root && Found(s, t) && moved <= Accepted(s, root, Children(s, t))
    ensures MovedAll(s, root, Children(s, t)[..moved]) == Deleted(s, root, t, moved)
    ensures moved == |Children(s, t)| ==>
              Removed(MovedAll(s, root, Children(s, t)[..moved]), t) == Deleted(s, root, t, moved + 1)
  {
    var cs := Children(s, t);
    if moved == |cs| {
      assert cs[..moved] == cs;
    }
  }

  function Apply(s: State, root: Id, op: Op): State
  {
    match op
    case Seed(id) => if id > 0 then Seeded(s, id) else s
    case New(parent, io) => Created(s, root, parent, io)
    case SetParent(t, p) => Moved(s, root, t, p)
    case Delete(t, stop) => Deleted(s, root, t, stop)
  }

  function Run(s: State, root: Id, ops: seq<Op>): State
    decreases |ops|
  {
    if ops == [] then s else Apply(Run(s, root, ops[..|ops| - 1]), root, ops[|ops| - 1])
  }

  /** An empty database. */
  predicate Initial(s: State)
  {
    s.tenants == {} && s.rows == map[]
  }

  // ---------------------------------------------------------------- the invariant

  /** The table stands for the forest `f` of all tenants; the configured root, once it is there, has no parent. */
  ghost predicate Inv(s: State, root: Id, f: Forest)
  {
    && Represents(s.rows, f)
    && f.level.Keys == s.tenants
    && root !in f.parent
    && forall n :: n in s.tenants ==> n <= s.lastId
  }

  /** What the tables are allowed to lose: nothing but exactness of depths above 1. */
  ghost predicate Keeps(s: State, f: Forest, s': State, g: Forest)
  {
    Exact(s.rows, f) ==> Exact(s'.rows, g)
  }

  /** With one parent at most, every tenant is found, with its parent in the forest. */
  lemma AllFound(s: State, root: Id, f: Forest, t: Id)
    requires Inv(s, root, f)
    ensures Found(s, t) <==> t in s.tenants
    ensures ParentRows(s.rows, t) == if t in f.parent then {f.parent[t]} else {}
  {
    DepthOneIsParent(s.rows, f);
    if t in f.parent {
      assert (f.parent[t], t) in s.rows;
      assert ParentRows(s.rows, t) == {f.parent[t]};
    } else {
      assert ParentRows(s.rows, t) == {};
    }
  }

  lemma RootIsTop(f: Forest, root: Id, a: Id)
    requires Valid(f) && root !in f.parent && IsAnc(f, a, root)
    ensures a == root
  {
  }

  lemma SeedKeeps(s: State, root: Id, f: Forest, id: Id) returns (g: Forest)
    requires Inv(s, root, f) && id > 0
    ensures Inv(Seeded(s, id), root, g) && Keeps(s, f, Seeded(s, id), g)
    ensures g.parent == f.parent
  {
    assert id in f.level <==> (id, id) in s.rows by { assert id in f.level <==> IsAnc(f, id, id); }
    if id in f.level {
      g := f;
      assert InsertIgnore(s.rows, id, id, 0) == s.rows;
    } else {
      SelfRowRepresents(s.rows, f, id);
      g := AddRoot(f, id);
    }
    SeedInv(s, root, f, id, InsertIgnore(s.rows, id, id, 0), g);
  }

  lemma SeedInv(s: State, root: Id, f: Forest, id: Id, rows: Rows, g: Forest)
    requires Inv(s, root, f) && Represents(rows, g)
    requires g.parent == f.parent && g.level.Keys == f.level.Keys + {id}
    ensures Inv(State(s.tenants + {id}, rows, MaxId(s.tenants, id)), root, g)
  {
  }

  /** A creation that succeeds finds the session's tenant, the configured root, among the tenants. */
  lemma CreatorExists(s: State, root: Id, f: Forest, parent: Id)
    requires Inv(s, root, f) && NewParent(root, parent) in s.tenants && (parent > 0 ==> (root, parent) in s.rows)
    ensures root in s.tenants
  {
    if parent > 0 {
      AncBounds(f, root, parent);
    }
  }

  lemma NewKeeps(s: State, root: Id, f: Forest, p: Id) returns (g: Forest)
    requires Inv(s, root, f) && p in s.tenants && root in s.tenants
    ensures Inv(Added(s, p), root, g) && Keeps(s, f, Added(s, p), g)
    ensures g == AddLeaf(f, p, s.lastId + 1)
    ensures forall x :: x != s.lastId + 1 ==> ParentOf(g, x) == ParentOf(f, x)
  {
    var n := s.lastId + 1;
    InsertRepresents(s.rows, f, p, n);
    g := AddLeaf(f, p, n);
    NewInv(s, root, f, p, InsertLeaf(s.rows, p, n));
  }

  lemma NewInv(s: State, root: Id, f: Forest, p: Id, rows: Rows)
    requires Inv(s, root, f) && p in f.level && root in s.tenants && Represents(rows, AddLeaf(f, p, s.lastId + 1))
    ensures Inv(State(s.tenants + {s.lastId + 1}, rows, s.lastId + 1), root, AddLeaf(f, p, s.lastId + 1))
  {
  }

  /** A committed creation hangs the new tenant below the requested parent, or below the root if none was given. */
  lemma CreatedBelowParent(s: State, root: Id, f: Forest, parent: Id)
    requires Inv(s, root, f) && (parent > 0 ==> (root, parent) in s.rows)
    requires (if parent > 0 then parent else root) in s.tenants
    ensures var p, n, e := if parent > 0 then parent else root, s.lastId + 1, Created(s, root, parent, true);
            && n !in s.tenants && e.tenants == s.tenants + {n}
            && Inv(e, root, AddLeaf(f, p, n)) && Keeps(s, f, e, AddLeaf(f, p, n))
            && ParentRows(e.rows, n) == {p}
  {
    CreatorExists(s, root, f, parent);
    var p, n, e := if parent > 0 then parent else root, s.lastId + 1, Created(s, root, parent, true);
    var g := NewKeeps(s, root, f, p);
    AllFound(e, root, g, n);
  }

  /** On a valid table SetParent never fails after its checks, and the checks leave only real moves. */
  lemma SetParentMovable(s: State, root: Id, f: Forest, t: Id, p: Id)
    requires Inv(s, root, f) && root > 0 && t > 0 && p > 0 && t != p && t != root
    requires t in s.tenants && p in s.tenants && ParentOf(f, t) != p
    ensures SetParentCheck(s, root, t, p) == Move <==> !IsAnc(f, t, p)
    ensures !IsAnc(f, t, p) ==> Movable(f, t, p) && EnsureRows(MoveRows(s.rows, t, p), t, p) == MoveRows(s.rows, t, p)
  {
    DepthOneIsParent(s.rows, f);
    AllFound(s, root, f, t);
    AllFound(s, root, f, p);
    if !IsAnc(f, t, p) {
      SafeMoveIsPlainMove(s.rows, f, t, p);
    }
  }

  lemma SetParentKeeps(s: State, root: Id, f: Forest, t: Id, p: Id) returns (g: Forest)
    requires Inv(s, root, f)
    ensures Inv(Moved(s, root, t, p), root, g)
    ensures SetParentCheck(s, root, t, p) == Move ==> Valid(f) && Movable(f, t, p) && g == Reparent(f, t, p)
    ensures SetParentCheck(s, root, t, p) != Move ==> g == f && Moved(s, root, t, p) == s
    ensures forall x :: x != t ==> ParentOf(g, x) == ParentOf(f, x)
  {
    g := f;
    if SetParentCheck(s, root, t, p) == Move {
      SetParentMoves(s, root, f, t, p);
      MovedForest(s, root, f, t, p, Moved(s, root, t, p));
      g := Reparent(f, t, p);
    } else {
      assert Moved(s, root, t, p) == s;
    }
  }

  /** What an accepted call has found, and the rows it leaves. */
  lemma SetParentMoves(s: State, root: Id, f: Forest, t: Id, p: Id)
    requires Inv(s, root, f) && SetParentCheck(s, root, t, p) == Move
    ensures t != root && p != 0 && Movable(f, t, p)
    ensures Moved(s, root, t, p) == s.(rows := MoveRows(s.rows, t, p))
  {
    DepthOneIsParent(s.rows, f);
    SetParentMovable(s, root, f, t, p);
  }

  lemma MovedForest(s: State, root: Id, f: Forest, t: Id, p: Id, u: State)
    requires Inv(s, root, f) && t != root && p != 0 && Movable(f, t, p) && u == s.(rows := MoveRows(s.rows, t, p))
    ensures Inv(u, root, Reparent(f, t, p))
    ensures forall x :: x != t ==> ParentOf(Reparent(f, t, p), x) == ParentOf(f, x)
  {
    MoveRepresents(s.rows, f, t, p);
  }

  // ---------------------------------------------------------------- deletion

  lemma ChildrenAreChildren(s: State, root: Id, f: Forest, t: Id)
    requires Inv(s, root, f)
    ensures forall c :: c in Children(s, t) <==> c in f.parent && f.parent[c] == t
  {
    DepthOneIsParent(s.rows, f);
    forall c: Id
      ensures c in Children(s, t) <==> c in f.parent && f.parent[c] == t
    {
      if c in f.parent && f.parent[c] == t {
        assert (t, c) in s.rows;
      }
    }
  }

  /** The root tenant accepts any node that is not its child yet. */
  lemma RootAcceptsChild(s: State, root: Id, f: Forest, c: Id)
    requires Inv(s, root, f) && 0 < root && root in s.tenants && c in f.parent && f.parent[c] != root
    ensures SetParentCheck(s, root, c, root) == Move
  {
    assert c in f.level && c > 0;
    if IsAnc(f, c, root) {
      RootIsTop(f, root, c);
      assert false;
    }
    SetParentMovable(s, root, f, c, root);
  }

  /** Hanging a child below the root tenant always succeeds and keeps exact depths exact. */
  lemma MoveToRoot(s: State, root: Id, f: Forest, c: Id) returns (g: Forest)
    requires Inv(s, root, f) && 0 < root && root in s.tenants && c in f.parent && f.parent[c] != root
    ensures Inv(Moved(s, root, c, root), root, g) && Keeps(s, f, Moved(s, root, c, root), g)
    ensures g.parent == f.parent[c := root] && Moved(s, root, c, root).tenants == s.tenants
  {
    RootAcceptsChild(s, root, f, c);
    SetParentMovable(s, root, f, c, root);
    g := SetParentKeeps(s, root, f, c, root);
    if Exact(s.rows, f) {
      RootMoveIsCloser(s, root, f, c);
      MoveStaysExactIff(s.rows, f, c, root);
    }
  }

  lemma RootMoveIsCloser(s: State, root: Id, f: Forest, c: Id)
    requires Inv(s, root, f) && c in f.parent && c != root
    ensures NothingGetsFurther(s.rows, c, root)
  {
    forall a: Id | a != c && (a, root) in s.rows && (a, c) in s.rows
      ensures s.rows[(a, root)] < s.rows[(a, c)]
    {
      RootIsTop(f, root, a);
      assert DepthOk(f, a, root, s.rows[(a, root)]) && DepthOk(f, a, c, s.rows[(a, c)]);
    }
  }

  /** Every prefix of the re-parenting loop has moved exactly its children to the root tenant. */
  lemma {:induction false} MovedAllKeeps(s: State, root: Id, f: Forest, t: Id, cs: seq<Id>) returns (g: Forest)
    requires Inv(s, root, f) && 0 < root && root in s.tenants && t != root
    requires Ascending(cs) && forall c :: c in cs ==> c in f.parent && f.parent[c] == t
    ensures Inv(MovedAll(s, root, cs), root, g) && Keeps(s, f, MovedAll(s, root, cs), g)
    ensures MovedAll(s, root, cs).tenants == s.tenants && MovedAll(s, root, cs).lastId == s.lastId
    ensures g.parent.Keys == f.parent.Keys
    ensures forall x :: x in f.parent ==> g.parent[x] == if x in cs then root else f.parent[x]
    decreases |cs|
  {
    if cs == [] {
      g := f;
    } else {
      var init, c := cs[..|cs| - 1], cs[|cs| - 1];
      assert forall x :: x in cs <==> x in init || x == c;
      var h := MovedAllKeeps(s, root, f, t, init);
      assert c !in init;
      g := OneMoreChild(s, root, f, t, init, MovedAll(s, root, init), h, c);
    }
  }

  /** One round of the re-parenting loop, from a state in which `done` has been moved. */
  lemma OneMoreChild(s: State, root: Id, f: Forest, t: Id, done: seq<Id>, u: State, h: Forest, c: Id)
    returns (g: Forest)
    requires Inv(u, root, h) && Keeps(s, f, u, h) && 0 < root && root in u.tenants && t != root
    requires h.parent.Keys == f.parent.Keys
    requires forall x :: x in f.parent ==> h.parent[x] == if x in done then root else f.parent[x]
    requires c !in done && c in f.parent && f.parent[c] == t
    ensures var v := Moved(u, root, c, root);
            Inv(v, root, g) && Keeps(s, f, v, g) && v.tenants == u.tenants && v.lastId == u.lastId
    ensures g.parent.Keys == f.parent.Keys
    ensures forall x :: x in f.parent ==> g.parent[x] == if x in done || x == c then root else f.parent[x]
  {
    g := MoveToRoot(u, root, h, c);
  }

  /** These are children of `t`, and the root tenant is there to take them. */
  ghost predicate Reparentable(s: State, root: Id, f: Forest, t: Id, cs: seq<Id>)
  {
    && Inv(s, root, f) && 0 < root && root in s.tenants && t != root
    && Ascending(cs) && forall c :: c in cs ==> c in f.parent && f.parent[c] == t
  }

  /** On a valid table no child move of a deletion is refused. */
  lemma ChildMoves(s: State, root: Id, f: Forest, t: Id, cs: seq<Id>, i: nat)
    requires Reparentable(s, root, f, t, cs) && i < |cs|
    ensures SetParentCheck(MovedAll(s, root, cs[..i]), root, cs[i], root) == Move
  {
    var g := MovedAllKeeps(s, root, f, t, cs[..i]);
    assert cs[i] in cs && cs[i] !in cs[..i];
    RootAcceptsChild(MovedAll(s, root, cs[..i]), root, g, cs[i]);
  }

  lemma {:induction false} AllAccepted(s: State, root: Id, f: Forest, t: Id, cs: seq<Id>, i: nat)
    requires Reparentable(s, root, f, t, cs) && i <= |cs|
    ensures Accepted(s, root, cs[..i]) == i
    decreases i
  {
    if i == 0 {
    } else {
      AllAccepted(s, root, f, t, cs, i - 1);
      ChildMoves(s, root, f, t, cs, i - 1);
      AcceptedNext(s, root, cs, i - 1);
    }
  }

  lemma {:induction false} NoneAccepted(s: State, root: Id, cs: seq<Id>)
    requires root !in s.tenants
    ensures Accepted(s, root, cs) == 0
    decreases |cs|
  {
    if cs == [] {
    } else {
      NoneAccepted(s, root, cs[..|cs| - 1]);
      assert !Accepts(s, root, cs[|cs| - 1]);
    }
  }

  /** All children are accepted if the root tenant exists, none if it does not. */
  lemma AcceptedChildren(s: State, root: Id, f: Forest, t: Id)
    requires Inv(s, root, f) && 0 < root && t != root
    ensures Accepted(s, root, Children(s, t)) == if root in s.tenants then |Children(s, t)| else 0
  {
    var cs := Children(s, t);
    if root in s.tenants {
      ChildrenAreChildren(s, root, f, t);
      AllAccepted(s, root, f, t, cs, |cs|);
      assert cs[..|cs|] == cs;
    } else {
      NoneAccepted(s, root, cs);
    }
  }

  /** The forest after a completed deletion: `t` gone, its children below the root tenant. */
  ghost predicate WithoutTenant(f: Forest, root: Id, t: Id, g: Forest)
  {
    && g.level.Keys == f.level.Keys - {t}
    && g.parent.Keys == f.parent.Keys - {t}
    && forall x :: x in g.parent ==> g.parent[x] == if f.parent[x] == t then root else f.parent[x]
  }

  /**
   A completed deletion removes exactly the target and hangs its children, subtrees and all, below the root tenant.
   */
  lemma DeleteCompletes(s: State, root: Id, f: Forest, t: Id, stop: nat) returns (g: Forest)
    requires Inv(s, root, f) && 0 < root && t in s.tenants && t != root
    requires stop > |Children(s, t)| && (root in s.tenants || Children(s, t) == [])
    ensures Inv(Deleted(s, root, t, stop), root, g) && Keeps(s, f, Deleted(s, root, t, stop), g)
    ensures WithoutTenant(f, root, t, g)
  {
    AllFound(s, root, f, t);
    AcceptedChildren(s, root, f, t);
    g := DeleteForest(s, root, f, t);
  }

  lemma DeleteForest(s: State, root: Id, f: Forest, t: Id) returns (g: Forest)
    requires Inv(s, root, f) && 0 < root && t != root && (root in s.tenants || Children(s, t) == [])
    ensures var e := Removed(MovedAll(s, root, Children(s, t)), t); Inv(e, root, g) && Keeps(s, f, e, g)
    ensures WithoutTenant(f, root, t, g)
  {
    var cs := Children(s, t);
    ChildrenAreChildren(s, root, f, t);
    var h := f;
    if cs != [] {
      h := MovedAllKeeps(s, root, f, t, cs);
    }
    g := RemoveLeaf(h, t);
    RemovedInv(MovedAll(s, root, cs), root, h, t);
    RemovedForest(f, root, t, cs, h);
  }

  lemma RemovedForest(f: Forest, root: Id, t: Id, cs: seq<Id>, h: Forest)
    requires f.level.Keys == h.level.Keys && h.parent.Keys == f.parent.Keys
    requires forall x :: x in f.parent ==> h.parent[x] == if x in cs then root else f.parent[x]
    requires forall c :: c in cs <==> c in f.parent && f.parent[c] == t
    ensures WithoutTenant(f, root, t, RemoveLeaf(h, t))
  {
  }

  lemma RemovedInv(u: State, root: Id, h: Forest, t: Id)
    requires Inv(u, root, h) && t != root && forall x :: x in h.parent ==> h.parent[x] != t
    ensures Inv(Removed(u, t), root, RemoveLeaf(h, t)) && Keeps(u, h, Removed(u, t), RemoveLeaf(h, t))
  {
    CascadeRepresents(u.rows, h, t);
  }

  /** On a valid table a deletion is cut short by I/O failures and by a missing root tenant only. */
  lemma DeletedCases(s: State, root: Id, f: Forest, t: Id, stop: nat)
    requires Inv(s, root, f) && 0 < root && 0 < t != root && Found(s, t)
    ensures var cs := Children(s, t);
            && (root in s.tenants && stop <= |cs| ==> Deleted(s, root, t, stop) == MovedAll(s, root, cs[..stop]))
            && (root !in s.tenants && (cs != [] || stop == 0) ==> Deleted(s, root, t, stop) == s)
  {
    AcceptedChildren(s, root, f, t);
    assert MovedAll(s, root, Children(s, t)[..0]) == s;
  }

  lemma DeleteKeeps(s: State, root: Id, f: Forest, t: Id, stop: nat) returns (g: Forest)
    requires Inv(s, root, f)
    ensures Inv(Deleted(s, root, t, stop), root, g) && Keeps(s, f, Deleted(s, root, t, stop), g)
  {
    g := f;
    if !(root <= 0 || t <= 0 || t == root || !Found(s, t)) {
      var cs := Children(s, t);
      DeletedCases(s, root, f, t, stop);
      if stop > |cs| && (root in s.tenants || cs == []) {
        g := DeleteCompletes(s, root, f, t, stop);
      } else if root in s.tenants {
        ChildrenAreChildren(s, root, f, t);
        g := MovedAllKeeps(s, root, f, t, cs[..stop]);
      }
    }
  }

  // ---------------------------------------------------------------- whole runs

  lemma StepKeeps(s: State, root: Id, f: Forest, op: Op) returns (g: Forest)
    requires Inv(s, root, f)
    ensures Inv(Apply(s, root, op), root, g)
    ensures op.SetParent? || Keeps(s, f, Apply(s, root, op), g)
  {
    match op
    case Seed(id) =>
      g := f;
      if id > 0 {
        g := SeedKeeps(s, root, f, id);
      }
    case New(parent, io) =>
      var p := NewParent(root, parent);
      g := f;
      if p in s.tenants && (parent > 0 ==> (root, parent) in s.rows) && io {
        CreatorExists(s, root, f, parent);
        g := NewKeeps(s, root, f, p);
      }
    case SetParent(t, p) =>
      g := SetParentKeeps(s, root, f, t, p);
    case Delete(t, stop) =>
      g := DeleteKeeps(s, root, f, t, stop);
  }

  lemma {:induction false} RunKeeps(s: State, root: Id, ops: seq<Op>) returns (f: Forest)
    requires Initial(s)
    ensures Inv(Run(s, root, ops), root, f)
    ensures (forall op :: op in ops ==> !op.SetParent?) ==> Exact(Run(s, root, ops).rows, f)
    decreases |ops|
  {
    if ops == [] {
      f := Forest(map[], map[]);
    } else {
      var init := ops[..|ops| - 1];
      var h := RunKeeps(s, root, init);
      f := StepKeeps(Run(s, root, init), root, h, ops[|ops| - 1]);
      assert forall op :: op in init ==> op in ops;
    }
  }

  /** Some run from an empty database ends here. */
  ghost predicate Reachable(s: State, root: Id)
  {
    exists s0: State, ops: seq<Op> :: Initial(s0) && s == Run(s0, root, ops)
  }

  lemma ReachableInv(s: State, root: Id) returns (f: Forest)
    requires Reachable(s, root)
    ensures Inv(s, root, f)
  {
    var s0: State, ops: seq<Op> :| Initial(s0) && s == Run(s0, root, ops);
    f := RunKeeps(s0, root, ops);
  }

  lemma ReachableFound(s: State, root: Id, t: Id)
    requires Reachable(s, root) && t in s.tenants
    ensures Found(s, t) && t > 0
  {
    var f := ReachableInv(s, root);
    InvFound(s, root, f, t);
  }

  lemma InvFound(s: State, root: Id, f: Forest, t: Id)
    requires Inv(s, root, f) && t in s.tenants
    ensures Found(s, t) && t > 0
  {
    AllFound(s, root, f, t);
    assert 0 !in f.level;
  }

  lemma DeletedReachable(s: State, root: Id, t: Id)
    requires Reachable(s, root) && 0 < root && t in s.tenants && t != root
    requires Vacates(s, root, t)
    ensures Reachable(Removed(MovedAll(s, root, Children(s, t)), t), root)
  {
    ReachableFound(s, root, t);
    var n := |Children(s, t)|;
    DeletedWhole(s, root, t, n);
    ReachableStep(s, root, Delete(t, n + 1));
  }

  lemma DeletedWhole(s: State, root: Id, t: Id, n: nat)
    requires 0 < root && 0 < t != root && Found(s, t) && n == |Children(s, t)| && Vacates(s, root, t)
    ensures Apply(s, root, Delete(t, n + 1)) == Removed(MovedAll(s, root, Children(s, t)), t)
  {
  }

  lemma ReachableStep(s: State, root: Id, op: Op)
    requires Reachable(s, root)
    ensures Reachable(Apply(s, root, op), root)
  {
    var s0: State, ops: seq<Op> :| Initial(s0) && s == Run(s0, root, ops);
    var longer := ops + [op];
    assert longer[..|longer| - 1] == ops;
    assert Run(s0, root, longer) == Apply(s, root, op);
  }

  /** The parent of each tenant, read off the depth-1 rows alone. */
  ghost function Parents(r: Rows): map<Id, Id>
  {
    map d | d in Parented(r) :: ParentIn(r, d)
  }

  ghost function Parented(r: Rows): (s: set<Id>)
    ensures forall d: Id :: d in s <==> exists a: Id :: DirectRelation(r, a, d)
  {
    var s := set k | k in r && r[k] == 1 :: k.1;
    assert forall a: Id, d: Id :: DirectRelation(r, a, d) ==> d in s;
    assert forall k :: k in r && r[k] == 1 ==> DirectRelation(r, k.0, k.1);
    s
  }

  ghost function ParentIn(r: Rows, d: Id): (a: Id)
    requires d in Parented(r)
    ensures DirectRelation(r, a, d)
  {
    var a: Id :| DirectRelation(r, a, d);
    a
  }

  lemma ParentsAreForest(r: Rows, f: Forest)
    requires Represents(r, f)
    ensures Parents(r) == f.parent
  {
    DepthOneIsParent(r, f);
    forall d: Id
      ensures d in Parents(r) <==> d in f.parent
      ensures d in f.parent ==> Parents(r)[d] == f.parent[d]
    {
      if d in f.parent {
        assert DirectRelation(r, f.parent[d], d);
      }
    }
  }

  /**
   After every run from an empty database: the stored pairs are exactly the ancestor-or-self
   relation of the forest that the depth-1 rows give; that forest is acyclic and gives each tenant
   at most one parent; depth 0 is exactly the self pairs; and no depth exceeds the true distance,
   nor drops below 2 for anyone but a parent.
   */
  lemma RunIsClosure(s: State, root: Id, ops: seq<Op>)
    requires Initial(s)
    ensures var e := Run(s, root, ops);
            var r := e.rows;
            && (forall d: Id :: (d, d) in r <==> d in e.tenants)
            && (forall a: Id, d: Id :: (a, d) in r <==> d in e.tenants && Connected(Parents(r), a, d))
            && (forall d: Id, k: nat :: d in e.tenants && k > 0 ==> !Climbs(Parents(r), d, d, k))
            && (forall a: Id, b: Id, d: Id :: (a, d) in r && (b, d) in r && r[(a, d)] == 1 == r[(b, d)] ==> a == b)
            && (forall a: Id, d: Id, k: nat :: d in e.tenants && Climbs(Parents(r), a, d, k) ==>
                  (a, d) in r && r[(a, d)] <= k && (k <= 1 ==> r[(a, d)] == k) && (k >= 2 ==> r[(a, d)] >= 2))
  {
    var f := RunKeeps(s, root, ops);
    InvIsClosure(Run(s, root, ops), root, f);
  }

  lemma InvIsClosure(e: State, root: Id, f: Forest)
    requires Inv(e, root, f)
    ensures var r := e.rows;
            && (forall d: Id :: (d, d) in r <==> d in e.tenants)
            && (forall a: Id, d: Id :: (a, d) in r <==> d in e.tenants && Connected(Parents(r), a, d))
            && (forall d: Id, k: nat :: d in e.tenants && k > 0 ==> !Climbs(Parents(r), d, d, k))
            && (forall a: Id, b: Id, d: Id :: (a, d) in r && (b, d) in r && r[(a, d)] == 1 == r[(b, d)] ==> a == b)
            && (forall a: Id, d: Id, k: nat :: d in e.tenants && Climbs(Parents(r), a, d, k) ==>
                  (a, d) in r && r[(a, d)] <= k && (k <= 1 ==> r[(a, d)] == k) && (k >= 2 ==> r[(a, d)] >= 2))
  {
    var r := e.rows;
    ParentsAreForest(r, f);
    DepthOneIsParent(r, f);
    assert forall d: Id :: IsAnc(f, d, d) <==> d in f.level;
    forall a: Id, d: Id
      ensures (a, d) in r <==> d in e.tenants && Connected(f.parent, a, d)
    {
      PairsClimbParents(r, f, a, d);
    }
    forall a: Id, d: Id, k: nat | d in e.tenants && Climbs(f.parent, a, d, k)
      ensures k > 0 ==> a != d
      ensures (a, d) in r && r[(a, d)] <= k && (k <= 1 ==> r[(a, d)] == k) && (k >= 2 ==> r[(a, d)] >= 2)
    {
      ClimbDepth(r, f, a, d, k);
    }
  }

  lemma ClimbDepth(r: Rows, f: Forest, a: Id, d: Id, k: nat)
    requires Represents(r, f) && d in f.level && Climbs(f.parent, a, d, k)
    ensures k > 0 ==> a != d
    ensures (a, d) in r && r[(a, d)] <= k && (k <= 1 ==> r[(a, d)] == k) && (k >= 2 ==> r[(a, d)] >= 2)
  {
    ClimbsAnc(f, a, d, k);
    assert DepthOk(f, a, d, r[(a, d)]);
  }
}
