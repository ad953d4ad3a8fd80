/** What repair does to the tables that runs of the tenant services leave: nothing but adding missing self rows. */
module TenantRepair {
  import opened Forest
  import opened Closure
  import opened ClosureMove
  import opened ClosureRepair
  import opened ClosureTriangle
  import opened Sets
  import opened TenantTree

  lemma MovedTriangle(s: State, root: Id, f: Forest, t: Id, p: Id)
    requires Inv(s, root, f) && Triangle(s.rows)
    ensures Triangle(Moved(s, root, t, p).rows)
  {
    var g := SetParentKeeps(s, root, f, t, p);
    if SetParentCheck(s, root, t, p) == Move {
      SafeMoveIsPlainMove(s.rows, f, t, p);
      MoveTriangle(s.rows, f, t, p);
    }
  }

  lemma {:induction false} MovedAllTriangle(s: State, root: Id, f: Forest, cs: seq<Id>) returns (g: Forest)
    requires Inv(s, root, f) && Triangle(s.rows)
    ensures Inv(MovedAll(s, root, cs), root, g) && Triangle(MovedAll(s, root, cs).rows)
    decreases |cs|
  {
    if cs == [] {
      g := f;
    } else {
      var init, c := cs[..|cs| - 1], cs[|cs| - 1];
      var h := MovedAllTriangle(s, root, f, init);
      MovedTriangle(MovedAll(s, root, init), root, h, c, root);
      g := SetParentKeeps(MovedAll(s, root, init), root, h, c, root);
    }
  }

  /** A deletion leaves the tables after some child moves, with or without the target. */
  lemma DeletedForm(s: State, root: Id, t: Id, stop: nat) returns (cs: seq<Id>)
    ensures Deleted(s, root, t, stop) == MovedAll(s, root, cs) ||
              Deleted(s, root, t, stop) == Removed(MovedAll(s, root, cs), t)
  {
    cs := [];
    if !(root <= 0 || t <= 0 || t == root || !Found(s, t)) {
      cs := Children(s, t);
      var n := Accepted(s, root, cs);
      if stop <= n || n < |cs| {
        cs := cs[..if stop <= n then stop else n];
      }
    }
  }

  lemma DeletedTriangle(s: State, root: Id, f: Forest, t: Id, stop: nat)
    requires Inv(s, root, f) && Triangle(s.rows)
    ensures Triangle(Deleted(s, root, t, stop).rows)
  {
    var cs := DeletedForm(s, root, t, stop);
    var g := MovedAllTriangle(s, root, f, cs);
    CascadeTriangle(MovedAll(s, root, cs).rows, t);
  }

  lemma SeededTriangle(s: State, root: Id, f: Forest, id: Id)
    requires Inv(s, root, f) && Triangle(s.rows)
    ensures Triangle(Seeded(s, id).rows)
  {
    SelfRowTriangle(s.rows, f, id);
  }

  lemma CreatedTriangle(s: State, root: Id, f: Forest, parent: Id, io: bool)
    requires Inv(s, root, f) && Triangle(s.rows)
    ensures Triangle(Created(s, root, parent, io).rows)
  {
    var p := NewParent(root, parent);
    if p in s.tenants {
      InsertTriangle(s.rows, f, p, s.lastId + 1);
    }
  }

  lemma StepTriangle(s: State, root: Id, f: Forest, op: Op)
    requires Inv(s, root, f) && Triangle(s.rows)
    ensures Triangle(Apply(s, root, op).rows)
  {
    match op
    case Seed(id) => SeededTriangle(s, root, f, id);
    case New(parent, io) => CreatedTriangle(s, root, f, parent, io);
    case SetParent(t, p) => MovedTriangle(s, root, f, t, p);
    case Delete(t, stop) => DeletedTriangle(s, root, f, t, stop);
  }

  lemma {:induction false} RunTriangle(s: State, root: Id, ops: seq<Op>)
    requires Initial(s)
    ensures Triangle(Run(s, root, ops).rows)
    decreases |ops|
  {
    if ops == [] {
    } else {
      var init := ops[..|ops| - 1];
      RunTriangle(s, root, init);
      var f := RunKeeps(s, root, init);
      StepTriangle(Run(s, root, init), root, f, ops[|ops| - 1]);
    }
  }

  /**
   After any run, repairing the table together with any further tenants that have no rows yet adds exactly
   their self rows: it neither heals nor lowers a depth.
   */
  lemma RepairAddsOnlySelfRows(s: State, root: Id, more: set<Id>, rows: Rows)
    requires Reachable(s, root) && 0 !in more && Repairs(s.tenants + more, s.rows, rows)
    ensures rows == AddSelfRows(s.rows, s.tenants + more)
  {
    var s0: State, ops: seq<Op> :| Initial(s0) && s == Run(s0, root, ops);
    var f := RunKeeps(s0, root, ops);
    RunTriangle(s0, root, ops);
    RepairAddsSelfRows(s.rows, f, s.tenants + more, rows);
  }

  /** Without such tenants repair is the identity on every reachable table. */
  lemma RepairIsIdentity(s: State, root: Id, rows: Rows)
    requires Reachable(s, root) && Repairs(s.tenants, s.rows, rows)
    ensures rows == s.rows
  {
    assert s.tenants + {} == s.tenants;
    RepairAddsOnlySelfRows(s, root, {}, rows);
    var f := ReachableInv(s, root);
    SelfRowsIdle(s.rows, f);
  }
}
