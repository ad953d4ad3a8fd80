/**
 A user's departments are one list across all organizations; TenantUserSetDepartment rewrites one
 organization's part of it.
 */
module Departments {
  /** department -> (tenant, organization) */
  type Table = map<nat, (nat, nat)>

  datatype User = User(tenant: nat, deps: seq<nat>)

  datatype Status = Success | Param | OrgRequired | Missing | NoAuth

  /** DepartmentFind(0, tenant, org, 0, 0), as ids. */
  function OrgDeps(table: Table, tenant: nat, org: nat): set<nat>
  {
    set d | d in table && table[d] == (tenant, org)
  }

  /** The entries outside one organization, zeros dropped, order kept. */
  function Outside(s: seq<nat>, org: set<nat>): seq<nat>
  {
    if s == [] then []
    else
      var last := s[|s| - 1];
      Outside(s[..|s| - 1], org) + if last > 0 && last !in org then [last] else []
  }

  /** What the call stores. */
  function Replaced(s: seq<nat>, org: set<nat>, ids: seq<nat>): seq<nat>
  {
    Outside(s, org) + Outside(ids, {})
  }

  predicate Accepts(org: set<nat>, ids: seq<nat>)
  {
    forall i :: 0 <= i < |ids| && ids[i] > 0 ==> ids[i] in org
  }

  lemma {:induction false} OutsideMembers(s: seq<nat>, org: set<nat>)
    ensures forall x :: x in Outside(s, org) <==> x in s && x > 0 && x !in org
    decreases |s|
  {
    if s == [] {
    } else {
      OutsideMembers(s[..|s| - 1], org);
      assert s == s[..|s| - 1] + [s[|s| - 1]];
    }
  }

  lemma {:induction false} OutsideConcat(a: seq<nat>, b: seq<nat>, org: set<nat>)
    ensures Outside(a + b, org) == Outside(a, org) + Outside(b, org)
    decreases |b|
  {
    if b == [] {
      assert a + b == a;
    } else {
      OutsideConcat(a, b[..|b| - 1], org);
      assert (a + b)[..|a + b| - 1] == a + b[..|b| - 1];
    }
  }

  lemma {:induction false} OutsideTwice(s: seq<nat>, org: set<nat>)
    ensures Outside(Outside(s, org), org) == Outside(s, org)
    decreases |s|
  {
    if s == [] {
    } else {
      var init, last := s[..|s| - 1], s[|s| - 1];
      OutsideTwice(init, org);
      OutsideConcat(Outside(init, org), if last > 0 && last !in org then [last] else [], org);
    }
  }

  lemma {:induction false} OutsideNone(s: seq<nat>, org: set<nat>)
    requires forall x :: x in s && x > 0 ==> x in org
    ensures Outside(s, org) == []
    decreases |s|
  {
    if s == [] {
    } else {
      assert forall x :: x in s[..|s| - 1] ==> x in s;
      OutsideNone(s[..|s| - 1], org);
    }
  }

  /** The call changes only the organization's own part, to exactly the given nonzero ids. */
  lemma ReplacedMembers(s: seq<nat>, org: set<nat>, ids: seq<nat>)
    requires Accepts(org, ids)
    ensures forall x :: x in Replaced(s, org, ids) <==>
              x > 0 && (if x in org then x in ids else x in s)
  {
    OutsideMembers(s, org);
    OutsideMembers(ids, {});
    assert forall x :: x in ids && x > 0 ==> x in org;
  }

  /** Repeating a call changes nothing, not even the order. */
  lemma Idempotent(s: seq<nat>, org: set<nat>, ids: seq<nat>)
    requires Accepts(org, ids)
    ensures Replaced(Replaced(s, org, ids), org, ids) == Replaced(s, org, ids)
  {
    OutsideConcat(Outside(s, org), Outside(ids, {}), org);
    OutsideTwice(s, org);
    OutsideMembers(ids, {});
    assert forall x :: x in ids && x > 0 ==> x in org;
    OutsideNone(Outside(ids, {}), org);
  }

  /** Entry by entry and in order: what lies outside the organization is kept, what is zero or inside is not. */
  lemma OutsideEach(a: seq<nat>, x: nat, b: seq<nat>, org: set<nat>)
    ensures Outside(a + [x] + b, org) == Outside(a, org) + (if x > 0 && x !in org then [x] else []) + Outside(b, org)
    ensures Outside([], org) == []
  {
    OutsideConcat(a + [x], b, org);
    OutsideConcat(a, [x], org);
  }

  /** The kept entries come first, in their order, then the nonzero given ids in theirs; none is merged or dropped. */
  lemma ReplacedInOrder(kept: seq<nat>, org: set<nat>, ids: seq<nat>)
    requires forall x :: x in kept ==> x > 0 && x !in org
    requires forall x :: x in ids ==> x > 0
    ensures Replaced(kept, org, ids) == kept + ids
    ensures forall s: seq<nat> :: Replaced(s, org, ids) == Outside(s, org) + ids
  {
    AllOutside(kept, org);
    AllOutside(ids, {});
  }

  lemma {:induction false} AllOutside(s: seq<nat>, org: set<nat>)
    requires forall x :: x in s ==> x > 0 && x !in org
    ensures Outside(s, org) == s
    decreases |s|
  {
    if s == [] {
    } else {
      var init, last := s[..|s| - 1], s[|s| - 1];
      assert last in s && forall x :: x in init ==> x in s;
      AllOutside(init, org);
    }
  }

  // ---------------------------------------------------------------- the call

  class Store {
    var users: map<nat, User>
    var table: Table

    /** Checks first; then the loops keep what lies outside the organization and append the new ids. */
    method SetDepartment(uid: nat, tenant: nat, org: nat, ids: seq<nat>) returns (st: Status)
      modifies this`users
      ensures st == SetStatus(old(users), table, uid, tenant, org, ids)
      ensures users == Applied(old(users), table, uid, tenant, org, ids)
      ensures st == Success <==>
                && uid > 0 && tenant > 0 && org > 0
                && (forall i :: 0 <= i < |ids| && ids[i] > 0 ==> ids[i] in table && table[ids[i]] == (tenant, org))
                && uid in old(users) && old(users)[uid].tenant == tenant
      ensures uid in old(users) && old(users)[uid].tenant != tenant ==> users == old(users) && st != Success
      ensures st == NoAuth ==> uid in old(users) && old(users)[uid].tenant != tenant
      ensures st == Missing ==> uid !in old(users)
      ensures st == OrgRequired <==> uid > 0 && org == 0
      ensures st != Success ==> users == old(users)
      ensures st == Success ==>
                && users.Keys == old(users).Keys && users[uid].tenant == tenant
                && (forall v :: v in users && v != uid ==> users[v] == old(users)[v])
                && forall d :: d in users[uid].deps <==>
                     d > 0 && if d in table && table[d] == (tenant, org) then d in ids else d in old(users)[uid].deps
    {
      if uid in users && Accepts(OrgDeps(table, tenant, org), ids) {
        ReplacedMembers(users[uid].deps, OrgDeps(table, tenant, org), ids);
      }
      if uid == 0 {
        return Param;
      }
      if org == 0 {
        return OrgRequired;
      }
      if tenant == 0 {
        return Param;
      }
      var orgDeps := OrgDeps(table, tenant, org);
      for i := 0 to |ids|
        invariant forall j :: 0 <= j < i && ids[j] > 0 ==> ids[j] in orgDeps
      {
        if ids[i] > 0 && ids[i] !in orgDeps {
          return Param;
        }
      }
      if uid !in users {
        return Missing;
      }
      if users[uid].tenant != tenant {
        return NoAuth;
      }
      var kept: seq<nat> := [];
      var own := users[uid].deps;
      for i := 0 to |own|
        invariant kept == Outside(own[..i], orgDeps)
      {
        assert own[..i + 1][..i] == own[..i];
        if own[i] > 0 && own[i] !in orgDeps {
          kept := kept + [own[i]];
        }
      }
      assert own[..|own|] == own;
      for i := 0 to |ids|
        invariant kept == Outside(own, orgDeps) + Outside(ids[..i], {})
      {
        assert ids[..i + 1][..i] == ids[..i];
        if ids[i] > 0 {
          kept := kept + [ids[i]];
        }
      }
      assert ids[..|ids|] == ids;
      users := users[uid := users[uid].(deps := kept)];
      return Success;
    }
  }

  function SetStatus(users: map<nat, User>, table: Table, uid: nat, tenant: nat, org: nat, ids: seq<nat>): Status
  {
    if uid == 0 then Param
    else if org == 0 then OrgRequired
    else if tenant == 0 || !Accepts(OrgDeps(table, tenant, org), ids) then Param
    else if uid !in users then Missing
    else if users[uid].tenant != tenant then NoAuth
    else Success
  }

  function Applied(users: map<nat, User>, table: Table, uid: nat, tenant: nat, org: nat, ids: seq<nat>): map<nat, User>
  {
    if SetStatus(users, table, uid, tenant, org, ids) == Success then
      users[uid := users[uid].(deps := Replaced(users[uid].deps, OrgDeps(table, tenant, org), ids))]
    else users
  }

  // ---------------------------------------------------------------- runs

  datatype Call = Call(uid: nat, tenant: nat, org: nat, ids: seq<nat>)

  function Run(users: map<nat, User>, table: Table, calls: seq<Call>): map<nat, User>
    decreases |calls|
  {
    if calls == [] then users
    else
      var c := calls[|calls| - 1];
      Applied(Run(users, table, calls[..|calls| - 1]), table, c.uid, c.tenant, c.org, c.ids)
  }

  /** A call took effect for this user and organization. */
  predicate Effective(users: map<nat, User>, table: Table, calls: seq<Call>, i: nat, uid: nat, tenant: nat, org: nat)
    requires i < |calls|
  {
    && calls[i].uid == uid && calls[i].tenant == tenant && calls[i].org == org
    && SetStatus(Run(users, table, calls[..i]), table, uid, tenant, org, calls[i].ids) == Success
  }

  /** The index after the last effective call, or 0. */
  function LastFor(users: map<nat, User>, table: Table, calls: seq<Call>, uid: nat, tenant: nat, org: nat): (n: nat)
    ensures n <= |calls|
    ensures n > 0 ==> Effective(users, table, calls, n - 1, uid, tenant, org)
    decreases |calls|
  {
    if calls == [] then 0
    else if Effective(users, table, calls, |calls| - 1, uid, tenant, org) then |calls|
    else
      var init := calls[..|calls| - 1];
      var n := LastFor(users, table, init, uid, tenant, org);
      assert n > 0 ==> calls[..n - 1] == init[..n - 1];
      n
  }

  /**
   After any run, the part of a user's departments that lies in one organization is what the last effective
   call for that organization gave, or the original part if there was none: calls for other organizations,
   whatever their order, never disturb it.
   */
  lemma {:induction false} LastCallDecides(users: map<nat, User>, table: Table, calls: seq<Call>, uid: nat, tenant: nat,
                                           org: nat, d: nat)
    requires uid in users && d in table && table[d] == (tenant, org) && d > 0
    ensures uid in Run(users, table, calls)
    ensures var n := LastFor(users, table, calls, uid, tenant, org);
            d in Run(users, table, calls)[uid].deps <==> if n > 0 then d in calls[n - 1].ids else d in users[uid].deps
    decreases |calls|
  {
    if calls == [] {
    } else {
      var init, c := calls[..|calls| - 1], calls[|calls| - 1];
      LastCallDecides(users, table, init, uid, tenant, org, d);
      OneCallDecides(Run(users, table, init), table, c, uid, tenant, org, d);
      LastForStep(users, table, calls, uid, tenant, org);
    }
  }

  /** The last effective call is the last call, or the one before it that was. */
  lemma LastForStep(users: map<nat, User>, table: Table, calls: seq<Call>, uid: nat, tenant: nat, org: nat)
    requires calls != []
    ensures var init, c := calls[..|calls| - 1], calls[|calls| - 1];
            var m, n := LastFor(users, table, init, uid, tenant, org), LastFor(users, table, calls, uid, tenant, org);
            if c.uid == uid && c.tenant == tenant && c.org == org &&
                SetStatus(Run(users, table, init), table, uid, tenant, org, c.ids) == Success
            then n == |calls| else n == m && (n > 0 ==> calls[n - 1] == init[n - 1])
  {
  }

  /** One call settles the departments of its own user and organization and no others. */
  lemma OneCallDecides(users: map<nat, User>, table: Table, c: Call, uid: nat, tenant: nat, org: nat, d: nat)
    requires uid in users && d in table && table[d] == (tenant, org) && d > 0
    ensures var after := Applied(users, table, c.uid, c.tenant, c.org, c.ids);
            && uid in after
            && (d in after[uid].deps <==>
                if c.uid == uid && c.tenant == tenant && c.org == org &&
                    SetStatus(users, table, uid, tenant, org, c.ids) == Success
                then d in c.ids else d in users[uid].deps)
  {
    if c.uid == uid && SetStatus(users, table, c.uid, c.tenant, c.org, c.ids) == Success {
      ReplacedMembers(users[uid].deps, OrgDeps(table, c.tenant, c.org), c.ids);
    }
  }

  /** Calls for different organizations commute as sets. */
  lemma DifferentOrgsCommute(s: seq<nat>, table: Table, tenant: nat, o1: nat, ids1: seq<nat>, o2: nat, ids2: seq<nat>)
    requires o1 != o2 && Accepts(OrgDeps(table, tenant, o1), ids1) && Accepts(OrgDeps(table, tenant, o2), ids2)
    ensures var a, b := OrgDeps(table, tenant, o1), OrgDeps(table, tenant, o2);
            forall x :: x in Replaced(Replaced(s, a, ids1), b, ids2) <==> x in Replaced(Replaced(s, b, ids2), a, ids1)
  {
    var a, b := OrgDeps(table, tenant, o1), OrgDeps(table, tenant, o2);
    ReplacedMembers(s, a, ids1);
    ReplacedMembers(s, b, ids2);
    ReplacedMembers(Replaced(s, a, ids1), b, ids2);
    ReplacedMembers(Replaced(s, b, ids2), a, ids1);
  }
}
