/**
 Organizations, their members, the access tuples of their domains and the two caches in front of
 them. Every write may be the one that fails: `budget` writes still succeed, and each call
 leaves whatever its completed writes made.
 */
module OrgService {
  import opened Access
  import opened Sets

  datatype Org = Org(tenant: nat, name: string)

  datatype Status = Success | Param | OrgRequired | NotFound | NoAuth | Duplicate | ServiceError

  /** The service calls a run is made of; time passing may drop any cache entries. */
  datatype Call =
    | Create(tenant: nat, name: string, tenantFound: bool, owner: nat)
    | DeleteOrg(tenant: nat, org: nat)
    | AddMember(org: nat, uid: nat, tenant: nat)
    | RemoveMember(org: nat, uid: nat, tenant: nat)
    | AddRoleEverywhere(uid: nat, tenant: nat, role: string)
    | AddUser(uid: nat, tenant: nat, org: nat, roles: seq<string>)
    | DeleteUser(uid: nat, tenant: nat)
    | LeaveOrg(uid: nat, tenant: nat, org: nat)
    | AskMember(uid: nat, tenant: nat, org: nat)
    | PassTime(keptOrgs: set<nat>, keptMembers: set<(nat, nat)>)

  /** No deletion of an organization loses exactly its last write. */
  ghost predicate NoLostLastWrite(calls: seq<(Call, nat)>)
  {
    forall i :: 0 <= i < |calls| ==> !(calls[i].0.DeleteOrg? && calls[i].1 == 4)
  }

  ghost predicate Agrees(cache: set<(nat, nat)>, members: map<(nat, nat), nat>)
  {
    forall k :: k in cache ==> k in members
  }

  /** Some membership of the organization is cached. */
  ghost predicate AnyCached(cache: set<(nat, nat)>, o: nat)
  {
    exists u: nat :: (o, u) in cache
  }

  ghost function Without(members: map<(nat, nat), nat>, o: nat): map<(nat, nat), nat>
  {
    map k | k in members && k.0 != o :: members[k]
  }

  /** Dropping an organization's rows keeps agreement exactly when none of them was cached. */
  lemma DroppedRowsAgreeIff(cache: set<(nat, nat)>, members: map<(nat, nat), nat>, o: nat)
    requires Agrees(cache, members)
    ensures Agrees(cache, Without(members, o)) <==> !AnyCached(cache, o)
  {
    if AnyCached(cache, o) {
      var u: nat :| (o, u) in cache;
      assert (o, u) !in Without(members, o);
    } else {
      forall k | k in cache
        ensures k in Without(members, o)
      {
        assert k == (k.0, k.1);
      }
    }
  }

  /** A role tuple of this user in some organization's domain of this tenant. */
  ghost predicate RoleOf(x: Grouping, u: nat, t: nat)
  {
    x.user == User(u) && exists o: nat :: x.dom == Domain(t, o)
  }

  /** Only role tuples of this user in this tenant's domains are gone. */
  ghost predicate OnlyRolesGone(was: Rules, r: Rules, u: nat, t: nat)
  {
    r.p == was.p && r.g <= was.g && forall x :: x in was.g && x !in r.g ==> RoleOf(x, u, t)
  }

  /** Only role tuples of this user in this tenant's domains are new. */
  ghost predicate OnlyRolesNew(was: Rules, r: Rules, u: nat, t: nat)
  {
    r.p == was.p && was.g <= r.g && forall x :: x in r.g && x !in was.g ==> RoleOf(x, u, t)
  }

  /** Only member rows of this user in this tenant's organizations are gone. */
  ghost predicate OnlyRowsGone(orgs: map<nat, Org>, was: map<(nat, nat), nat>, m: map<(nat, nat), nat>, u: nat, t: nat)
  {
    && (forall k :: k in m ==> k in was && m[k] == was[k])
    && (forall k :: k in was && k !in m ==> k.1 == u && k.0 in orgs && orgs[k.0].tenant == t)
  }

  /** Only member rows of this user in this tenant's organizations are new. */
  ghost predicate OnlyRowsNew(orgs: map<nat, Org>, was: map<(nat, nat), nat>, m: map<(nat, nat), nat>, u: nat, t: nat)
  {
    OnlyRowsGone(orgs, m, was, u, t)
  }

  class Store {
    var orgs: map<nat, Org>
    var lastOrg: nat
    var members: map<(nat, nat), nat>       // (org, uid) -> tenant
    var users: map<nat, nat>                // uid -> tenant
    var rules: Rules
    var departments: map<nat, (nat, nat)>   // department -> (tenant, org)
    var orgCache: map<nat, Org>             // live entries
    var memberCache: set<(nat, nat)>        // live (org, uid) entries; only "is a member" is ever cached
    var budget: nat

    // -------------------------------------------------------------- invariants

    /** The organization a domain string belongs to is there, under that tenant. */
    ghost predicate OrgOf(t: nat, o: nat)
      reads this`orgs
    {
      o in orgs && orgs[o].tenant == t
    }

    ghost predicate RolesHaveMembers()
      reads this`members, this`rules
    {
      forall u: nat, role: string, t: nat, o: nat ::
        Grouping(User(u), role, Domain(t, o)) in rules.g ==> (o, u) in members
    }

    ghost predicate TuplesHaveOrgs()
      reads this`orgs, this`rules
    {
      && (forall x: Grouping, t: nat, o: nat :: x in rules.g && x.dom == Domain(t, o) ==> OrgOf(t, o))
      && (forall p: Policy, t: nat, o: nat :: p in rules.p && p.dom == Domain(t, o) ==> OrgOf(t, o))
    }

    ghost predicate MembersHaveOrgs()
      reads this`orgs, this`members
    {
      forall o: nat, u: nat :: (o, u) in members ==> u > 0 && OrgOf(members[(o, u)], o)
    }

    /** No role grouping without a member row, no member row or policy domain without its organization. */
    ghost predicate NoDangling()
      reads this`orgs, this`members, this`rules
    {
      RolesHaveMembers() && TuplesHaveOrgs() && MembersHaveOrgs()
    }

    /** Every cached organization is the row the database holds now. */
    ghost predicate OrgsAgree()
      reads this`orgs, this`orgCache
    {
      forall o :: o in orgCache ==> o in orgs && orgs[o] == orgCache[o]
    }

    ghost predicate Inv()
      reads this`orgs, this`members, this`rules, this`orgCache, this`lastOrg
    {
      && NoDangling() && OrgsAgree()
      && forall o :: o in orgs ==> 0 < o <= lastOrg
    }

    /** Every cached membership is a row the database holds now. */
    ghost predicate MembersAgree()
      reads this`members, this`memberCache
    {
      Agrees(memberCache, members)
    }

    /** No tuple of this domain exists. */
    ghost predicate Fresh(t: nat, o: nat)
      reads this`rules
    {
      && (forall p: Policy :: p in rules.p ==> p.dom != Domain(t, o))
      && (forall x: Grouping :: x in rules.g ==> x.dom != Domain(t, o))
    }

    /** No organization yet; users and departments come from elsewhere. */
    constructor (users: map<nat, nat>, departments: map<nat, (nat, nat)>, budget: nat)
      ensures Inv() && MembersAgree()
      ensures this.users == users && this.departments == departments && this.budget == budget
      ensures orgs == map[] && members == map[] && rules == Rules({}, {}) && orgCache == map[] && memberCache == {}
    {
      orgs, lastOrg, members, this.users := map[], 0, map[], users;
      rules, this.departments := Rules({}, {}), departments;
      orgCache, memberCache, this.budget := map[], {}, budget;
    }

    /** Writes work again, until the next failure. */
    method Recover(writes: nat)
      modifies this`budget
      ensures budget == writes
    {
      budget := writes;
    }

    // -------------------------------------------------------------- single writes

    method InsertOrg(t: nat, name: string) returns (id: nat)
      requires Inv()
      modifies this`orgs, this`lastOrg, this`budget
      ensures Inv()
      ensures id == 0 <==> old(budget) == 0
      ensures id == 0 ==> orgs == old(orgs) && lastOrg == old(lastOrg) && budget == 0
      ensures id != 0 ==> id !in old(orgs) && id > old(lastOrg) && orgs == old(orgs)[id := Org(t, name)]
      ensures id != 0 ==> budget == old(budget) - 1
    {
      if budget == 0 {
        return 0;
      }
      budget := budget - 1;
      id := lastOrg + 1;
      lastOrg := id;
      orgs := orgs[id := Org(t, name)];
      assert forall t': nat, o': nat :: old(OrgOf(t', o')) ==> OrgOf(t', o');
    }

    /** `ON CONFLICT (org_id, uid) DO NOTHING`, then the eviction that follows every member write. */
    method InsertMember(o: nat, u: nat, t: nat) returns (ok: bool)
      requires Inv() && OrgOf(t, o)
      modifies this`members, this`memberCache, this`budget
      ensures Inv() && (old(MembersAgree()) ==> MembersAgree())
      ensures ok <==> old(budget) > 0 && u > 0 && t > 0
      ensures budget == if ok then old(budget) - 1 else old(budget)
      ensures members == if ok && (o, u) !in old(members) then old(members)[(o, u) := t] else old(members)
      ensures memberCache == if ok then old(memberCache) - {(o, u)} else old(memberCache)
    {
      if o == 0 || u == 0 || t == 0 || budget == 0 {
        return false;
      }
      budget := budget - 1;
      if (o, u) !in members {
        members := members[(o, u) := t];
      }
      memberCache := memberCache - {(o, u)};
      return true;
    }

    method AddRoleForUser(u: nat, t: nat, o: nat, role: string) returns (ok: bool)
      requires Inv() && OrgOf(t, o) && (o, u) in members
      modifies this`rules, this`budget
      ensures Inv()
      ensures ok <==> old(budget) > 0 && o != 0
      ensures budget == if ok then old(budget) - 1 else old(budget)
      ensures rules == if ok then Apply(old(rules), t, o, AddRole(u, role)) else old(rules)
    {
      if o == 0 || budget == 0 {
        return false;
      }
      budget := budget - 1;
      rules := rules.(g := rules.g + {Grouping(User(u), role, Domain(t, o))});
      forall u': nat, r': string, t': nat, o': nat |
        Grouping(User(u'), r', Domain(t', o')) == Grouping(User(u), role, Domain(t, o))
        ensures u' == u && t' == t && o' == o
      {
        UserInjective(u', u);
        DomainInjective(t', o', t, o);
      }
      return true;
    }

    method DeleteRolesForUser(u: nat, t: nat, o: nat) returns (ok: bool)
      requires Inv()
      modifies this`rules, this`budget
      ensures Inv()
      ensures ok <==> old(budget) > 0 && o != 0
      ensures budget == if ok then old(budget) - 1 else old(budget)
      ensures rules == if ok then Apply(old(rules), t, o, DeleteRoles(u)) else old(rules)
    {
      if o == 0 || budget == 0 {
        return false;
      }
      budget := budget - 1;
      rules := rules.(g := set x | x in rules.g && !(x.user == User(u) && x.dom == Domain(t, o)));
      return true;
    }

    method DeleteMember(o: nat, u: nat, t: nat) returns (ok: bool)
      requires Inv() && OrgOf(t, o)
      requires forall role: string :: Grouping(User(u), role, Domain(t, o)) !in rules.g
      modifies this`members, this`memberCache, this`budget
      ensures Inv() && (old(MembersAgree()) ==> MembersAgree())
      ensures ok <==> old(budget) > 0
      ensures budget == if ok then old(budget) - 1 else 0
      ensures members == if ok then old(members) - {(o, u)} else old(members)
      ensures memberCache == if ok then old(memberCache) - {(o, u)} else old(memberCache)
    {
      if budget == 0 {
        return false;
      }
      budget := budget - 1;
      members := members - {(o, u)};
      memberCache := memberCache - {(o, u)};
      return true;
    }

    // -------------------------------------------------------------- queries

    /** `ORDER BY id` */
    method OrgListByTenant(t: nat) returns (ids: seq<nat>)
      ensures Ascending(ids) && forall o :: o in ids <==> o in orgs && orgs[o].tenant == t
      ensures |ids| <= |orgs|
    {
      var mine := set o | o in orgs && orgs[o].tenant == t;
      assert orgs.Keys == mine + (orgs.Keys - mine);
      ids := Sorted(mine);
    }

    method OrgListByUser(u: nat, t: nat) returns (ids: seq<nat>)
      ensures Ascending(ids) && forall o: nat :: o in ids <==> (o, u) in members && o in orgs && orgs[o].tenant == t
      ensures |ids| <= |orgs|
    {
      var mine := set k | k in members && k.1 == u && k.0 in orgs && orgs[k.0].tenant == t :: k.0;
      assert orgs.Keys == mine + (orgs.Keys - mine);
      ids := Sorted(mine);
    }

    method OrgMemberUIDs(o: nat) returns (uids: seq<nat>)
      ensures forall u: nat :: u in uids <==> (o, u) in members && u > 0
    {
      uids := Sorted(set k | k in members && k.0 == o && k.1 > 0 :: k.1);
    }

    /** RequireOrg through the cache gives the database's answer. */
    method RequireOrg(t: nat, o: nat) returns (st: Status)
      requires OrgsAgree()
      modifies this`orgCache
      ensures OrgsAgree()
      ensures st == if t == 0 || o == 0 then OrgRequired
                    else if o !in orgs then NotFound
                    else if orgs[o].tenant != t then NoAuth
                    else Status.Success
      ensures orgCache == if t != 0 && o != 0 && o in orgs then old(orgCache)[o := orgs[o]] else old(orgCache)
    {
      if t == 0 || o == 0 {
        return OrgRequired;
      }
      var org;
      if o in orgCache {
        org := orgCache[o];
      } else if o in orgs {
        org := orgs[o];
        orgCache := orgCache[o := org];
      } else {
        return NotFound;
      }
      if org.tenant != t {
        return NoAuth;
      }
      return Status.Success;
    }

    /** UserInOrg through both caches gives the database's answer as long as the caches agree with it. */
    method UserInOrg(u: nat, t: nat, o: nat) returns (st: Status)
      requires Inv()
      modifies this`orgCache, this`memberCache
      ensures Inv() && (old(MembersAgree()) ==> MembersAgree())
      ensures st == Status.Success <==>
                u != 0 && t != 0 && o != 0 && OrgOf(t, o) && ((o, u) in members || (o, u) in old(memberCache))
      ensures old(MembersAgree()) && st == Status.Success ==> (o, u) in members
      ensures memberCache == if st == Status.Success then old(memberCache) + {(o, u)} else old(memberCache)
      ensures orgCache == if u != 0 && t != 0 && o != 0 && o in orgs then old(orgCache)[o := orgs[o]] else old(orgCache)
    {
      if u == 0 {
        return NoAuth;
      }
      st := RequireOrg(t, o);
      if st != Status.Success {
        return;
      }
      if (o, u) in memberCache {
        return Status.Success;
      }
      if (o, u) !in members {
        return NoAuth;
      }
      memberCache := memberCache + {(o, u)};
      return Status.Success;
    }

    /** Time passes: any cache entries may expire. */
    method Expire(keptOrgs: set<nat>, keptMembers: set<(nat, nat)>)
      requires Inv()
      modifies this`orgCache, this`memberCache
      ensures Inv() && (old(MembersAgree()) ==> MembersAgree())
      ensures orgCache.Keys == old(orgCache.Keys) * keptOrgs && memberCache == old(memberCache) * keptMembers
    {
      orgCache := map o | o in orgCache && o in keptOrgs :: orgCache[o];
      memberCache := memberCache * keptMembers;
    }

    // -------------------------------------------------------------- services

    method OrgAddMember(o: nat, u: nat, t: nat) returns (st: Status)
      requires Inv()
      modifies this`orgCache, this`members, this`memberCache, this`budget
      ensures Inv() && (old(MembersAgree()) ==> MembersAgree())
      ensures st == Status.Success <==> o != 0 && u != 0 && t != 0 && old(OrgOf(t, o)) && old(budget) > 0
      ensures st == Status.Success ==> (o, u) in members
      ensures members ==
              if st == Status.Success && (o, u) !in old(members) then old(members)[(o, u) := t] else old(members)
      ensures budget == if st == Status.Success then old(budget) - 1 else old(budget)
    {
      if o == 0 || u == 0 || t == 0 {
        return Param;
      }
      st := RequireOrg(t, o);
      if st != Status.Success {
        return;
      }
      var ok := InsertMember(o, u, t);
      return if ok then Status.Success else ServiceError;
    }

    /** Roles go before the member row, so a failure in between leaves a member without roles, never the reverse. */
    method OrgRemoveMember(o: nat, u: nat, t: nat) returns (st: Status)
      requires Inv()
      modifies this`orgCache, this`members, this`memberCache, this`rules, this`budget
      ensures Inv() && (old(MembersAgree()) ==> MembersAgree())
      ensures st == Status.Success <==> o != 0 && u != 0 && t != 0 && old(OrgOf(t, o)) && old(budget) >= 2
      ensures st == Status.Success ==> (o, u) !in members
      ensures st == Status.Success ==> forall role: string :: Grouping(User(u), role, Domain(t, o)) !in rules.g
      ensures forall k :: k in members <==> k in old(members) && !(st == Status.Success && k == (o, u))
      ensures OnlyRowsGone(orgs, old(members), members, u, t) && OnlyRolesGone(old(rules), rules, u, t)
      ensures forall dom: string :: dom != Domain(t, o) ==> AgreeOn(old(rules), rules, dom)
      ensures budget <= old(budget) && (st == Status.Success ==> budget == old(budget) - 2)
    {
      if o == 0 || u == 0 || t == 0 {
        return Param;
      }
      st := RequireOrg(t, o);
      if st != Status.Success {
        return;
      }
      var ok := DeleteRolesForUser(u, t, o);
      if !ok {
        return ServiceError;
      }
      ok := DeleteMember(o, u, t);
      return if ok then Status.Success else ServiceError;
    }

    // -------------------------------------------------------------- deleting an organization

    /** The two tuple deletions behind RemoveDomain. */
    method RemoveDomainTuples(t: nat, o: nat) returns (ok: bool)
      requires Inv()
      modifies this`rules, this`budget
      ensures Inv()
      ensures ok <==> old(budget) >= 2
      ensures budget == if ok then old(budget) - 2 else 0
      ensures ok ==> rules.p == set x | x in old(rules.p) && x.dom != Domain(t, o)
      ensures ok ==> rules.g == set x | x in old(rules.g) && x.dom != Domain(t, o)
      ensures rules.p <= old(rules.p) && rules.g <= old(rules.g)
      ensures forall dom: string :: dom != Domain(t, o) ==> AgreeOn(old(rules), rules, dom)
    {
      if budget == 0 {
        return false;
      }
      budget := budget - 1;
      rules := rules.(p := set x | x in rules.p && x.dom != Domain(t, o));
      if budget == 0 {
        return false;
      }
      budget := budget - 1;
      rules := rules.(g := set x | x in rules.g && x.dom != Domain(t, o));
      return true;
    }

    method DeleteMembersOf(o: nat) returns (ok: bool)
      requires Inv() && forall u: nat, role: string, t: nat :: Grouping(User(u), role, Domain(t, o)) !in rules.g
      modifies this`members, this`budget
      ensures Inv()
      ensures ok <==> old(budget) > 0
      ensures budget == if ok then old(budget) - 1 else 0
      ensures members == if ok then Without(old(members), o) else old(members)
    {
      if budget == 0 {
        return false;
      }
      budget := budget - 1;
      members := map k | k in members && k.0 != o :: members[k];
      return true;
    }

    /** Nor does any other tenant's domain name this organization. */
    lemma NoOtherDomain(t: nat, o: nat)
      requires Inv() && OrgOf(t, o) && Fresh(t, o)
      ensures forall p: Policy, t': nat, o': nat :: p in rules.p && p.dom == Domain(t', o') ==> OrgOf(t', o') && o' != o
      ensures forall x: Grouping, t': nat, o': nat :: x in rules.g && x.dom == Domain(t', o') ==>
                OrgOf(t', o') && o' != o
    {
      forall t': nat
        ensures Fresh(t', o)
      {
        assert t' != t ==> !OrgOf(t', o);
      }
    }

    /** The organization row, and with it its cache entry. */
    method DeleteOrgRow(o: nat, t: nat) returns (ok: bool)
      requires Inv() && OrgOf(t, o) && Fresh(t, o) && forall u: nat :: (o, u) !in members
      modifies this`orgs, this`orgCache, this`budget
      ensures Inv()
      ensures ok <==> old(budget) > 0
      ensures orgs == if ok then old(orgs) - {o} else old(orgs)
      ensures ok ==> orgCache == old(orgCache) - {o}
    {
      if budget == 0 {
        return false;
      }
      NoOtherDomain(t, o);
      budget := budget - 1;
      orgs := orgs - {o};
      orgCache := orgCache - {o};
      return true;
    }

    /** A domain string names one organization only. */
    lemma DomainGone(t: nat, o: nat)
      requires Inv() && OrgOf(t, o) && forall x :: x in rules.g ==> x.dom != Domain(t, o)
      ensures forall u: nat, role: string, t': nat :: Grouping(User(u), role, Domain(t', o)) !in rules.g
    {
      forall u: nat, role: string, t': nat
        ensures Grouping(User(u), role, Domain(t', o)) !in rules.g
      {
        var x := Grouping(User(u), role, Domain(t', o));
        assert x.dom == Domain(t', o);
        assert t' != t ==> !OrgOf(t', o);
      }
    }

    /** All database writes of OrgDelete: five, in this order. */
    method DeleteOrgRows(t: nat, o: nat) returns (ok: bool)
      requires Inv() && OrgOf(t, o)
      modifies this`rules, this`departments, this`members, this`orgs, this`orgCache, this`budget
      ensures Inv()
      ensures ok <==> old(budget) >= 5
      ensures orgs == if ok then old(orgs) - {o} else old(orgs)
      ensures ok ==> Fresh(t, o) && o !in orgCache
      ensures forall dom: string :: dom != Domain(t, o) ==> AgreeOn(old(rules), rules, dom)
      ensures forall d :: d in old(departments) && old(departments)[d] != (t, o) ==>
                d in departments && departments[d] == old(departments)[d]
      ensures forall d :: d in departments ==> d in old(departments) && (ok ==> departments[d] != (t, o))
      ensures members == if old(budget) >= 4 then Without(old(members), o) else old(members)
    {
      ok := RemoveDomainTuples(t, o);
      if !ok {
        return;
      }
      if budget == 0 {
        return false;
      }
      budget := budget - 1;
      departments := map d | d in departments && departments[d] != (t, o) :: departments[d];
      DomainGone(t, o);
      ok := DeleteMembersOf(o);
      if ok {
        ok := DeleteOrgRow(o, t);
      }
    }

    method EvictMembers(o: nat, uids: seq<nat>)
      modifies this`memberCache
      ensures memberCache <= old(memberCache)
      ensures forall k :: k in old(memberCache) ==> (k in memberCache <==> !(k.0 == o && k.1 in uids))
    {
      for i := 0 to |uids|
        invariant memberCache <= old(memberCache)
        invariant forall k :: k in old(memberCache) ==> (k in memberCache <==> !(k.0 == o && k.1 in uids[..i]))
      {
        assert uids[..i + 1] == uids[..i] + [uids[i]];
        memberCache := memberCache - {(o, uids[i])};
      }
      assert uids[..|uids|] == uids;
    }

    /** OrgDelete past its check: the five writes, then the evictions. */
    method DeleteAndEvict(t: nat, o: nat) returns (ok: bool)
      requires Inv() && OrgOf(t, o)
      modifies this`orgs, this`orgCache, this`members, this`memberCache, this`rules, this`departments, this`budget
      ensures Inv()
      ensures ok <==> old(budget) >= 5
      ensures orgs == if ok then old(orgs) - {o} else old(orgs)
      ensures ok ==> Fresh(t, o) && o !in orgCache
      ensures members == if old(budget) >= 4 then Without(old(members), o) else old(members)
      ensures forall dom: string :: dom != Domain(t, o) ==> AgreeOn(old(rules), rules, dom)
      ensures forall d :: d in old(departments) && old(departments)[d] != (t, o) ==>
                d in departments && departments[d] == old(departments)[d]
      ensures ok ==> forall d :: d in departments ==> departments[d] != (t, o)
      ensures !ok ==> memberCache == old(memberCache)
      ensures ok ==> forall k :: k in memberCache <==> k in old(memberCache) && !(k.0 == o && k in old(members))
    {
      var uids := OrgMemberUIDs(o);
      assert forall k: (nat, nat) :: k in members && k.0 == o ==> k == (o, k.1) && k.1 in uids;
      ok := DeleteOrgRows(t, o);
      if ok {
        EvictMembers(o, uids);
      }
    }

    /**
     OrgDelete. Cut off anywhere it leaves nothing dangling. The member cache stays in agreement with the
     database unless exactly the last write fails: then the rows are gone but their cached answers stay.
     */
    method OrgDelete(t: nat, o: nat) returns (st: Status)
      requires Inv()
      modifies this`orgs, this`orgCache, this`members, this`memberCache, this`rules, this`departments, this`budget
      ensures Inv()
      ensures st == Status.Success <==> t != 0 && o != 0 && old(OrgOf(t, o)) && old(budget) >= 5
      ensures orgs == if st == Status.Success then old(orgs) - {o} else old(orgs)
      ensures st == Status.Success ==> Fresh(t, o) && o !in orgCache
      ensures members ==
              if t != 0 && o != 0 && old(OrgOf(t, o)) && old(budget) >= 4 then Without(old(members), o)
              else old(members)
      ensures st != Status.Success ==> memberCache == old(memberCache)
      ensures st == Status.Success ==>
                forall k :: k in memberCache <==> k in old(memberCache) && !(k.0 == o && k in old(members))
      ensures forall dom: string :: dom != Domain(t, o) ==> AgreeOn(old(rules), rules, dom)
      ensures forall d :: d in old(departments) && old(departments)[d] != (t, o) ==>
                d in departments && departments[d] == old(departments)[d]
      ensures st == Status.Success ==> forall d :: d in departments ==> departments[d] != (t, o)
      ensures old(MembersAgree()) ==>
                (MembersAgree() <==>
                 !(t != 0 && o != 0 && old(OrgOf(t, o)) && old(budget) == 4 && AnyCached(old(memberCache), o)))
    {
      st := RequireOrg(t, o);
      if st != Status.Success {
        return;
      }
      if MembersAgree() {
        DroppedRowsAgreeIff(memberCache, members, o);
      }
      var ok := DeleteAndEvict(t, o);
      st := if ok then Status.Success else ServiceError;
    }

    /** The failing case is within reach of any store with a member: ask once, then lose the last write. */
    method AskThenDelete(u: nat, t: nat, o: nat)
      requires Inv() && MembersAgree() && t > 0 && OrgOf(t, o) && (o, u) in members
      modifies this
      ensures Inv() && !MembersAgree()
      ensures (o, u) in memberCache && (o, u) !in members && orgs == old(orgs)
    {
      var st := UserInOrg(u, t, o);
      assert (o, u) in memberCache;
      Recover(4);
      st := OrgDelete(t, o);
    }

    // -------------------------------------------------------------- creating an organization

    method FilteredPolicy(dom: string) returns (list: seq<Policy>)
      ensures forall x :: x in list <==> x in rules.p && x.dom == dom
      ensures |list| <= |rules.p|
    {
      list := [];
      var todo := set x | x in rules.p && x.dom == dom;
      assert rules.p == todo + (rules.p - todo);
      while todo != {}
        invariant todo <= rules.p
        invariant forall x :: x in rules.p && x.dom == dom <==> x in todo || x in list
        invariant |list| + |todo| <= |rules.p|
        decreases |todo|
      {
        var x :| x in todo;
        list := list + [x];
        todo := todo - {x};
      }
    }

    method AddPolicyTuple(p: Policy, t: nat, o: nat) returns (ok: bool)
      requires Inv() && OrgOf(t, o) && p.dom == Domain(t, o)
      modifies this`rules, this`budget
      ensures Inv()
      ensures ok <==> old(budget) > 0
      ensures budget == if ok then old(budget) - 1 else 0
      ensures rules == if ok then old(rules).(p := old(rules).p + {p}) else old(rules)
    {
      if budget == 0 {
        return false;
      }
      budget := budget - 1;
      rules := rules.(p := rules.p + {p});
      forall t': nat, o': nat | Domain(t', o') == Domain(t, o)
        ensures t' == t && o' == o
      {
        DomainInjective(t', o', t, o);
      }
      return true;
    }

    /** CopyPolicies into an organization's domain, one tuple at a time. */
    method CopyPolicyTuples(source: string, t: nat, o: nat) returns (ok: bool)
      requires Inv() && OrgOf(t, o)
      modifies this`rules, this`budget
      ensures Inv() && rules.g == old(rules).g
      ensures ok ==> rules.p == old(rules).p + CopiedPolicies(old(rules).p, source, Domain(t, o))
      ensures old(rules).p <= rules.p <= old(rules).p + CopiedPolicies(old(rules).p, source, Domain(t, o))
      ensures old(budget) >= |old(rules).p| ==> ok
    {
      var target := Domain(t, o);
      if source == "" || target == "" || source == target {
        return true;
      }
      var policies := FilteredPolicy(source);
      ghost var all := CopiedPolicies(old(rules).p, source, target);
      for i := 0 to |policies|
        invariant Inv() && rules.g == old(rules).g && budget + i >= old(budget)
        invariant old(rules).p <= rules.p <= old(rules).p + all
        invariant forall j :: 0 <= j < i && Complete(policies[j]) ==>
                    Policy(policies[j].sub, target, policies[j].obj, policies[j].act) in rules.p
      {
        var x := policies[i];
        assert x in policies;
        if !Complete(x) {
          continue;
        }
        var added := AddPolicyTuple(Policy(x.sub, target, x.obj, x.act), t, o);
        if !added {
          return false;
        }
      }
      forall y | y in all
        ensures y in rules.p
      {
        var x :| x in old(rules).p && x.dom == source && Complete(x) && y == Policy(x.sub, target, x.obj, x.act);
        assert x in policies;
      }
      return true;
    }

    /** The domain of an id not given out yet has no tuples. */
    lemma NewIdsAreFresh()
      requires Inv()
      ensures forall t: nat, o: nat :: o > lastOrg ==> Fresh(t, o)
    {
    }

    /** The owner's membership and root role in a new organization. */
    method InstallOwner(o: nat, t: nat, owner: nat) returns (ok: bool)
      requires Inv() && OrgOf(t, o)
      modifies this`members, this`memberCache, this`rules, this`budget
      ensures Inv() && (old(MembersAgree()) ==> MembersAgree())
      ensures rules.p == old(rules).p
      ensures ok && owner > 0 ==> rules.g == old(rules).g + {Grouping(User(owner), ROOT, Domain(t, o))}
      ensures ok && owner == 0 ==> rules.g == old(rules).g
      ensures old(rules).g <= rules.g <= old(rules).g + {Grouping(User(owner), ROOT, Domain(t, o))}
      ensures forall k :: k in old(members) ==> k in members && members[k] == old(members)[k]
      ensures forall k :: k in members && k !in old(members) ==> k == (o, owner)
      ensures ok && owner > 0 ==> (o, owner) in members
      ensures t > 0 ==> (ok <==> owner == 0 || old(budget) >= 2)
      ensures budget + 2 >= old(budget)
    {
      if owner > 0 {
        ok := InsertMember(o, owner, t);
        if !ok {
          return;
        }
        ok := AddRoleForUser(owner, t, o, ROOT);
        return;
      }
      return true;
    }

    /** Where a new organization's policies come from: the tenant's lowest-id organization, or the legacy domain. */
    method SourceOfPolicies(t: nat) returns (source: string)
      requires Inv()
      ensures source == SourceDomain(orgs, t)
    {
      var existing := OrgListByTenant(t);
      source := LegacyDomain(t);
      for i := 0 to |existing|
        invariant source == LegacyDomain(t)
        invariant forall j :: 0 <= j < i ==> existing[j] == 0
      {
        if existing[i] > 0 {
          source := Domain(t, existing[i]);
          LowestFirst(orgs, t, existing, i);
          return;
        }
      }
      assert forall o :: o in existing ==> o == 0;
      assert (set o | o in orgs && orgs[o].tenant == t) == {};
    }

    /**
     OrgCreate. On success only the tenant's owner holds a role in the new domain; if the policy copy went
     through, every role has exactly the complete grants it has in the source domain. No other domain changes.
     */
    method OrgCreate(t: nat, name: string, tenantFound: bool, owner: nat) returns (st: Status, id: nat, copied: bool)
      requires Inv()
      modifies this`orgs, this`lastOrg, this`members, this`memberCache, this`rules, this`budget
      ensures Inv() && (old(MembersAgree()) ==> MembersAgree())
      ensures st == Status.Success ==> id !in old(orgs) && orgs == old(orgs)[id := Org(t, name)]
      ensures st != Status.Success ==> orgs == old(orgs) || (id !in old(orgs) && orgs == old(orgs)[id := Org(t, name)])
      ensures forall k :: k in old(members) ==> k in members && members[k] == old(members)[k]
      ensures forall k :: k in members && k !in old(members) ==> k == (id, owner)
      ensures st == Status.Success && owner > 0 ==> (id, owner) in members
      ensures forall dom: string :: dom != Domain(t, id) ==> AgreeOn(old(rules), rules, dom)
      ensures st == Status.Success ==> forall x: Grouping :: x.dom == Domain(t, id) ==>
                (x in rules.g <==> owner > 0 && x == Grouping(User(owner), ROOT, Domain(t, id)))
      ensures st == Status.Success && copied ==> forall sub: string, obj: string, act: string ::
                Policy(sub, Domain(t, id), obj, act) in rules.p <==>
                Policy(sub, SourceDomain(old(orgs), t), obj, act) in old(rules).p && sub != "" && obj != "" && act != ""
      ensures st == Status.Success <==>
                && t != 0 && name != "" && tenantFound && (forall o :: o in old(orgs) ==> old(orgs)[o] != Org(t, name))
                && old(budget) >= if owner > 0 then 3 else 1
      ensures st == Duplicate <==>
                t != 0 && name != "" && tenantFound && exists o :: o in old(orgs) && old(orgs)[o] == Org(t, name)
      ensures st != Status.Success && st != ServiceError ==>
                orgs == old(orgs) && members == old(members) && rules == old(rules)
      ensures st == Status.Success && old(budget) >= 3 + |old(rules).p| ==> copied
    {
      id, copied := 0, false;
      if t == 0 || name == "" {
        return Param, 0, false;
      }
      if !tenantFound {
        return NotFound, 0, false;
      }
      if Org(t, name) in orgs.Values {
        return Duplicate, 0, false;
      }
      var source := SourceOfPolicies(t);
      NewIdsAreFresh();
      id := InsertOrg(t, name);
      if id == 0 {
        return ServiceError, 0, false;
      }
      SourceDiffers(old(orgs), t, id);
      var ok: bool;
      ok, copied := PopulateOrg(t, id, owner, source);
      st := if ok then Status.Success else ServiceError;
    }

    /** Everything OrgCreate writes after the organization row. */
    method PopulateOrg(t: nat, o: nat, owner: nat, source: string) returns (ok: bool, copied: bool)
      requires Inv() && OrgOf(t, o) && Fresh(t, o) && source != "" && source != Domain(t, o)
      modifies this`members, this`memberCache, this`rules, this`budget
      ensures Inv() && (old(MembersAgree()) ==> MembersAgree())
      ensures forall k :: k in old(members) ==> k in members && members[k] == old(members)[k]
      ensures forall k :: k in members && k !in old(members) ==> k == (o, owner)
      ensures ok && owner > 0 ==> (o, owner) in members
      ensures forall dom: string :: dom != Domain(t, o) ==> AgreeOn(old(rules), rules, dom)
      ensures ok ==> forall x: Grouping :: x.dom == Domain(t, o) ==>
                (x in rules.g <==> owner > 0 && x == Grouping(User(owner), ROOT, Domain(t, o)))
      ensures ok && copied ==> forall sub: string, obj: string, act: string ::
                Policy(sub, Domain(t, o), obj, act) in rules.p <==>
                Policy(sub, source, obj, act) in old(rules).p && sub != "" && obj != "" && act != ""
      ensures t > 0 ==> (ok <==> owner == 0 || old(budget) >= 2)
      ensures ok && old(budget) >= 2 + |old(rules).p| ==> copied
    {
      copied := false;
      ok := InstallOwner(o, t, owner);
      if ok {
        copied := CopyPolicyTuples(source, t, o);
        NewDomainTuples(old(rules), rules, t, o, owner, source);
      }
      OnlyDomainChanged(old(rules), rules, t, o, owner, source);
    }

    // -------------------------------------------------------------- members and roles

    /**
     One round of AddRoleForUserInAllOrgs: the member row, then the role. The ghosts are the state it started from.
     */
    method JoinWithRole(u: nat, t: nat, o: nat, role: string, ghost r0: Rules, ghost m0: map<(nat, nat), nat>)
      returns (ok: bool)
      requires Inv() && OrgOf(t, o)
      requires OnlyRowsNew(orgs, m0, members, u, t) && OnlyRolesNew(r0, rules, u, t)
      modifies this`members, this`memberCache, this`rules, this`budget
      ensures Inv() && (old(MembersAgree()) ==> MembersAgree())
      ensures OnlyRowsNew(orgs, m0, members, u, t) && OnlyRolesNew(r0, rules, u, t)
      ensures ok <==> u > 0 && t > 0 && old(budget) >= 2
      ensures ok ==> (o, u) in members && Grouping(User(u), role, Domain(t, o)) in rules.g && budget == old(budget) - 2
      ensures old(members.Keys) <= members.Keys && old(rules.g) <= rules.g
    {
      ok := InsertMember(o, u, t);
      if ok {
        ok := AddRoleForUser(u, t, o, role);
      }
    }

    /** The member row always precedes the role, in every organization of the tenant. */
    method AddRoleForUserInAllOrgs(u: nat, t: nat, role: string) returns (st: Status)
      requires Inv()
      modifies this`members, this`memberCache, this`rules, this`budget
      ensures Inv() && (old(MembersAgree()) ==> MembersAgree())
      ensures st == Status.Success ==> forall o :: o in orgs && orgs[o].tenant == t ==>
                (o, u) in members && Grouping(User(u), role, Domain(t, o)) in rules.g
      ensures u > 0 && t > 0 && old(budget) >= 2 * |orgs| ==> st == Status.Success
      ensures OnlyRowsNew(orgs, old(members), members, u, t) && OnlyRolesNew(old(rules), rules, u, t)
    {
      var ids := OrgListByTenant(t);
      for i := 0 to |ids|
        invariant Inv() && (old(MembersAgree()) ==> MembersAgree())
        invariant OnlyRowsNew(orgs, old(members), members, u, t) && OnlyRolesNew(old(rules), rules, u, t)
        invariant budget + 2 * i == old(budget)
        invariant forall j :: 0 <= j < i ==>
                    (ids[j], u) in members && Grouping(User(u), role, Domain(t, ids[j])) in rules.g
      {
        assert ids[i] in ids;
        var ok := JoinWithRole(u, t, ids[i], role, old(rules), old(members));
        if !ok {
          return ServiceError;
        }
      }
      return Status.Success;
    }

    /** Take a user without a tenant, or find it there already. */
    method BindUser(u: nat, t: nat) returns (bound: bool)
      modifies this`users, this`budget
      ensures bound <==> u in old(users) && if old(users)[u] == 0 then old(budget) > 0 else old(users)[u] == t
      ensures bound ==> u in users && users[u] == t
      ensures users == old(users) || (u in old(users) && old(users)[u] == 0 && users == old(users)[u := t])
      ensures bound ==> budget == if old(users)[u] == 0 then old(budget) - 1 else old(budget)
      ensures budget <= old(budget) <= budget + 1
    {
      if u in users && users[u] == 0 {
        if budget == 0 {
          return false;
        }
        budget := budget - 1;
        users := users[u := t];
        return true;
      }
      return u in users && users[u] == t;
    }

    /** TenantUserAdd up to its department and disable extras: tenant, membership, then the roles. */
    method TenantUserAdd(u: nat, t: nat, o: nat, roles: seq<string>) returns (st: Status)
      requires Inv()
      modifies this`users, this`orgCache, this`members, this`memberCache, this`rules, this`budget
      ensures Inv() && (old(MembersAgree()) ==> MembersAgree())
      ensures st == Status.Success ==> OrgOf(t, o) && (o, u) in members && u in users && users[u] == t
      ensures st == Status.Success ==> forall role :: role in roles ==> Grouping(User(u), role, Domain(t, o)) in rules.g
      ensures st == Status.Success <==>
                && t != 0 && o != 0 && u != 0 && old(OrgOf(t, o)) && u in old(users) && old(users)[u] in {0, t}
                && old(budget) >= (if old(users)[u] == 0 then 2 else 1) + |roles|
      ensures OnlyRowsNew(orgs, old(members), members, u, t) && OnlyRolesNew(old(rules), rules, u, t)
      ensures users == old(users) || (u in old(users) && old(users)[u] == 0 && users == old(users)[u := t])
    {
      if o == 0 {
        return OrgRequired;
      }
      st := RequireOrg(t, o);
      if st != Status.Success {
        return;
      }
      var bound := BindUser(u, t);
      if !bound {
        return ServiceError;
      }
      st := Enroll(u, t, o, roles);
    }

    /** The membership, then the roles. */
    method Enroll(u: nat, t: nat, o: nat, roles: seq<string>) returns (st: Status)
      requires Inv()
      modifies this`orgCache, this`members, this`memberCache, this`rules, this`budget
      ensures Inv() && (old(MembersAgree()) ==> MembersAgree())
      ensures st == Status.Success ==> OrgOf(t, o) && (o, u) in members
      ensures st == Status.Success ==> forall role :: role in roles ==> Grouping(User(u), role, Domain(t, o)) in rules.g
      ensures st == Status.Success <==> t != 0 && o != 0 && u != 0 && OrgOf(t, o) && old(budget) >= 1 + |roles|
      ensures OnlyRowsNew(orgs, old(members), members, u, t) && OnlyRolesNew(old(rules), rules, u, t)
    {
      st := OrgAddMember(o, u, t);
      if st != Status.Success {
        return;
      }
      var ok := AddRoles(u, t, o, roles);
      st := if ok then Status.Success else ServiceError;
    }

    method AddRoles(u: nat, t: nat, o: nat, roles: seq<string>) returns (ok: bool)
      requires Inv() && OrgOf(t, o) && (o, u) in members
      modifies this`rules, this`budget
      ensures Inv() && OnlyRolesNew(old(rules), rules, u, t)
      ensures ok ==> forall role :: role in roles ==> Grouping(User(u), role, Domain(t, o)) in rules.g
      ensures o != 0 ==> (ok <==> old(budget) >= |roles|)
    {
      for i := 0 to |roles|
        invariant Inv() && OnlyRolesNew(old(rules), rules, u, t)
        invariant o != 0 ==> budget + i == old(budget)
        invariant forall j :: 0 <= j < i ==> Grouping(User(u), roles[j], Domain(t, o)) in rules.g
      {
        var added := AddRoleForUser(u, t, o, roles[i]);
        if !added {
          return false;
        }
      }
      return true;
    }

    /** One round of TenantUserDel. The ghosts are the state it started from. */
    method LeaveOne(u: nat, t: nat, o: nat, ghost r0: Rules, ghost m0: map<(nat, nat), nat>) returns (st: Status)
      requires Inv() && OrgOf(t, o) && u > 0 && t > 0
      requires OnlyRowsGone(orgs, m0, members, u, t) && OnlyRolesGone(r0, rules, u, t)
      modifies this`orgCache, this`members, this`memberCache, this`rules, this`budget
      ensures Inv() && (old(MembersAgree()) ==> MembersAgree())
      ensures OnlyRowsGone(orgs, m0, members, u, t) && OnlyRolesGone(r0, rules, u, t)
      ensures st == Status.Success <==> old(budget) >= 2
      ensures st == Status.Success ==> (o, u) !in members && budget == old(budget) - 2
      ensures members.Keys <= old(members.Keys)
    {
      st := OrgRemoveMember(o, u, t);
    }

    /** The loop of TenantUserDel: out of every organization of the tenant, or stuck at a failed write. */
    method LeaveAllOrgs(u: nat, t: nat) returns (ok: bool)
      requires Inv() && u > 0 && t > 0
      modifies this`orgCache, this`members, this`memberCache, this`rules, this`budget
      ensures Inv() && (old(MembersAgree()) ==> MembersAgree())
      ensures ok ==> forall o :: o in orgs && orgs[o].tenant == t ==> (o, u) !in members
      ensures OnlyRowsGone(orgs, old(members), members, u, t) && OnlyRolesGone(old(rules), rules, u, t)
      ensures old(budget) >= 2 * |orgs| ==> ok && budget + 2 * |orgs| >= old(budget)
    {
      var ids := OrgListByUser(u, t);
      for i := 0 to |ids|
        invariant Inv() && (old(MembersAgree()) ==> MembersAgree())
        invariant OnlyRowsGone(orgs, old(members), members, u, t) && OnlyRolesGone(old(rules), rules, u, t)
        invariant budget + 2 * i == old(budget)
        invariant forall j :: 0 <= j < i ==> (ids[j], u) !in members
      {
        assert ids[i] in ids;
        var st := LeaveOne(u, t, ids[i], old(rules), old(members));
        if st != Status.Success {
          return false;
        }
      }
      forall o | o in orgs && orgs[o].tenant == t
        ensures (o, u) !in members
      {
        assert (o, u) in old(members) ==> o in ids;
      }
      ok := true;
    }

    /** TenantUserDel leaves every organization of the tenant, roles first, before the user row goes. */
    method TenantUserDel(u: nat, t: nat) returns (st: Status)
      requires Inv()
      modifies this`users, this`orgCache, this`members, this`memberCache, this`rules, this`budget
      ensures Inv() && (old(MembersAgree()) ==> MembersAgree())
      ensures st == Status.Success ==> !(u in users && users[u] == t)
      ensures st == Status.Success ==> forall o :: o in orgs && orgs[o].tenant == t ==> (o, u) !in members
      ensures u > 0 && t > 0 && old(budget) > 2 * |orgs| ==> st == Status.Success
      ensures forall v :: v in users ==> v in old(users) && users[v] == old(users)[v]
      ensures forall v :: v in old(users) && (v != u || st != Status.Success) ==> v in users
      ensures u in old(users) && old(users)[u] != t ==> users == old(users)
      ensures OnlyRowsGone(orgs, old(members), members, u, t) && OnlyRolesGone(old(rules), rules, u, t)
    {
      if u == 0 || t == 0 {
        return ServiceError;
      }
      var ok := LeaveAllOrgs(u, t);
      if !ok || budget == 0 {
        return ServiceError;
      }
      budget := budget - 1;
      users := map v | v in users && !(v == u && users[v] == t) :: users[v];
      st := Status.Success;
    }

    /** TenantUserLeaveOrg without its department clean-up: the last organization left takes the user with it. */
    method TenantUserLeaveOrg(u: nat, t: nat, o: nat) returns (st: Status)
      requires Inv()
      modifies this`users, this`orgCache, this`members, this`memberCache, this`rules, this`budget
      ensures Inv() && (old(MembersAgree()) ==> MembersAgree())
      ensures st == Status.Success ==> (o, u) !in members
      ensures st == Status.Success && u in users && users[u] == t ==>
                exists k :: k in members && k.1 == u && members[k] == t
      ensures (exists k :: k in members && k.1 == u && members[k] == t) ==> users == old(users)
      ensures u > 0 && t > 0 && old(OrgOf(t, o)) && old(budget) > 2 * |orgs| + 2 ==> st == Status.Success
      ensures forall v :: v in users ==> v in old(users) && users[v] == old(users)[v]
      ensures forall v :: v in old(users) && v != u ==> v in users
      ensures u in old(users) && old(users)[u] != t ==> users == old(users)
      ensures OnlyRowsGone(orgs, old(members), members, u, t) && OnlyRolesGone(old(rules), rules, u, t)
    {
      if o == 0 {
        return OrgRequired;
      }
      st := OrgRemoveMember(o, u, t);
      if st != Status.Success {
        return;
      }
      if exists k :: k in members && k.1 == u && members[k] == t {
        return;
      }
      st := TenantUserDel(u, t);
      assert st == Status.Success ==> OrgOf(t, o);
    }

    // -------------------------------------------------------------- runs

    /** One call, of which the first `writes` writes succeed. */
    method Serve(c: Call, writes: nat)
      requires Inv()
      modifies this
      ensures Inv()
      ensures old(MembersAgree()) && !(c.DeleteOrg? && writes == 4) ==> MembersAgree()
    {
      Recover(writes);
      match c {
        case Create(t, name, found, owner) => var _, _, _ := OrgCreate(t, name, found, owner);
        case DeleteOrg(t, o) => var _ := OrgDelete(t, o);
        case AddMember(o, u, t) => var _ := OrgAddMember(o, u, t);
        case RemoveMember(o, u, t) => var _ := OrgRemoveMember(o, u, t);
        case AddRoleEverywhere(u, t, role) => var _ := AddRoleForUserInAllOrgs(u, t, role);
        case AddUser(u, t, o, roles) => var _ := TenantUserAdd(u, t, o, roles);
        case DeleteUser(u, t) => var _ := TenantUserDel(u, t);
        case LeaveOrg(u, t, o) => var _ := TenantUserLeaveOrg(u, t, o);
        case AskMember(u, t, o) => var _ := UserInOrg(u, t, o);
        case PassTime(keptOrgs, keptMembers) => Expire(keptOrgs, keptMembers);
      }
    }

    /**
     Any run of calls, each cut off after any number of writes, leaves nothing dangling and cached organizations
     correct.
     */
    method Run(calls: seq<(Call, nat)>)
      requires Inv()
      modifies this
      ensures Inv()
      ensures old(MembersAgree()) && NoLostLastWrite(calls) ==> MembersAgree()
    {
      for i := 0 to |calls|
        invariant Inv()
        invariant old(MembersAgree()) && NoLostLastWrite(calls) ==> MembersAgree()
      {
        Serve(calls[i].0, calls[i].1);
      }
    }
  }

  /**
   From an empty store: create an organization, ask for its owner's membership, lose the last write of its deletion.
   */
  method StaleMemberWitness(t: nat, name: string, owner: nat) returns (s: Store, o: nat)
    requires t > 0 && name != "" && owner > 0
    ensures s.Inv() && !s.MembersAgree() && (o, owner) in s.memberCache && (o, owner) !in s.members
  {
    s := new Store(map[], map[], 3);
    var st, id, copied := s.OrgCreate(t, name, true, owner);
    o := id;
    s.AskThenDelete(owner, t, o);
  }

  /** `r` grew out of `r0` by tuples of one domain. */
  ghost predicate GrownIn(r0: Rules, r: Rules, t: nat, o: nat, owner: nat, source: string)
  {
    && r0.p <= r.p <= r0.p + CopiedPolicies(r0.p, source, Domain(t, o))
    && r0.g <= r.g <= r0.g + {Grouping(User(owner), ROOT, Domain(t, o))}
  }

  lemma OnlyDomainChanged(r0: Rules, r: Rules, t: nat, o: nat, owner: nat, source: string)
    requires GrownIn(r0, r, t, o, owner, source)
    ensures forall dom: string :: dom != Domain(t, o) ==> AgreeOn(r0, r, dom)
  {
  }

  /** What a domain without tuples holds after the owner's role and the policies were added. */
  lemma NewDomainTuples(r0: Rules, r: Rules, t: nat, o: nat, owner: nat, source: string)
    requires forall p: Policy :: p in r0.p ==> p.dom != Domain(t, o)
    requires forall x: Grouping :: x in r0.g ==> x.dom != Domain(t, o)
    requires r.g == if owner > 0 then r0.g + {Grouping(User(owner), ROOT, Domain(t, o))} else r0.g
    requires source != "" && source != Domain(t, o)
    ensures forall x: Grouping :: x.dom == Domain(t, o) ==>
              (x in r.g <==> owner > 0 && x == Grouping(User(owner), ROOT, Domain(t, o)))
    ensures r.p == r0.p + CopiedPolicies(r0.p, source, Domain(t, o)) ==>
              forall sub: string, obj: string, act: string ::
                Policy(sub, Domain(t, o), obj, act) in r.p <==>
                Policy(sub, source, obj, act) in r0.p && sub != "" && obj != "" && act != ""
  {
    if r.p == r0.p + CopiedPolicies(r0.p, source, Domain(t, o)) {
      forall sub: string, obj: string, act: string
        ensures Policy(sub, Domain(t, o), obj, act) in r.p <==>
                Policy(sub, source, obj, act) in r0.p && sub != "" && obj != "" && act != ""
      {
        var x := Policy(sub, source, obj, act);
        assert x in r0.p && Complete(x) ==> Policy(x.sub, Domain(t, o), x.obj, x.act) in r.p;
      }
    }
  }

  /** The lowest organization id of a tenant decides the domain its policies are copied from. */
  ghost function SourceDomain(orgs: map<nat, Org>, t: nat): string
  {
    var mine := set o | o in orgs && orgs[o].tenant == t;
    if mine == {} then LegacyDomain(t) else Domain(t, Min(mine))
  }

  /** The source is another domain than a new organization's. */
  lemma SourceDiffers(orgs: map<nat, Org>, t: nat, o: nat)
    requires o !in orgs
    ensures SourceDomain(orgs, t) != "" && SourceDomain(orgs, t) != Domain(t, o)
  {
    var mine := set x | x in orgs && orgs[x].tenant == t;
    DomainNotLegacy(t, o, t);
    if mine != {} && Domain(t, Min(mine)) == Domain(t, o) {
      DomainInjective(t, Min(mine), t, o);
    }
  }

  /** Policies come from the tenant's organization with the lowest id, and from the legacy domain if it has none. */
  lemma SourceIsLowest(orgs: map<nat, Org>, t: nat, o: nat)
    ensures o in orgs && orgs[o].tenant == t && (forall x :: x in orgs && orgs[x].tenant == t ==> o <= x) ==>
              SourceDomain(orgs, t) == Domain(t, o)
    ensures (forall x :: x in orgs ==> orgs[x].tenant != t) ==> SourceDomain(orgs, t) == LegacyDomain(t)
  {
    var mine := set x | x in orgs && orgs[x].tenant == t;
    if o in mine && forall x :: x in mine ==> o <= x {
      assert Min(mine) == o;
    }
  }

  lemma LowestFirst(orgs: map<nat, Org>, t: nat, existing: seq<nat>, i: nat)
    requires Ascending(existing) && forall o :: o in existing <==> o in orgs && orgs[o].tenant == t
    requires i < |existing| && existing[i] > 0 && (forall j :: 0 <= j < i ==> existing[j] == 0)
    requires forall o :: o in orgs ==> o > 0
    ensures SourceDomain(orgs, t) == Domain(t, existing[i])
  {
    var mine := set o | o in orgs && orgs[o].tenant == t;
    assert existing[i] in existing && existing[i] in mine;
    var m := Min(mine);
    assert m in existing;
    var k :| 0 <= k < |existing| && existing[k] == m;
  }
}
