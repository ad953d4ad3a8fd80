/**
 The tenant cache with operations run one at a time: whatever an operation does, and wherever it
 stops, every cached tenant is what TenantGetByID would return now, parent included.
 */
module TenantCache {
  import opened Forest
  import opened Closure
  import TenantTree
  import opened Common
  import opened TenantConfig
  import opened ConfigSize
  import opened Sets

  /** The columns of a tenants row that the services change. */
  datatype Data = Data(name: string, config: Config, updateTime: nat)

  /** A tenant as loaded: its row and the parent found by the depth-1 join. */
  datatype Tenant = Tenant(data: Data, parent: Id)

  datatype Status = Success | Refused | NotFound | Conflict | ServiceError

  /** `COALESCE(tp.ancestor_id, 0)` */
  function ParentId(rows: Rows, t: Id): Id
  {
    var ps := TenantTree.ParentRows(rows, t);
    if ps == {} then 0 else Min(ps)
  }

  /** The parent found by the join is the tenant's parent in the tree; a tenant without one has parent 0. */
  lemma ParentIdIsParent(s: TenantTree.State, root: Id, f: Forest, t: Id)
    requires TenantTree.Inv(s, root, f)
    ensures ParentId(s.rows, t) == ParentOf(f, t)
    ensures forall a: Id :: (a, t) in s.rows && s.rows[(a, t)] == 1 ==> ParentId(s.rows, t) == a
    ensures (forall a: Id :: (a, t) in s.rows ==> s.rows[(a, t)] != 1) ==> ParentId(s.rows, t) == 0
  {
    TenantTree.AllFound(s, root, f, t);
    assert forall a: Id :: a in TenantTree.ParentRows(s.rows, t) <==> (a, t) in s.rows && s.rows[(a, t)] == 1;
  }

  predicate SameIds(data: map<Id, Data>, tenants: set<Id>)
  {
    (forall t :: t in data ==> t in tenants) && forall t :: t in tenants ==> t in data
  }

  /** No row carries an update_time later than the clock's. */
  predicate Past(data: map<Id, Data>, clock: nat)
  {
    forall t :: t in data ==> data[t].updateTime <= clock
  }

  /** Every cached tenant is the row and the parent that the tables give. */
  ghost predicate AgreesWith(rows: Rows, data: map<Id, Data>, cache: map<Id, Tenant>)
  {
    forall t :: t in cache ==> t in data && cache[t] == Tenant(data[t], ParentId(rows, t))
  }

  /** Agreement survives any change that leaves the remaining entries' rows and parents alone. */
  lemma StillAgrees(s: TenantTree.State, f: Forest, data: map<Id, Data>, cache: map<Id, Tenant>,
                    s': TenantTree.State, g: Forest, data': map<Id, Data>, cache': map<Id, Tenant>, root: Id)
    requires TenantTree.Inv(s, root, f) && TenantTree.Inv(s', root, g) && AgreesWith(s.rows, data, cache)
    requires forall x :: x in cache' ==>
               && x in cache && cache'[x] == cache[x] && x in data' && (x in data ==> data'[x] == data[x])
               && ParentOf(f, x) == ParentOf(g, x)
    ensures AgreesWith(s'.rows, data', cache')
  {
    forall x | x in cache'
      ensures ParentId(s'.rows, x) == ParentId(s.rows, x)
    {
      SameParentId(s, f, s', g, root, x);
    }
  }

  /** The parent is a tenant of the session tenant's subtree, and no statement fails. */
  predicate Commits(s: TenantTree.State, root: Id, parent: Id, io: bool)
  {
    && io && (if parent > 0 then parent else root) in s.tenants
    && (parent > 0 ==> (root, parent) in s.rows)
  }

  lemma CreatedReachable(s: TenantTree.State, root: Id, parent: Id, io: bool, s': TenantTree.State)
    requires TenantTree.Reachable(s, root) && s' == TenantTree.Created(s, root, parent, io)
    ensures TenantTree.Reachable(s', root)
    ensures !Commits(s, root, parent, io) ==> s'.tenants == s.tenants && s'.rows == s.rows
  {
    TenantTree.ReachableStep(s, root, TenantTree.New(parent, io));
  }

  /** A new leaf, below the requested parent, changes no other tenant's row or parent. */
  lemma CreatedAgrees(s: TenantTree.State, data: map<Id, Data>, cache: map<Id, Tenant>, root: Id, parent: Id,
                      s': TenantTree.State, n: Id, data': map<Id, Data>, cache': map<Id, Tenant>)
    requires TenantTree.Reachable(s, root) && AgreesWith(s.rows, data, cache) && SameIds(data, s.tenants)
    requires Commits(s, root, parent, true) && s' == TenantTree.Created(s, root, parent, true)
    requires n == s.lastId + 1 && cache' == cache - {n} && n in data' && data' == data[n := data'[n]]
    ensures n !in data && SameIds(data', s'.tenants) && AgreesWith(s'.rows, data', cache')
    ensures ParentId(s'.rows, n) == if parent > 0 then parent else root
  {
    var f := TenantTree.ReachableInv(s, root);
    var p := if parent > 0 then parent else root;
    TenantTree.CreatedBelowParent(s, root, f, parent);
    LeafAgrees(s, f, data, cache, root, p, s', n, data', cache');
  }

  lemma LeafAgrees(s: TenantTree.State, f: Forest, data: map<Id, Data>, cache: map<Id, Tenant>, root: Id, p: Id,
                   s': TenantTree.State, n: Id, data': map<Id, Data>, cache': map<Id, Tenant>)
    requires TenantTree.Inv(s, root, f) && AgreesWith(s.rows, data, cache) && SameIds(data, s.tenants)
    requires n !in s.tenants && s'.tenants == s.tenants + {n}
    requires p in f.level && TenantTree.Inv(s', root, AddLeaf(f, p, n))
    requires cache' == cache - {n} && n in data' && data' == data[n := data'[n]]
    ensures n !in data && SameIds(data', s'.tenants) && AgreesWith(s'.rows, data', cache')
    ensures ParentId(s'.rows, n) == p
  {
    StillAgrees(s, f, data, cache, s', AddLeaf(f, p, n), data', cache', root);
    ParentIdIsParent(s', root, AddLeaf(f, p, n), n);
  }

  /** A move changes the parent of the moved tenant only. */
  lemma MovedAgrees(s: TenantTree.State, data: map<Id, Data>, cache: map<Id, Tenant>, root: Id, t: Id, p: Id)
    requires TenantTree.Reachable(s, root) && AgreesWith(s.rows, data, cache)
    ensures var s' := TenantTree.Moved(s, root, t, p);
            s'.tenants == s.tenants && TenantTree.Reachable(s', root) && AgreesWith(s'.rows, data, cache - {t} - {p})
  {
    TenantTree.ReachableStep(s, root, TenantTree.SetParent(t, p));
    var f := TenantTree.ReachableInv(s, root);
    MovedAgreesFor(s, f, data, cache, root, t, p);
  }

  lemma MovedAgreesFor(s: TenantTree.State, f: Forest, data: map<Id, Data>, cache: map<Id, Tenant>, root: Id, t: Id,
                       p: Id)
    requires TenantTree.Inv(s, root, f) && AgreesWith(s.rows, data, cache)
    ensures var s' := TenantTree.Moved(s, root, t, p); AgreesWith(s'.rows, data, cache - {t} - {p})
  {
    var g := TenantTree.SetParentKeeps(s, root, f, t, p);
    StillAgrees(s, f, data, cache, TenantTree.Moved(s, root, t, p), g, data, cache - {t} - {p}, root);
  }

  /** Once its children are moved, removing a tenant changes no other tenant's row or parent. */
  lemma RemovedAgrees(s: TenantTree.State, u: TenantTree.State, data: map<Id, Data>, cache: map<Id, Tenant>, root: Id,
                      t: Id)
    requires TenantTree.Reachable(s, root) && 0 < root && t in s.tenants && t != root && TenantTree.Vacates(s, root, t)
    requires u == TenantTree.MovedAll(s, root, TenantTree.Children(s, t))
    requires AgreesWith(u.rows, data, cache) && SameIds(data, u.tenants)
    ensures var s' := TenantTree.Removed(u, t);
            && TenantTree.Reachable(s', root) && SameIds(data - {t}, s'.tenants)
            && AgreesWith(s'.rows, data - {t}, cache - {t})
  {
    TenantTree.DeletedReachable(s, root, t);
    var h := ChildlessForest(s, root, t);
    RemovedAgreesFor(u, h, data, cache, root, t);
  }

  lemma ChildlessForest(s: TenantTree.State, root: Id, t: Id) returns (h: Forest)
    requires TenantTree.Reachable(s, root) && 0 < root && t in s.tenants && t != root && TenantTree.Vacates(s, root, t)
    ensures TenantTree.Inv(TenantTree.MovedAll(s, root, TenantTree.Children(s, t)), root, h)
    ensures forall x :: x in h.parent ==> h.parent[x] != t
  {
    var f := TenantTree.ReachableInv(s, root);
    TenantTree.ChildrenAreChildren(s, root, f, t);
    TenantTree.AcceptedChildren(s, root, f, t);
    h := f;
    if root in s.tenants {
      h := TenantTree.MovedAllKeeps(s, root, f, t, TenantTree.Children(s, t));
    }
  }

  lemma RemovedAgreesFor(u: TenantTree.State, h: Forest, data: map<Id, Data>, cache: map<Id, Tenant>, root: Id, t: Id)
    requires TenantTree.Inv(u, root, h) && (forall x :: x in h.parent ==> h.parent[x] != t)
    requires AgreesWith(u.rows, data, cache) && t != root
    ensures var s' := TenantTree.Removed(u, t); AgreesWith(s'.rows, data - {t}, cache - {t})
  {
    TenantTree.RemovedInv(u, root, h, t);
    StillAgrees(u, h, data, cache, TenantTree.Removed(u, t), RemoveLeaf(h, t), data - {t}, cache - {t}, root);
  }

  class Store {
    const root: Id
    var tree: TenantTree.State
    var data: map<Id, Data>
    var clock: nat
    var cache: map<Id, Tenant>      // live entries

    ghost predicate Valid()
      reads this`tree, this`data, this`clock
    {
      TenantTree.Reachable(tree, root) && SameIds(data, tree.tenants) && Past(data, clock)
    }

    /** What the database query returns for a tenant. */
    ghost function Stored(t: Id): Tenant
      reads this`tree, this`data
      requires t in data
    {
      Tenant(data[t], ParentId(tree.rows, t))
    }

    ghost predicate Agrees()
      reads this`tree, this`data, this`cache
    {
      AgreesWith(tree.rows, data, cache)
    }

    /** A process that starts on any reachable tables, with an empty cache. */
    constructor (root: Id, tree: TenantTree.State, data: map<Id, Data>, clock: nat)
      requires TenantTree.Reachable(tree, root) && SameIds(data, tree.tenants) && Past(data, clock)
      ensures Valid() && Agrees()
      ensures this.root == root && this.tree == tree && this.data == data && cache == map[]
    {
      this.root, this.tree, this.data, this.clock := root, tree, data, clock;
      cache := map[];
    }

    // -------------------------------------------------------------- reading

    /** getTenantByIDCached: cache first, then the database, filling the cache. */
    method Load(t: Id) returns (r: Option<Tenant>)
      requires Valid() && Agrees()
      modifies this`cache
      ensures Valid() && Agrees()
      ensures r == if t in data then Some(Stored(t)) else None
      ensures t in data ==> 0 < t && t in cache
      ensures forall x :: x in cache ==> x in old(cache) || x == t
    {
      if t in data {
        TenantTree.ReachableFound(tree, root, t);
      }
      if t == 0 {
        return None;
      }
      if t in cache {
        return Some(cache[t]);
      }
      ghost var f := TenantTree.ReachableInv(tree, root);
      TenantTree.AllFound(tree, root, f, t);
      if TenantTree.Found(tree, t) && t in data {
        cache := cache[t := Tenant(data[t], ParentId(tree.rows, t))];
        return Some(cache[t]);
      }
      return None;
    }

    method Evict(t: Id)
      modifies this`cache
      ensures cache == old(cache) - {t}
    {
      cache := cache - {t};
    }

    // -------------------------------------------------------------- configuration edits

    /** The configuration is replaced under a later update_time; the other columns stay. */
    static predicate Rewrote(was: Data, config: Config, now: Data)
    {
      now.name == was.name && now.config == config && now.updateTime > was.updateTime
    }

    /** dao.TenantUpdateConfiguration with the loaded tenant's update_time; `io` is false when the statement fails. */
    method UpdateConfiguration(t: Id, loaded: Data, io: bool) returns (st: Status)
      requires Valid()
      modifies this`data, this`clock
      ensures Valid()
      ensures st == Success <==> io && t in old(data) && old(data)[t].updateTime == loaded.updateTime
      ensures st == Conflict <==> io && t in old(data) && old(data)[t].updateTime != loaded.updateTime
      ensures st == NotFound <==> io && t !in old(data)
      ensures st != Success ==> data == old(data)
      ensures st == Success ==> data.Keys == old(data).Keys && Rewrote(old(data)[t], loaded.config, data[t])
      ensures forall x :: x in old(data) && x != t ==> x in data && data[x] == old(data)[x]
    {
      if !io {
        return ServiceError;
      }
      if t in data && data[t].updateTime == loaded.updateTime {
        clock := clock + 1;
        data := data[t := data[t].(config := loaded.config, updateTime := clock)];
        return Success;
      }
      return if t in data then Conflict else NotFound;
    }

    /** Every cached tenant but `t` agrees. */
    ghost predicate AgreesBut(t: Id)
      reads this`tree, this`data, this`cache
    {
      forall x :: x in cache && x != t ==> x in data && cache[x] == Stored(x)
    }

    /** The way out of every configuration edit: the guarded UPDATE, then the deferred eviction. */
    method WriteBack(t: Id, written: Data, io: bool) returns (st: Status)
      requires Valid() && AgreesBut(t)
      modifies this`data, this`clock, this`cache
      ensures Valid() && Agrees() && t !in cache
      ensures st == Success <==> io && t in old(data) && old(data)[t].updateTime == written.updateTime
      ensures st != Success ==> data == old(data)
      ensures st == Success ==> t in data && t in old(data) && Rewrote(old(data)[t], written.config, data[t])
      ensures forall x :: x in old(data) && x != t ==> x in data && data[x] == old(data)[x]
    {
      st := UpdateConfiguration(t, written, io);
      Evict(t);
    }

    /** TenantAddRole: load, append to the cached object's roles in place, write back, evict on every way out. */
    method AddRoleTo(t: Id, role: Role, io: bool) returns (st: Status)
      requires Valid() && Agrees()
      modifies this`data, this`clock, this`cache
      ensures Valid() && Agrees() && t !in cache
      ensures st == Success <==>
                && io && t in old(data) && |old(data)[t].config.roles| <= 100
                && forall j :: 0 <= j < |old(data)[t].config.roles| ==>
                     old(data)[t].config.roles[j].title != role.title &&
                     old(data)[t].config.roles[j].value != role.value
      ensures st == Success ==>
                && t in old(data) && t in data
                && Rewrote(old(data)[t], old(data)[t].config.(roles := old(data)[t].config.roles + [role]), data[t])
      ensures st == Success ==> Edited(old(data)[t].config, AddRole(role)) == Some(data[t].config)
      ensures st != Success ==> data == old(data)
      ensures forall x :: x in old(data) && x != t ==> x in data && data[x] == old(data)[x]
    {
      var loaded := Load(t);
      if loaded.None? {
        Evict(t);
        return NotFound;
      }
      var tenant := loaded.value;
      var roles := tenant.data.config.roles;
      var dup := HasDuplicate(roles, role);
      if |roles| > 100 || dup {
        Evict(t);
        return Refused;
      }
      AddRoleAppends(tenant.data.config, role);
      st := EditAndWrite(t, tenant, tenant.data.config.(roles := roles + [role]), io);
    }

    /** TenantDelRole: an unknown role is no error and no write, and the root role is never removed. */
    method DelRoleFrom(t: Id, value: string, io: bool) returns (st: Status)
      requires Valid() && Agrees()
      modifies this`data, this`clock, this`cache
      ensures Valid() && Agrees() && t !in cache
      ensures st == Success <==> value != "root" && t in old(data) && (io || !HasRole(old(data)[t].config, value))
      ensures st != Success ==> data == old(data)
      ensures st == Success && !HasRole(old(data)[t].config, value) ==> data == old(data)
      ensures st == Success && HasRole(old(data)[t].config, value) ==>
                t in data && RoleGone(old(data)[t], value, data[t])
      ensures forall x :: x in old(data) && x != t ==> x in data && data[x] == old(data)[x]
    {
      if value == "root" {
        Evict(t);
        return Refused;
      }
      var loaded := Load(t);
      if loaded.None? {
        Evict(t);
        return NotFound;
      }
      st := DropRole(t, loaded.value, value, io);
    }

    /** TenantDelRole past its checks. */
    method DropRole(t: Id, tenant: Tenant, value: string, io: bool) returns (st: Status)
      requires Valid() && Agrees() && t in data && tenant == Stored(t) && value != "root"
      modifies this`data, this`clock, this`cache
      ensures Valid() && Agrees() && t !in cache
      ensures st == Success <==> io || !HasRole(old(data)[t].config, value)
      ensures st != Success ==> data == old(data)
      ensures st == Success && !HasRole(old(data)[t].config, value) ==> data == old(data)
      ensures st == Success && HasRole(old(data)[t].config, value) ==>
                t in data && RoleGone(old(data)[t], value, data[t])
      ensures forall x :: x in old(data) && x != t ==> x in data && data[x] == old(data)[x]
    {
      var edited := RemoveRole(tenant.data.config, value);
      DelRoleDropsFirst(tenant.data.config, value);
      if edited.None? {
        Evict(t);
        return Success;
      }
      st := EditAndWrite(t, tenant, edited.value, io);
    }

    static ghost predicate HasRole(c: Config, value: string)
    {
      exists j :: 0 <= j < |c.roles| && c.roles[j].value == value
    }

    /** Only the first role with this value is gone; the row carries a later update_time. */
    static ghost predicate RoleGone(was: Data, value: string, now: Data)
    {
      FirstDropped(was.config.roles, value, now.config.roles) &&
      Rewrote(was, was.config.(roles := now.config.roles), now)
    }

    /** The cached object is the one edited; the guarded write and the eviction follow. */
    method EditAndWrite(t: Id, tenant: Tenant, config: Config, io: bool) returns (st: Status)
      requires Valid() && Agrees() && t in data && tenant == Stored(t)
      modifies this`data, this`clock, this`cache
      ensures Valid() && Agrees() && t !in cache
      ensures st == Success <==> io
      ensures st != Success ==> data == old(data)
      ensures st == Success ==> t in data && Rewrote(old(data)[t], config, data[t])
      ensures forall x :: x in old(data) && x != t ==> x in data && data[x] == old(data)[x]
    {
      var edited := tenant.data.(config := config);
      cache := cache[t := tenant.(data := edited)];
      st := WriteBack(t, edited, io);
    }

    /**
     TenantUpdateConfiguration. The keys arrive in any order; the size limit may stop the loop half way, with
     the cached object already changed, and the eviction still restores agreement.
     */
    method UpdateMore(t: Id, changes: map<string, Option<string>>, io: bool) returns (st: Status)
      requires Valid() && Agrees()
      modifies this`data, this`clock, this`cache
      ensures Valid() && Agrees() && t !in cache
      ensures io && t in old(data) && Acceptable(changes) && AllFit(old(data)[t].config.more, changes) ==> st == Success
      ensures st == Success ==>
                io && t in old(data) && Acceptable(changes) && SomeFit(old(data)[t].config.more, changes)
      ensures st == Success ==> 1 <= |changes| <= 100 && forall k :: k in changes ==> |k| <= 64
      ensures st == Success ==>
                && t in old(data) && t in data
                && Rewrote(old(data)[t], old(data)[t].config.(more := data[t].config.more), data[t])
                && Overwritten(old(data)[t].config.more, changes, data[t].config.more)
      ensures st == Success ==> Edited(old(data)[t].config, Update(changes)) == Some(data[t].config)
      ensures st != Success ==> data == old(data)
      ensures forall x :: x in old(data) && x != t ==> x in data && data[x] == old(data)[x]
    {
      if !Acceptable(changes) {
        Evict(t);
        return Refused;
      }
      var loaded := Load(t);
      if loaded.None? {
        Evict(t);
        return NotFound;
      }
      var tenant := loaded.value;
      var ok, more := EditInPlace(t, tenant, changes);
      assert AgreesBut(t);
      if !ok {
        Evict(t);
        return ServiceError;
      }
      var written := tenant.data.(config := tenant.data.config.(more := more));
      st := WriteBack(t, written, io);
    }

    /** The update loop works on the cached object itself, in whatever order the keys come. */
    method EditInPlace(t: Id, tenant: Tenant, changes: map<string, Option<string>>)
      returns (ok: bool, more: map<string, string>)
      modifies this`cache
      ensures forall x :: x in cache && x != t ==> x in old(cache) && cache[x] == old(cache)[x]
      ensures AllFit(tenant.data.config.more, changes) ==> ok
      ensures ok ==> SomeFit(tenant.data.config.more, changes) && more == Merged(tenant.data.config.more, changes)
    {
      ghost var base := tenant.data.config.more;
      ghost var order: seq<string> := [];
      more := tenant.data.config.more;
      var rest := changes.Keys;
      while rest != {}
        invariant rest <= changes.Keys && NoDuplicates(order)
        invariant forall k :: k in order <==> k in changes && k !in rest
        invariant forall x :: x in cache && x != t ==> x in old(cache) && cache[x] == old(cache)[x]
        invariant MergeInOrder(base, changes, order) == Some(more)
      {
        var k :| k in rest;
        assert (order + [k])[..|order|] == order;
        if AllFit(base, changes) {
          AllFitSucceeds(base, changes, order + [k]);
        }
        ok, more := EditKey(t, tenant, more, k, changes[k]);
        if !ok {
          return;
        }
        order := order + [k];
        rest := rest - {k};
      }
      SuccessFits(base, changes, order);
      OrderIrrelevant(base, changes, order);
      ok := true;
    }

    /** One round of the update loop. */
    method EditKey(t: Id, tenant: Tenant, more: map<string, string>, k: string, v: Option<string>)
      returns (ok: bool, out: map<string, string>)
      modifies this`cache
      ensures forall x :: x in cache && x != t ==> x in old(cache) && cache[x] == old(cache)[x]
      ensures if ok then SetKey(more, k, v) == Some(out) else SetKey(more, k, v) == None
      ensures !ok <==> v.Some? && |more| > 100
    {
      if v.Some? {
        if |more| > 100 {
          return false, more;
        }
        out := more[k := v.value];
      } else {
        out := more - {k};
      }
      cache := cache[t := tenant.(data := tenant.data.(config := tenant.data.config.(more := out)))];
      ok := true;
    }

    /** AdminTenantUpdateConfig: the whole configuration, guarded by the update_time the client sends. */
    method ReplaceConfig(t: Id, config: Config, version: nat, io: bool) returns (st: Status)
      requires Valid() && Agrees()
      modifies this`data, this`clock, this`cache
      ensures Valid() && Agrees() && t !in cache
      ensures st == Success <==> io && t in old(data) && old(data)[t].updateTime == version
      ensures st == Success ==> t in old(data) && t in data && Rewrote(old(data)[t], config, data[t])
      ensures st != Success ==> data == old(data)
      ensures forall x :: x in old(data) && x != t ==> x in data && data[x] == old(data)[x]
    {
      if t !in data {
        Evict(t);
        return NotFound;
      }
      var written := Data(data[t].name, config, version);
      st := WriteBack(t, written, io);
    }

    /** AdminTenantUpdate: the base columns. */
    method UpdateBaseColumns(t: Id, name: string, io: bool) returns (st: Status)
      requires Valid() && Agrees()
      modifies this`data, this`clock, this`cache
      ensures Valid() && Agrees() && t !in cache
      ensures st == Success <==> io && t in old(data)
      ensures st == Success ==> t in data && t in old(data) && data[t].name == name
                                && data[t].config == old(data)[t].config && data[t].updateTime > old(data)[t].updateTime
      ensures st != Success ==> data == old(data)
      ensures forall x :: x in old(data) && x != t ==> x in data && data[x] == old(data)[x]
    {
      if t !in data || !io {
        Evict(t);
        return if t in data then ServiceError else NotFound;
      }
      clock := clock + 1;
      data := data[t := data[t].(name := name, updateTime := clock)];
      Evict(t);
      return Success;
    }

    // -------------------------------------------------------------- the tree

    /** AdminTenantSetParent: only the moved tenant's parent changes, and its entry and the new parent's are evicted. */
    method SetParent(sess: Id, t: Id, p: Id) returns (st: TenantTree.SetParentResult)
      requires Valid() && Agrees()
      modifies this`tree, this`data, this`cache
      ensures Valid() && Agrees() && data == old(data)
      ensures tree == if sess == root then TenantTree.Moved(old(tree), root, t, p) else old(tree)
      ensures sess != root ==> st == TenantTree.NoAuth
      ensures sess == root ==> st == TenantTree.SetParentCheck(old(tree), root, t, p)
      ensures st == TenantTree.SetParentResult.Move ==> t !in cache
    {
      if sess != root {
        return TenantTree.NoAuth;
      }
      st := TenantTree.SetParentCheck(tree, root, t, p);
      if st == TenantTree.NoAuth || st == TenantTree.Param || st == TenantTree.Same || st == TenantTree.Root {
        return;
      }
      Move(t, p);
    }

    /** The move itself and the two evictions. */
    method Move(t: Id, p: Id)
      requires Valid() && Agrees()
      modifies this`tree, this`data, this`cache
      ensures Valid() && Agrees() && t !in cache && data == old(data)
      ensures tree == TenantTree.Moved(old(tree), root, t, p)
    {
      MovedAgrees(tree, data, cache, root, t, p);
      Install(TenantTree.Moved(tree, root, t, p), data, cache - {t} - {p});
    }

    /** Tables that are known to be sound and to agree with a cache. */
    method Install(tree': TenantTree.State, data': map<Id, Data>, cache': map<Id, Tenant>)
      requires TenantTree.Reachable(tree', root) && SameIds(data', tree'.tenants) && Past(data', clock)
      requires AgreesWith(tree'.rows, data', cache')
      modifies this`tree, this`data, this`cache
      ensures Valid() && Agrees()
      ensures tree == tree' && data == data' && cache == cache'
    {
      tree, data, cache := tree', data', cache';
    }

    /** AdminTenantNew: a new leaf below the requested parent or the root tenant, nobody else's parent touched. */
    method New(sess: Id, parent: Id, name: string, config: Config, io: bool) returns (id: Id)
      requires Valid() && Agrees() && root > 0
      modifies this`tree, this`data, this`clock, this`cache
      ensures Valid() && Agrees()
      ensures tree == if sess == root then TenantTree.Created(old(tree), root, parent, io) else old(tree)
      ensures id != 0 <==> sess == root && Commits(old(tree), root, parent, io)
      ensures id != 0 ==> ParentId(tree.rows, id) == if parent > 0 then parent else root
      ensures id != 0 ==> id == old(tree).lastId + 1 && id !in old(data)
      ensures data == if id != 0 then old(data)[id := Data(name, config, clock)] else old(data)
    {
      if sess != root {
        return 0;
      }
      var after := TenantTree.Created(tree, root, parent, io);
      CreatedReachable(tree, root, parent, io, after);
      if !Commits(tree, root, parent, io) {
        tree := after;
        return 0;
      }
      id := tree.lastId + 1;
      clock := clock + 1;
      var data', cache' := data[id := Data(name, config, clock)], cache - {id};
      CreatedAgrees(tree, data, cache, root, parent, after, id, data', cache');
      Install(after, data', cache');
    }

    /**
     AdminTenantDelete: `stop` children are moved before a failure, if there are more, and `io` is false when a
     later statement fails; each way out keeps agreement.
     */
    method Delete(sess: Id, t: Id, stop: nat, io: bool) returns (st: Status)
      requires Valid() && Agrees()
      modifies this`tree, this`data, this`cache
      ensures Valid() && Agrees()
      ensures st == Success <==>
                && sess == root && 0 < root && 0 < t && t != root && t in old(data) && io
                && |TenantTree.Children(old(tree), t)| <= stop && TenantTree.Vacates(old(tree), root, t)
      ensures st == Success ==>
                tree == TenantTree.Removed(TenantTree.MovedAll(old(tree), root, TenantTree.Children(old(tree), t)), t)
      ensures st == Success ==> data == old(data) - {t}
      ensures st != Success ==> data == old(data)
    {
      if sess != root || root == 0 || t == 0 || t == root {
        return Refused;
      }
      var loaded := Load(t);
      if loaded.None? {
        return NotFound;
      }
      ghost var s0 := tree;
      var ok := MoveChildren(t, stop);
      if !ok || !io {
        return ServiceError;
      }
      RemoveRecord(t, s0);
      st := Success;
    }

    /** The re-parenting loop; when it completes, nothing hangs below `t` any more. */
    method MoveChildren(t: Id, stop: nat) returns (ok: bool)
      requires Valid() && Agrees() && t in data && 0 < root && t != root
      modifies this`tree, this`data, this`cache
      ensures Valid() && Agrees() && data == old(data)
      ensures ok ==> tree == TenantTree.MovedAll(old(tree), root, TenantTree.Children(old(tree), t))
      ensures ok <==> |TenantTree.Children(old(tree), t)| <= stop && TenantTree.Vacates(old(tree), root, t)
    {
      var cs := TenantTree.Children(tree, t);
      for i := 0 to |cs|
        invariant Valid() && Agrees() && i <= stop && data == old(data)
        invariant tree == TenantTree.MovedAll(old(tree), root, cs[..i])
        invariant TenantTree.Accepted(old(tree), root, cs[..i]) == i
      {
        if i == stop {
          return false;
        }
        TenantTree.MovedAllNext(old(tree), root, cs, i);
        var r := SetParent(root, cs[i], root);
        if r != TenantTree.SetParentResult.Move && r != TenantTree.Unchanged {
          TenantTree.AcceptedStops(old(tree), root, cs, i);
          return false;
        }
        TenantTree.AcceptedNext(old(tree), root, cs, i);
      }
      assert cs[..|cs|] == cs;
      ok := true;
    }

    /** The final row deletion with its cascade, then the eviction. */
    method RemoveRecord(t: Id, ghost s0: TenantTree.State)
      requires Valid() && Agrees() && TenantTree.Reachable(s0, root) && 0 < root && t in s0.tenants && t != root
      requires TenantTree.Vacates(s0, root, t)
      requires tree == TenantTree.MovedAll(s0, root, TenantTree.Children(s0, t))
      modifies this`tree, this`data, this`cache
      ensures Valid() && Agrees() && t !in cache
      ensures tree == TenantTree.Removed(old(tree), t) && data == old(data) - {t}
    {
      RemovedAgrees(s0, tree, data, cache, root, t);
      Install(TenantTree.Removed(tree, t), data - {t}, cache - {t});
    }
  }

  method HasDuplicate(roles: seq<Role>, role: Role) returns (dup: bool)
    ensures dup <==> Duplicate(roles, role)
  {
    for i := 0 to |roles|
      invariant !Duplicate(roles[..i], role)
    {
      if roles[i].title == role.title || roles[i].value == role.value {
        return true;
      }
    }
    assert roles[..|roles|] == roles;
    return false;
  }

  /** Find the role, then close the gap it leaves. */
  method RemoveRole(c: Config, value: string) returns (r: Option<Config>)
    requires value != "root"
    ensures r == Edited(c, DelRole(value))
  {
    var i := 0;
    while i < |c.roles| && c.roles[i].value != value
      invariant i <= |c.roles|
      invariant forall j :: 0 <= j < i ==> c.roles[j].value != value
    {
      i := i + 1;
    }
    assert i == IndexOf(c.roles, value);
    r := if i == |c.roles| then None else Some(c.(roles := c.roles[..i] + c.roles[i + 1..]));
  }

  /** The parent the join finds depends on the forest's parent map only. */
  lemma SameParentId(s: TenantTree.State, f: Forest, s': TenantTree.State, g: Forest, root: Id, x: Id)
    requires TenantTree.Inv(s, root, f) && TenantTree.Inv(s', root, g) && ParentOf(f, x) == ParentOf(g, x)
    ensures ParentId(s'.rows, x) == ParentId(s.rows, x)
  {
    TenantTree.AllFound(s, root, f, x);
    TenantTree.AllFound(s', root, g, x);
    assert 0 !in f.level && 0 !in g.level;
  }
}
