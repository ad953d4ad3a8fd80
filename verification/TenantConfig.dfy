/**
 Tenant configurations: the edits the services make, and the compare-and-swap on update_time that
 keeps concurrent edits, even those computed from a stale cache, from losing each other.
 */
module TenantConfig {
  import opened Common

  datatype Role = Role(title: string, value: string)
  datatype Config = Config(roles: seq<Role>, more: map<string, string>)

  /** AddRole and DelRole, the key-value update (None deletes a key), and the administrator's replacement. */
  datatype Edit =
    | AddRole(role: Role) | DelRole(value: string)
    | Update(data: map<string, Option<string>>) | Replace(config: Config)

  predicate Duplicate(roles: seq<Role>, role: Role)
  {
    exists i :: 0 <= i < |roles| && (roles[i].title == role.title || roles[i].value == role.value)
  }

  /** The first role with this value, or the number of roles. */
  function IndexOf(roles: seq<Role>, value: string): (i: nat)
    ensures i <= |roles| && (i < |roles| ==> roles[i].value == value)
    ensures forall j :: 0 <= j < i ==> roles[j].value != value
  {
    if roles == [] || roles[0].value == value then 0 else 1 + IndexOf(roles[1..], value)
  }

  function Merged(more: map<string, string>, data: map<string, Option<string>>): map<string, string>
  {
    map k | k in more.Keys + data.Keys && !(k in data && data[k].None?) ::
      if k in data then data[k].value else more[k]
  }

  /** Without the keys still to be merged. */
  function Without<V>(data: map<string, V>, rest: set<string>): map<string, V>
  {
    map k | k in data && k !in rest :: data[k]
  }

  /** Merging one more key. */
  lemma MergeOne(more: map<string, string>, data: map<string, Option<string>>, rest: set<string>, k: string)
    requires k in data && k in rest
    ensures var m, n := Merged(more, Without(data, rest)), Merged(more, Without(data, rest - {k}));
            n == if data[k].Some? then m[k := data[k].value] else m - {k}
  {
  }

  lemma MergeAll(more: map<string, string>, data: map<string, Option<string>>)
    ensures Merged(more, Without(data, {})) == Merged(more, data) && Merged(more, Without(data, data.Keys)) == more
  {
    assert Without(data, {}) == data;
  }

  /** Between 1 and 100 keys of at most 64 bytes. */
  predicate Acceptable(data: map<string, Option<string>>)
  {
    0 < |data| <= 100 && forall k :: k in data ==> |k| <= 64
  }

  /** The configuration an edit writes, or None when it writes nothing. */
  function Edited(c: Config, e: Edit): Option<Config>
  {
    match e
    case AddRole(role) =>
      if |c.roles| > 100 || Duplicate(c.roles, role) then None else Some(c.(roles := c.roles + [role]))
    case DelRole(value) =>
      var i := IndexOf(c.roles, value);
      if value == "root" || i == |c.roles| then None else Some(c.(roles := c.roles[..i] + c.roles[i + 1..]))
    case Update(data) =>
      if Acceptable(data) then Some(c.(more := Merged(c.more, data))) else None
    case Replace(config) => Some(config)
  }

  /** A role that was added can be removed again, and the other way round the root role never can. */
  lemma AddThenDelete(c: Config, role: Role)
    requires Edited(c, AddRole(role)).Some? && role.value != "root"
    ensures Edited(Edited(c, AddRole(role)).value, DelRole(role.value)) == Some(c)
  {
    var d := Edited(c, AddRole(role)).value;
    var i := IndexOf(d.roles, role.value);
    assert d.roles[|c.roles|] == role;
    assert forall j :: 0 <= j < |c.roles| ==> d.roles[j] == c.roles[j] && c.roles[j].value != role.value;
    assert d.roles[..i] + d.roles[i + 1..] == c.roles;
  }

  /** Of the roles with this value the first is gone; the others keep their order. */
  ghost predicate FirstDropped(was: seq<Role>, value: string, now: seq<Role>)
  {
    exists i :: 0 <= i < |was| && was[i].value == value && DroppedAt(was, value, now, i)
  }

  ghost predicate DroppedAt(was: seq<Role>, value: string, now: seq<Role>, i: nat)
    requires i < |was|
  {
    && (forall j :: 0 <= j < i ==> was[j].value != value)
    && |now| == |was| - 1
    && (forall j :: 0 <= j < i ==> now[j] == was[j])
    && (forall j :: i <= j < |now| ==> now[j] == was[j + 1])
  }

  /** What deleting a role writes: nothing if no role has the value, else all roles but the first that has it. */
  lemma DelRoleDropsFirst(c: Config, value: string)
    requires value != "root"
    ensures Edited(c, DelRole(value)).None? <==> forall j :: 0 <= j < |c.roles| ==> c.roles[j].value != value
    ensures var r := Edited(c, DelRole(value));
            r.Some? ==> r.value.more == c.more && FirstDropped(c.roles, value, r.value.roles)
  {
    var i := IndexOf(c.roles, value);
    var r := Edited(c, DelRole(value));
    if r.Some? {
      assert DroppedAt(c.roles, value, r.value.roles, i);
    }
  }

  /** What adding a role writes: it comes last, unless there are more than 100 or one shares its title or value. */
  lemma AddRoleAppends(c: Config, role: Role)
    ensures var r := Edited(c, AddRole(role));
            && (r.Some? <==> |c.roles| <= 100 && forall j :: 0 <= j < |c.roles| ==>
                               c.roles[j].title != role.title && c.roles[j].value != role.value)
            && (r.Some? ==> r.value == Config(c.roles + [role], c.more))
  {
  }

  /** `m` is `more` with the given keys set, or deleted where None is given. */
  ghost predicate Overwritten(more: map<string, string>, data: map<string, Option<string>>, m: map<string, string>)
  {
    forall k: string ::
      && (k in m <==> if k in data then data[k].Some? else k in more)
      && (k in m ==> m[k] == if k in data then data[k].value else more[k])
  }

  /** What the key update writes: 1 to 100 keys of at most 64 bytes, each set or deleted, and nothing else. */
  lemma UpdateOverwrites(c: Config, data: map<string, Option<string>>)
    ensures var r := Edited(c, Update(data));
            && (r.Some? <==> 1 <= |data| <= 100 && forall k :: k in data ==> |k| <= 64)
            && (r.Some? ==> r.value.roles == c.roles && Overwritten(c.more, data, r.value.more))
  {
  }

  // ---------------------------------------------------------------- concurrent callers

  type Version = nat
  type Pid = nat

  datatype Row = Row(config: Config, version: Version)

  /** Where a caller of getTenantByIDCached is: past a cache miss, past its database read, or holding a snapshot. */
  datatype Caller = Missed | Fetched(row: Row) | Holding(row: Row)

  /**
   `row` is the tenant's row (None once deleted), `cached` the shared snapshot if any, `callers` where
   each caller is, `clock` the last update_time handed out, `log` the committed edits in order
   and `past` every configuration the row ever had, by version. `log` and `past` are read by no step.
   */
  datatype State = State(row: Option<Row>, cached: Option<Row>, callers: map<Pid, Caller>, clock: Version,
                         log: seq<Edit>, past: map<Version, Config>)

  /**
   Cache lookup, database read, cache fill, UPDATE and the deferred eviction are steps of their own, so
   a fill may come after another caller's eviction and a lookup between an UPDATE and its eviction.
   */
  datatype Action =
    | Look(pid: Pid)                          // a hit gives the cached snapshot, however old
    | ReadDb(pid: Pid)
    | Fill(pid: Pid)
    | Write(pid: Pid, edit: Edit)             // edit the snapshot, then UPDATE ... WHERE update_time = snapshot's
    | AdminWrite(version: Version, config: Config)      // AdminTenantUpdateConfig with the client's update_time
    | UpdateBase                              // name, type and info: a new update_time, same configuration
    | DeleteRow
    | Evict

  /** `UPDATE tenants SET configuration, update_time = NOW() WHERE update_time = version` */
  function Swap(s: State, version: Version, config: Config, edit: Edit): State
  {
    if s.row.Some? && s.row.value.version == version then
      var v := s.clock + 1;
      s.(row := Some(Row(config, v)), clock := v, log := s.log + [edit], past := s.past[v := config])
    else s
  }

  function Do(s: State, a: Action): State
  {
    match a
    case Look(pid) =>
      s.(callers := s.callers[pid := if s.cached.Some? then Holding(s.cached.value) else Missed])
    case ReadDb(pid) =>
      if pid in s.callers && s.callers[pid].Missed? && s.row.Some? then
        s.(callers := s.callers[pid := Fetched(s.row.value)])
      else s
    case Fill(pid) =>
      if pid in s.callers && s.callers[pid].Fetched? then
        var r := s.callers[pid].row;
        s.(cached := Some(r), callers := s.callers[pid := Holding(r)])
      else s
    case Write(pid, edit) =>
      if pid in s.callers && s.callers[pid].Holding? then
        var snap := s.callers[pid].row;
        (match Edited(snap.config, edit)
         case None => s
         case Some(c) => Swap(s, snap.version, c, edit))
      else s
    case AdminWrite(version, config) => Swap(s, version, config, Replace(config))
    case UpdateBase =>
      if s.row.Some? then
        var v := s.clock + 1;
        s.(row := Some(Row(s.row.value.config, v)), clock := v, past := s.past[v := s.row.value.config])
      else s
    case DeleteRow => s.(row := None)
    case Evict => s.(cached := None)
  }

  function Run(s: State, acts: seq<Action>): State
    decreases |acts|
  {
    if acts == [] then s else Do(Run(s, acts[..|acts| - 1]), acts[|acts| - 1])
  }

  predicate Initial(s: State)
  {
    && s.row.Some? && s.cached == None && s.callers == map[] && s.log == []
    && s.row.value.version == s.clock && s.past == map[s.clock := s.row.value.config]
  }

  /** The committed edits, applied one after the other to a starting configuration. */
  function Replay(c: Config, log: seq<Edit>): Option<Config>
    decreases |log|
  {
    if log == [] then Some(c)
    else
      match Replay(c, log[..|log| - 1])
      case None => None
      case Some(d) => Edited(d, log[|log| - 1])
  }

  /** A snapshot, however stale, is what the row held under that version. */
  predicate Genuine(s: State, r: Row)
  {
    r.version <= s.clock && r.version in s.past && s.past[r.version] == r.config
  }

  ghost predicate Inv(s: State, start: Config)
  {
    && (forall v :: v in s.past ==> v <= s.clock)
    && (s.row.Some? ==> Genuine(s, s.row.value))
    && (s.cached.Some? ==> Genuine(s, s.cached.value))
    && (forall pid :: pid in s.callers && !s.callers[pid].Missed? ==> Genuine(s, s.callers[pid].row))
    && Replay(start, s.log).Some?
    && (s.row.Some? ==> Replay(start, s.log) == Some(s.row.value.config))
  }

  /** A successful swap from a genuine snapshot extends the replayed history by exactly this edit. */
  lemma SwapKeeps(s: State, start: Config, snap: Row, c: Config, edit: Edit)
    requires Inv(s, start)
    requires s.row.Some? && s.row.value.version == snap.version ==> Edited(s.row.value.config, edit) == Some(c)
    ensures Inv(Swap(s, snap.version, c, edit), start)
  {
    var t := Swap(s, snap.version, c, edit);
    if s.row.Some? && s.row.value.version == snap.version {
      assert t.log[..|t.log| - 1] == s.log;
    }
  }

  lemma StepKeeps(s: State, start: Config, a: Action)
    requires Inv(s, start)
    ensures Inv(Do(s, a), start)
  {
    match a
    case Write(pid, edit) =>
      if pid in s.callers && s.callers[pid].Holding? {
        var snap := s.callers[pid].row;
        if Edited(snap.config, edit).Some? {
          SwapKeeps(s, start, snap, Edited(snap.config, edit).value, edit);
        }
      }
    case AdminWrite(version, config) =>
      SwapKeeps(s, start, Row(config, version), config, Replace(config));
    case _ =>
  }

  lemma {:induction false} RunKeeps(s: State, acts: seq<Action>)
    requires Initial(s)
    ensures Inv(Run(s, acts), s.row.value.config)
    decreases |acts|
  {
    if acts == [] {
    } else {
      RunKeeps(s, acts[..|acts| - 1]);
      StepKeeps(Run(s, acts[..|acts| - 1]), s.row.value.config, acts[|acts| - 1]);
    }
  }

  /** In every interleaving the configuration is the committed edits applied in commit order: none is lost. */
  lemma NoLostUpdate(s: State, acts: seq<Action>)
    requires Initial(s)
    ensures var e := Run(s, acts);
            && Replay(s.row.value.config, e.log).Some?
            && (e.row.Some? ==> Replay(s.row.value.config, e.log) == Some(e.row.value.config))
  {
    RunKeeps(s, acts);
  }

  /** A write commits exactly when its edit is permitted and its snapshot is the very row it replaces. */
  lemma CommitReplacesItsBase(s: State, acts: seq<Action>, pid: Pid, edit: Edit)
    requires Initial(s)
    ensures var u := Run(s, acts); var v := Do(u, Write(pid, edit));
            && (v != u <==> && pid in u.callers && u.callers[pid].Holding? && u.row == Some(u.callers[pid].row)
                            && Edited(u.callers[pid].row.config, edit).Some?)
            && (v != u ==>
                  && v.log == u.log + [edit]
                  && v.row.Some? && Some(v.row.value.config) == Edited(u.row.value.config, edit)
                  && v.row.value.version > u.row.value.version)
  {
    RunKeeps(s, acts);
  }

  /** The administrator's replacement commits exactly when the client sends the update_time the row still carries. */
  lemma ReplacementCommitsIff(s: State, acts: seq<Action>, version: Version, config: Config)
    requires Initial(s)
    ensures var u := Run(s, acts); var v := Do(u, AdminWrite(version, config));
            && (v != u <==> u.row.Some? && u.row.value.version == version)
            && (v != u ==>
                  && v.log == u.log + [Replace(config)]
                  && v.row.Some? && v.row.value.config == config && v.row.value.version > version)
  {
    RunKeeps(s, acts);
  }

  /** A change of the base columns keeps the configuration under a later version; a deletion leaves no row. */
  lemma OtherWriters(s: State, acts: seq<Action>)
    requires Initial(s)
    ensures var u := Run(s, acts); var v, w := Do(u, UpdateBase), Do(u, DeleteRow);
            && w.row == None && (u.row.None? ==> v == u)
            && (u.row.Some? ==> v.row.Some? && v.row.value.config == u.row.value.config
                                && v.row.value.version > u.row.value.version)
  {
    RunKeeps(s, acts);
  }

  /** Neither lets a snapshot from before commit any more. */
  lemma OtherWritersInvalidate(s: State, acts: seq<Action>, a: Action, pid: Pid, edit: Edit)
    requires Initial(s) && (a == UpdateBase || a == DeleteRow)
    ensures var v := Do(Run(s, acts), a); Do(v, Write(pid, edit)) == v
  {
    RunKeeps(s, acts);
    RunAppend(s, acts, a);
    CommitReplacesItsBase(s, acts + [a], pid, edit);
  }

  // ---------------------------------------------------------------- stale snapshots do occur

  /** Two callers miss and read; one commits and evicts before the other fills the cache with what it read. */
  function LateFill(p: Pid, q: Pid, edit: Edit): seq<Action>
  {
    [Look(p), ReadDb(p), Look(q), ReadDb(q), Fill(q), Write(q, edit), Evict, Fill(p)]
  }

  lemma RunAppend(s: State, acts: seq<Action>, a: Action)
    ensures Run(s, acts + [a]) == Do(Run(s, acts), a)
  {
    assert (acts + [a])[..|acts|] == acts;
  }

  /** A miss and the database read that follows it. */
  lemma MissAndRead(s: State, acts: seq<Action>, p: Pid)
    requires var u := Run(s, acts); u.cached == None && u.row.Some?
    ensures var u := Run(s, acts);
            Run(s, acts + [Look(p), ReadDb(p)]) == u.(callers := u.callers[p := Fetched(u.row.value)])
  {
    var u := Run(s, acts);
    RunAppend(s, acts, Look(p));
    RunAppend(s, acts + [Look(p)], ReadDb(p));
    assert acts + [Look(p)] + [ReadDb(p)] == acts + [Look(p), ReadDb(p)];
    assert u.callers[p := Missed][p := Fetched(u.row.value)] == u.callers[p := Fetched(u.row.value)];
  }

  lemma TwoSnapshots(s: State, p: Pid, q: Pid)
    requires Initial(s) && p != q
    ensures var u := Run(s, [] + [Look(p), ReadDb(p)] + [Look(q), ReadDb(q)]);
            && u.row == s.row && u.clock == s.clock && u.log == [] && u.cached == None
            && p in u.callers && u.callers[p] == Fetched(s.row.value)
            && q in u.callers && u.callers[q] == Fetched(s.row.value)
  {
    MissAndRead(s, [], p);
    MissAndRead(s, [] + [Look(p), ReadDb(p)], q);
  }

  /** From any initial row and for any edit that changes something, the cache ends up older than the row. */
  lemma StaleCacheOccurs(s: State, p: Pid, q: Pid, edit: Edit)
    requires Initial(s) && p != q && Edited(s.row.value.config, edit).Some?
    ensures var u := Run(s, LateFill(p, q, edit));
            && u.log == [edit] && u.row.Some? && Some(u.row.value.config) == Edited(s.row.value.config, edit)
            && u.cached == s.row && u.cached != u.row
  {
    var first := [] + [Look(p), ReadDb(p)] + [Look(q), ReadDb(q)];
    TwoSnapshots(s, p, q);
    RunAppend(s, first, Fill(q));
    RunAppend(s, first + [Fill(q)], Write(q, edit));
    RunAppend(s, first + [Fill(q)] + [Write(q, edit)], Evict);
    RunAppend(s, first + [Fill(q)] + [Write(q, edit)] + [Evict], Fill(p));
    assert LateFill(p, q, edit) == first + [Fill(q)] + [Write(q, edit)] + [Evict] + [Fill(p)];
  }

  /** A caller that hits a stale cache cannot commit anything: its write is refused, not lost. */
  lemma StaleHitIsRefused(s: State, acts: seq<Action>, pid: Pid, edit: Edit)
    requires Initial(s)
    requires StaleHit(Run(s, acts), Look(pid))
    ensures var u := Do(Run(s, acts), Look(pid)); Do(u, Write(pid, edit)) == u
  {
    RunAppend(s, acts, Look(pid));
    CommitReplacesItsBase(s, acts + [Look(pid)], pid, edit);
  }

  // ---------------------------------------------------------------- exactly when readers can meet a stale cache

  /** This lookup gets something else than the row. */
  predicate StaleHit(s: State, a: Action)
  {
    a.Look? && s.cached.Some? && s.cached != s.row
  }

  /** Some lookup of the run from `s` does. */
  predicate EverStale(s: State, acts: seq<Action>)
    decreases |acts|
  {
    acts != [] && (StaleHit(s, acts[0]) || EverStale(Do(s, acts[0]), acts[1..]))
  }

  predicate Reads(a: Action)
  {
    a.Look? || a.ReadDb? || a.Fill? || a.Evict?
  }

  /** Nobody writes. */
  ghost predicate OnlyReads(acts: seq<Action>)
  {
    forall i :: 0 <= i < |acts| ==> Reads(acts[i])
  }

  /** The cache holds the row or nothing, and whoever is about to fill it read that row. */
  ghost predicate Fresh(s: State)
  {
    && (s.cached.Some? ==> s.cached == s.row)
    && forall pid :: pid in s.callers && s.callers[pid].Fetched? ==> Some(s.callers[pid].row) == s.row
  }

  /** An eviction makes the state fresh exactly when no caller is about to fill the cache with something else. */
  lemma EvictionFreshensIff(s: State)
    ensures Fresh(Do(s, Evict)) <==>
            forall pid :: pid in s.callers && s.callers[pid].Fetched? ==> Some(s.callers[pid].row) == s.row
    ensures Do(s, Evict).cached == None && Do(s, Evict).row == s.row
  {
  }

  lemma {:induction false} FreshStays(s: State, acts: seq<Action>)
    requires Fresh(s) && OnlyReads(acts)
    ensures !EverStale(s, acts)
    decreases |acts|
  {
    if acts == [] {
    } else {
      assert Reads(acts[0]);
      FreshStays(Do(s, acts[0]), acts[1..]);
    }
  }

  lemma NotFreshIsStale(s: State) returns (acts: seq<Action>)
    requires !Fresh(s)
    ensures OnlyReads(acts) && EverStale(s, acts)
  {
    if s.cached.Some? && s.cached != s.row {
      acts := [Look(0)];
      assert StaleHit(s, acts[0]);
    } else {
      var pid :| pid in s.callers && s.callers[pid].Fetched? && Some(s.callers[pid].row) != s.row;
      acts := [Fill(pid), Look(pid)];
      assert StaleHit(Do(s, acts[0]), acts[1..][0]);
    }
  }

  /**
   The exact condition: until the next write, no lookup of any continuation gets anything but the row if and
   only if the cache is empty or holds the row, and no caller is about to fill it with something else.
   */
  lemma FreshIff(s: State)
    ensures Fresh(s) <==> forall acts :: OnlyReads(acts) ==> !EverStale(s, acts)
  {
    if Fresh(s) {
      forall acts | OnlyReads(acts)
        ensures !EverStale(s, acts)
      {
        FreshStays(s, acts);
      }
    } else {
      var acts := NotFreshIsStale(s);
    }
  }
}
