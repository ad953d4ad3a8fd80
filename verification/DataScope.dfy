/**
 Data scopes: which departments and users a caller may see. The paged, deduplicating loops are
 proved equal to the plain set definition.
 */
module DataScope {
  import opened Common
  import opened Access
  import Decimal

  const TWO64: nat := 0x1_0000_0000_0000_0000
  const PAGE_SIZE: nat := 200

  // ---------------------------------------------------------------- dynamic values

  /** The shapes a value of a user's or department's free-form map can have. */
  datatype Value =
    | Nil | Uint(n: nat) | Int(i: int) | Float(x: real) | Str(s: string)
    | Uints(us: seq<nat>) | Floats(xs: seq<real>) | List(items: seq<Value>) | Other

  predicate IsDigit(c: char)
  {
    '0' <= c <= '9'
  }

  /** `strconv.ParseUint(s, 10, 64)` */
  function ParseUint(s: string): Option<nat>
  {
    if s == "" || exists i :: 0 <= i < |s| && !IsDigit(s[i]) then None
    else
      var n := Decimal.Value(DigitsOf(s));
      if n < TWO64 then Some(n) else None
  }

  function AsUint64(v: Value): Option<nat>
  {
    match v
    case Uint(n) => Some(n)
    case Int(i) => if i < 0 then None else Some(i)
    case Float(x) => if x < 0.0 then None else Some(x.Floor)
    case Str(s) => ParseUint(s)
    case _ => None
  }

  predicate Usable(v: Value)
  {
    AsUint64(v).Some? && AsUint64(v).value > 0
  }

  /** The ids a stored value lists; what is not a positive number is skipped, except inside a plain []uint64. */
  ghost predicate Lists(v: Value, id: nat)
  {
    match v
    case Uints(us) => id in us
    case Floats(xs) => exists i :: 0 <= i < |xs| && xs[i] > 0.0 && xs[i].Floor == id
    case List(items) => exists i :: 0 <= i < |items| && Usable(items[i]) && AsUint64(items[i]).value == id
    case _ => Usable(v) && AsUint64(v).value == id
  }

  /** What a single value lists: a positive number, in whatever shape it comes; a decimal text only below 2^64. */
  lemma ListsOne(v: Value, id: nat)
    ensures v.Uint? ==> (Lists(v, id) <==> id > 0 && v.n == id)
    ensures v.Int? ==> (Lists(v, id) <==> id > 0 && v.i == id)
    ensures v.Float? ==> (Lists(v, id) <==> id > 0 && id as real <= v.x < (id + 1) as real)
    ensures v == Str(Dec(id)) ==> (Lists(v, id) <==> 0 < id < 0x1_0000_0000_0000_0000)
    ensures v.Str? && Lists(v, id) ==> v.s != "" && forall i :: 0 <= i < |v.s| ==> '0' <= v.s[i] <= '9'
    ensures v.Nil? || v.Other? ==> !Lists(v, id)
  {
    DecDigits(id);
    DecValue(id);
  }

  lemma {:induction false} DecDigits(n: nat)
    ensures Dec(n) != "" && forall i :: 0 <= i < |Dec(n)| ==> IsDigit(Dec(n)[i])
    decreases n
  {
    DecText(n);
    if n < 10 {
      assert IsDigit(('0' as int + n) as char);
    } else {
      DecDigits(n / 10);
      DecDigits(n % 10);
    }
  }

  /** A list is the sum of its entries; entries that are lists themselves count for nothing. */
  lemma ListsEach(items: seq<Value>, id: nat)
    ensures Lists(List(items), id) <==>
            exists i :: && 0 <= i < |items| && Lists(items[i], id)
                        && (items[i].Uint? || items[i].Int? || items[i].Float? || items[i].Str?)
  {
  }

  method ParseUint64Slice(v: Value) returns (out: seq<nat>)
    ensures forall id :: id in out <==> Lists(v, id)
  {
    out := [];
    if v.Uints? {
      out := v.us;
    } else if v.Floats? {
      var xs := v.xs;
      for i := 0 to |xs|
        invariant forall id :: id in out <==> exists j :: 0 <= j < i && xs[j] > 0.0 && xs[j].Floor == id
      {
        if xs[i] > 0.0 {
          out := out + [xs[i].Floor];
        }
      }
    } else if v.List? {
      var items := v.items;
      for i := 0 to |items|
        invariant forall id :: id in out <==>
                    exists j :: 0 <= j < i && Usable(items[j]) && AsUint64(items[j]).value == id
      {
        if Usable(items[i]) {
          out := out + [AsUint64(items[i]).value];
        }
      }
    } else if Usable(v) {
      out := [AsUint64(v).value];
    }
  }

  // ---------------------------------------------------------------- rows

  datatype User = UserRow(uid: nat, tenant: nat, deps: Value)
  datatype Department = Department(id: nat, leaders: Value)

  datatype Level = All | Dept | Self
  datatype Scope = Scope(level: Level, depIds: seq<nat>, uids: seq<nat>) | ParamError

  /** The plain definition: the caller's departments in this organization, and those the caller leads. */
  ghost predicate InScope(user: Option<User>, deps: seq<Department>, uid: nat, tenant: nat, id: nat)
  {
    && id != 0
    && ((user.Some? && user.value.tenant == tenant && Lists(user.value.deps, id) && exists d :: d in deps && d.id == id)
        || Leads(deps, uid, id))
  }

  ghost predicate Leads(deps: seq<Department>, uid: nat, id: nat)
  {
    exists d :: d in deps && d.id == id && Lists(d.leaders, uid)
  }

  /** Keep the first occurrence of each nonzero id. */
  method Add(ids: seq<nat>, id: nat) returns (out: seq<nat>)
    requires NoDuplicates(ids)
    ensures NoDuplicates(out)
    ensures forall x :: x in out <==> x in ids || (x == id && id != 0)
  {
    if id == 0 || id in ids {
      return ids;
    }
    return ids + [id];
  }

  method ResolveUserDeptIDs(user: Option<User>, deps: seq<Department>, uid: nat, tenant: nat) returns (ids: seq<nat>)
    ensures NoDuplicates(ids)
    ensures forall id :: id in ids <==> InScope(user, deps, uid, tenant, id)
  {
    ids := [];
    var orgDep := set i | 0 <= i < |deps| :: deps[i].id;
    assert forall id :: id in orgDep <==> exists d :: d in deps && d.id == id;
    if user.Some? && user.value.tenant == tenant {
      var own := ParseUint64Slice(user.value.deps);
      for i := 0 to |own|
        invariant NoDuplicates(ids)
        invariant forall id :: id in ids <==> id != 0 && id in own[..i] && id in orgDep
      {
        assert own[..i + 1] == own[..i] + [own[i]];
        if own[i] in orgDep {
          ids := Add(ids, own[i]);
        }
      }
      assert own[..|own|] == own;
    }
    ghost var mine := ids;
    for i := 0 to |deps|
      invariant NoDuplicates(ids)
      invariant forall id :: id in ids <==> id in mine || (id != 0 && Leads(deps[..i], uid, id))
    {
      assert deps[..i + 1] == deps[..i] + [deps[i]];
      var leaders := ParseUint64Slice(deps[i].leaders);
      LeadsOneMore(deps, i, uid);
      if uid in leaders {
        ids := Add(ids, deps[i].id);
      }
    }
    assert deps[..|deps|] == deps;
  }

  lemma LeadsOneMore(deps: seq<Department>, i: nat, uid: nat)
    requires i < |deps|
    ensures forall id: nat :: Leads(deps[..i + 1], uid, id) <==>
              Leads(deps[..i], uid, id) || (deps[i].id == id && Lists(deps[i].leaders, uid))
  {
    assert forall d :: d in deps[..i + 1] <==> d in deps[..i] || d == deps[i];
    forall id: nat
      ensures Leads(deps[..i + 1], uid, id) <==>
                Leads(deps[..i], uid, id) || (deps[i].id == id && Lists(deps[i].leaders, uid))
    {
      if Leads(deps[..i + 1], uid, id) {
        var d :| d in deps[..i + 1] && d.id == id && Lists(d.leaders, uid);
        assert d in deps[..i] || d == deps[i];
      }
      if Leads(deps[..i], uid, id) {
        var d :| d in deps[..i] && d.id == id && Lists(d.leaders, uid);
        assert d in deps[..i + 1];
      }
      assert deps[i] in deps[..i + 1];
    }
  }

  // ---------------------------------------------------------------- members

  ghost predicate Shares(u: User, deps: seq<nat>)
  {
    exists d :: d in deps && Lists(u.deps, d)
  }

  ghost predicate MemberOf(users: seq<User>, deps: seq<nat>, uid: nat)
  {
    exists u :: u in users && u.uid == uid && Shares(u, deps)
  }

  /** Does the user list one of these departments? */
  method SharesOne(u: User, deps: seq<nat>) returns (yes: bool)
    ensures yes <==> Shares(u, deps)
  {
    var own := ParseUint64Slice(u.deps);
    for i := 0 to |own|
      invariant forall j :: 0 <= j < i ==> own[j] !in deps
    {
      if own[i] in deps {
        assert own[i] in own;
        return true;
      }
    }
    assert forall d :: Lists(u.deps, d) ==> d in own;
    return false;
  }

  lemma MemberOneMore(users: seq<User>, i: nat, deps: seq<nat>)
    requires i < |users|
    ensures forall uid: nat :: MemberOf(users[..i + 1], deps, uid) <==>
              MemberOf(users[..i], deps, uid) || (users[i].uid == uid && Shares(users[i], deps))
  {
    assert forall u :: u in users[..i + 1] <==> u in users[..i] || u == users[i];
    forall uid: nat
      ensures MemberOf(users[..i + 1], deps, uid) <==>
                MemberOf(users[..i], deps, uid) || (users[i].uid == uid && Shares(users[i], deps))
    {
      if MemberOf(users[..i + 1], deps, uid) {
        var u :| u in users[..i + 1] && u.uid == uid && Shares(u, deps);
        assert u in users[..i] || u == users[i];
      }
      if MemberOf(users[..i], deps, uid) {
        var u :| u in users[..i] && u.uid == uid && Shares(u, deps);
        assert u in users[..i + 1];
      }
      assert users[i] in users[..i + 1];
    }
  }

  /** Some page shows this user with one of the departments. */
  ghost predicate FoundIn(pages: seq<seq<User>>, deps: seq<nat>, uid: nat)
  {
    exists n :: 0 <= n < |pages| && MemberOf(pages[n], deps, uid)
  }

  /** How many pages the loop asks for: up to the first short one. */
  function Asked(pages: seq<seq<User>>): (n: nat)
    ensures n <= |pages|
    ensures n < |pages| ==> n > 0 && |pages[n - 1]| < PAGE_SIZE
    ensures forall k :: 0 <= k < n - 1 ==> |pages[k]| >= PAGE_SIZE
    decreases |pages|
  {
    if pages == [] then 0
    else if |pages[0]| < PAGE_SIZE then 1
    else 1 + Asked(pages[1..])
  }

  lemma {:induction false} AskedAt(pages: seq<seq<User>>, n: nat)
    requires n < |pages| && forall k :: 0 <= k < n ==> |pages[k]| >= PAGE_SIZE
    ensures Asked(pages) > n && (|pages[n]| < PAGE_SIZE ==> Asked(pages) == n + 1)
    ensures |pages[n]| >= PAGE_SIZE && n == |pages| - 1 ==> Asked(pages) == |pages|
    decreases n
  {
    if n == 0 {
    } else {
      AskedAt(pages[1..], n - 1);
    }
  }

  lemma FoundOneMore(pages: seq<seq<User>>, n: nat, deps: seq<nat>)
    requires n < |pages|
    ensures forall uid: nat :: FoundIn(pages[..n + 1], deps, uid) <==>
              FoundIn(pages[..n], deps, uid) || MemberOf(pages[n], deps, uid)
  {
    forall uid: nat
      ensures FoundIn(pages[..n + 1], deps, uid) <==> FoundIn(pages[..n], deps, uid) || MemberOf(pages[n], deps, uid)
    {
      if FoundIn(pages[..n], deps, uid) {
        var m :| 0 <= m < n && MemberOf(pages[..n][m], deps, uid);
        assert pages[..n + 1][m] == pages[m];
      }
      assert pages[..n + 1][n] == pages[n];
    }
  }

  /** One page: whoever on it shares a department and is not listed yet. */
  method CollectPage(list: seq<User>, deps: seq<nat>, sofar: seq<nat>) returns (out: seq<nat>)
    requires NoDuplicates(sofar)
    ensures NoDuplicates(out)
    ensures forall uid :: uid in out <==> uid in sofar || MemberOf(list, deps, uid)
  {
    out := sofar;
    for i := 0 to |list|
      invariant NoDuplicates(out)
      invariant forall uid :: uid in out <==> uid in sofar || MemberOf(list[..i], deps, uid)
    {
      MemberOneMore(list, i, deps);
      var yes := SharesOne(list[i], deps);
      if yes && list[i].uid !in out {
        out := out + [list[i].uid];
      }
    }
    assert list[..|list|] == list;
  }

  /** `pages` are the answers of the page queries in turn, whatever they hold; later ones are empty. */
  method MemberUIDsInDeps(pages: seq<seq<User>>, deps: seq<nat>) returns (out: seq<nat>)
    ensures NoDuplicates(out)
    ensures forall uid :: uid in out <==> FoundIn(pages[..Asked(pages)], deps, uid)
  {
    out := [];
    if |deps| == 0 {
      return;
    }
    var n := 0;
    while n < |pages|
      invariant n <= |pages| && NoDuplicates(out)
      invariant forall k :: 0 <= k < n ==> |pages[k]| >= PAGE_SIZE
      invariant n > 0 ==> Asked(pages) >= n && (n == |pages| ==> Asked(pages) == n)
      invariant forall uid :: uid in out <==> FoundIn(pages[..n], deps, uid)
    {
      AskedAt(pages, n);
      FoundOneMore(pages, n, deps);
      out := CollectPage(pages[n], deps, out);
      if |pages[n]| < PAGE_SIZE {
        return;
      }
      n := n + 1;
    }
  }

  // ---------------------------------------------------------------- what unordered paging guarantees

  /** The n-th OFFSET/LIMIT window over `total` rows. */
  function Window(total: nat, n: nat): (len: nat)
    ensures len <= PAGE_SIZE
  {
    if total <= n * PAGE_SIZE then 0
    else if total <= (n + 1) * PAGE_SIZE then total - n * PAGE_SIZE
    else PAGE_SIZE
  }

  /**
   What the page queries may answer on a table that does not change meanwhile: without ORDER BY each window
   has the right size and holds different rows of the join, but windows need not fit together.
   */
  ghost predicate Legal(users: seq<User>, pages: seq<seq<User>>)
  {
    && |pages| == |users| / PAGE_SIZE + 1
    && forall n :: 0 <= n < |pages| ==>
         |pages[n]| == Window(|users|, n) && NoDuplicates(pages[n]) && forall u :: u in pages[n] ==> u in users
  }

  lemma LegalAsksAll(users: seq<User>, pages: seq<seq<User>>)
    requires Legal(users, pages)
    ensures Asked(pages) == |pages| && pages[..Asked(pages)] == pages
  {
    var last := |pages| - 1;
    assert last * PAGE_SIZE <= |users| < (last + 1) * PAGE_SIZE;
    forall n | 0 <= n < last
      ensures |pages[n]| == PAGE_SIZE
    {
      assert (n + 1) * PAGE_SIZE <= last * PAGE_SIZE;
    }
    AskedAt(pages, last);
  }

  /** Nobody is reported who is not a sharing member, however the pages overlap. */
  lemma PagingIsSound(users: seq<User>, pages: seq<seq<User>>, deps: seq<nat>, uid: nat)
    requires Legal(users, pages) && FoundIn(pages, deps, uid)
    ensures MemberOf(users, deps, uid)
  {
    var n :| 0 <= n < |pages| && MemberOf(pages[n], deps, uid);
    var u :| u in pages[n] && u.uid == uid && Shares(u, deps);
    assert u in users;
  }

  /** With a stable order the windows are slices of one listing and nobody is missed. */
  lemma StableOrderIsComplete(users: seq<User>, pages: seq<seq<User>>, deps: seq<nat>, uid: nat)
    requires |pages| == |users| / PAGE_SIZE + 1
    requires forall n :: 0 <= n < |pages| ==> pages[n] == Page(users, n + 1, PAGE_SIZE)
    ensures MemberOf(users, deps, uid) ==> FoundIn(pages, deps, uid)
  {
    if MemberOf(users, deps, uid) {
      var u :| u in users && u.uid == uid && Shares(u, deps);
      var j :| 0 <= j < |users| && users[j] == u;
      var n := j / PAGE_SIZE;
      assert n * PAGE_SIZE <= j < (n + 1) * PAGE_SIZE;
      OnPage(users, n, j);
      assert pages[n][j - n * PAGE_SIZE] == u;
      assert MemberOf(pages[n], deps, uid);
    }
  }

  /** Where the j-th row of a listing stands in its page. */
  lemma OnPage(users: seq<User>, n: nat, j: nat)
    requires n * PAGE_SIZE <= j < (n + 1) * PAGE_SIZE && j < |users|
    ensures var page := Page(users, n + 1, PAGE_SIZE);
            j - n * PAGE_SIZE < |page| && page[j - n * PAGE_SIZE] == users[j]
  {
    OffsetIs(n + 1, PAGE_SIZE);
  }

  ghost predicate DistinctUids(users: seq<User>)
  {
    forall i, j :: 0 <= i < j < |users| ==> users[i].uid != users[j].uid
  }

  /** Every legal paging reports this user. */
  ghost predicate AlwaysFound(users: seq<User>, deps: seq<nat>, uid: nat)
  {
    forall pages :: Legal(users, pages) ==> FoundIn(pages, deps, uid)
  }

  lemma {:induction false} AsSet(s: seq<User>)
    requires NoDuplicates(s)
    ensures |set u | u in s| == |s|
    decreases |s|
  {
    if s == [] {
    } else {
      var rest, last := s[..|s| - 1], s[|s| - 1];
      AsSet(rest);
      assert s == rest + [last];
      assert last !in rest;
      assert (set u | u in s) == (set u | u in rest) + {last};
    }
  }

  lemma FullPageHasAll(users: seq<User>, list: seq<User>)
    requires NoDuplicates(users) && NoDuplicates(list) && |list| == |users| && forall u :: u in list ==> u in users
    ensures forall u :: u in users ==> u in list
  {
    AsSet(users);
    AsSet(list);
    var a, b := set u | u in list, set u | u in users;
    assert a <= b;
    SameSize(a, b);
    forall u | u in users
      ensures u in list
    {
      assert u in b;
    }
  }

  lemma SameSize(a: set<User>, b: set<User>)
    requires a <= b && |a| == |b|
    ensures a == b
  {
    assert b == a + (b - a);
  }

  lemma OnePageIsComplete(users: seq<User>, deps: seq<nat>, uid: nat)
    requires DistinctUids(users) && |users| <= PAGE_SIZE && MemberOf(users, deps, uid)
    ensures AlwaysFound(users, deps, uid)
  {
    forall pages | Legal(users, pages)
      ensures FoundIn(pages, deps, uid)
    {
      assert |pages[0]| == Window(|users|, 0) == |users|;
      FullPageHasAll(users, pages[0]);
      assert MemberOf(pages[0], deps, uid);
    }
  }

  /** Pages that each leave out the same row. */
  ghost function PagesWithout(users: seq<User>, j: nat): (pages: seq<seq<User>>)
    requires j < |users| && |users| > PAGE_SIZE
    ensures |pages| == |users| / PAGE_SIZE + 1
    ensures forall n :: 0 <= n < |pages| ==> pages[n] == (users[..j] + users[j + 1..])[..Window(|users|, n)]
  {
    var rest := users[..j] + users[j + 1..];
    seq(|users| / PAGE_SIZE + 1, n requires n >= 0 => rest[..Window(|users|, n)])
  }

  lemma RestOf(users: seq<User>, j: nat)
    requires DistinctUids(users) && j < |users|
    ensures var rest := users[..j] + users[j + 1..];
            DistinctUids(rest) && (forall u :: u in rest ==> u in users && u.uid != users[j].uid)
  {
    var rest := users[..j] + users[j + 1..];
    forall a, b | 0 <= a < b < |rest|
      ensures rest[a].uid != rest[b].uid
    {
      var a', b' := if a < j then a else a + 1, if b < j then b else b + 1;
      assert rest[a] == users[a'] && rest[b] == users[b'] && a' < b';
    }
    forall u | u in rest
      ensures u in users && u.uid != users[j].uid
    {
      var i :| 0 <= i < |rest| && rest[i] == u;
      var i' := if i < j then i else i + 1;
      assert u == users[i'] && i' != j;
    }
  }

  lemma ManyPagesCanMiss(users: seq<User>, deps: seq<nat>, j: nat)
    requires DistinctUids(users) && j < |users| && |users| > PAGE_SIZE
    ensures var pages := PagesWithout(users, j); Legal(users, pages) && !FoundIn(pages, deps, users[j].uid)
  {
    var rest, pages := users[..j] + users[j + 1..], PagesWithout(users, j);
    RestOf(users, j);
    forall n | 0 <= n < |pages|
      ensures |pages[n]| == Window(|users|, n) && NoDuplicates(pages[n])
      ensures forall u :: u in pages[n] ==> u in rest
    {
      assert forall i :: 0 <= i < |pages[n]| ==> pages[n][i] == rest[i];
    }
  }

  /**
   The exact condition: a sharing member is reported whatever order the page queries use if and only if the
   organization's members fit on one page.
   */
  lemma AlwaysFoundIff(users: seq<User>, deps: seq<nat>, uid: nat)
    requires DistinctUids(users) && MemberOf(users, deps, uid)
    ensures AlwaysFound(users, deps, uid) <==> |users| <= PAGE_SIZE
  {
    if |users| <= PAGE_SIZE {
      OnePageIsComplete(users, deps, uid);
    } else {
      var u :| u in users && u.uid == uid && Shares(u, deps);
      var j :| 0 <= j < |users| && users[j] == u;
      ManyPagesCanMiss(users, deps, j);
    }
  }

  // ---------------------------------------------------------------- resolution

  function LevelName(level: Level): string
  {
    match level
    case All => "all"
    case Dept => "dept"
    case Self => "self"
  }

  function ScopeObject(mod: string, level: Level): string
  {
    "data-scope/" + (if mod == "" then "default" else mod) + "/" + LevelName(level)
  }

  /** The objects under which a module's two wider levels are granted. */
  lemma ScopeObjects(mod: string)
    ensures var scope := "data-scope/" + (if mod == "" then "default" else mod);
            ScopeObject(mod, All) == scope + "/all" && ScopeObject(mod, Dept) == scope + "/dept"
  {
    var scope := "data-scope/" + (if mod == "" then "default" else mod);
    assert ScopeObject(mod, All) == scope + "/" + "all" == scope + "/all";
    assert ScopeObject(mod, Dept) == scope + "/" + "dept" == scope + "/dept";
  }

  predicate Granted(rules: Rules, uid: nat, tenant: nat, org: nat, mod: string, level: Level)
  {
    Enforced(rules, Access.User(uid), Domain(tenant, org), ScopeObject(mod, level), "GET")
  }

  /** GetRoleForUserInDomain answers only for a user of that tenant. */
  predicate HoldsRoot(rules: Rules, user: Option<User>, uid: nat, tenant: nat, org: nat)
  {
    user.Some? && user.value.tenant == tenant && Grouping(Access.User(uid), ROOT, Domain(tenant, org)) in rules.g
  }

  /** resolveConfiguredLevel: the first granted level, self when there is none. */
  function ConfiguredLevel(rules: Rules, uid: nat, tenant: nat, org: nat, mod: string): Level
  {
    if Granted(rules, uid, tenant, org, mod, All) then All
    else if Granted(rules, uid, tenant, org, mod, Dept) then Dept
    else Self
  }

  /** ResolveDataScope's level: the root role first, the configuration otherwise. */
  function ResolvedLevel(rules: Rules, user: Option<User>, uid: nat, tenant: nat, org: nat, mod: string): Level
  {
    if HoldsRoot(rules, user, uid, tenant, org) then All else ConfiguredLevel(rules, uid, tenant, org, mod)
  }

  /** With or without the root shortcut the level is the same, for every caller and module. */
  lemma RootShortcutAgrees(rules: Rules, user: Option<User>, uid: nat, tenant: nat, org: nat, mod: string)
    ensures ResolvedLevel(rules, user, uid, tenant, org, mod) == ConfiguredLevel(rules, uid, tenant, org, mod)
  {
  }

  /**
   The whole answer: level by grants alone, departments by their plain definition, users by what the page
   queries showed; on legal pages no false user, and all of them when the members fit on one page.
   */
  method ResolveDataScope(rules: Rules, user: Option<User>, deps: seq<Department>, pages: seq<seq<User>>,
                          ghost users: seq<User>, uid: nat, tenant: nat, org: nat, mod: string) returns (r: Scope)
    ensures r == ParamError <==> uid == 0 || tenant == 0 || org == 0
    ensures r != ParamError ==>
              var scope := "data-scope/" + (if mod == "" then "default" else mod);
              var all := Enforced(rules, Access.User(uid), Domain(tenant, org), scope + "/all", "GET");
              var dept := Enforced(rules, Access.User(uid), Domain(tenant, org), scope + "/dept", "GET");
              (r.level == All <==> all) && (r.level == Dept <==> !all && dept)
    ensures r != ParamError && r.level == All ==> r.depIds == [] && r.uids == []
    ensures r != ParamError && r.level == Self ==> r.depIds == [] && r.uids == [uid]
    ensures r != ParamError && r.level == Dept ==>
              && NoDuplicates(r.depIds) && NoDuplicates(r.uids)
              && (forall id :: id in r.depIds <==> InScope(user, deps, uid, tenant, id))
              && (forall u :: u in r.uids <==> u == uid || FoundIn(pages[..Asked(pages)], r.depIds, u))
    ensures r != ParamError && r.level == Dept && Legal(users, pages) ==>
              && (forall u :: u in r.uids ==> u == uid || MemberOf(users, r.depIds, u))
              && (DistinctUids(users) && |users| <= PAGE_SIZE ==>
                  forall u :: u in r.uids <==> u == uid || MemberOf(users, r.depIds, u))
  {
    if uid == 0 || tenant == 0 || org == 0 {
      return ParamError;
    }
    RootShortcutAgrees(rules, user, uid, tenant, org, mod);
    ScopeObjects(mod);
    if HoldsRoot(rules, user, uid, tenant, org) {
      return Scope(All, [], []);
    }
    var level := ConfiguredLevel(rules, uid, tenant, org, mod);
    if level == All {
      return Scope(All, [], []);
    }
    if level == Self {
      return Scope(Self, [], [uid]);
    }
    var ids := ResolveUserDeptIDs(user, deps, uid, tenant);
    var members := MemberUIDsInDeps(pages, ids);
    if Legal(users, pages) {
      LegalMembers(users, pages, ids);
    }
    if uid !in members {
      members := members + [uid];
    }
    return Scope(Dept, ids, members);
  }

  lemma LegalMembers(users: seq<User>, pages: seq<seq<User>>, deps: seq<nat>)
    requires Legal(users, pages)
    ensures forall u :: FoundIn(pages[..Asked(pages)], deps, u) ==> MemberOf(users, deps, u)
    ensures DistinctUids(users) && |users| <= PAGE_SIZE ==>
              forall u :: MemberOf(users, deps, u) ==> FoundIn(pages[..Asked(pages)], deps, u)
  {
    LegalAsksAll(users, pages);
    forall u
      ensures FoundIn(pages, deps, u) ==> MemberOf(users, deps, u)
      ensures DistinctUids(users) && |users| <= PAGE_SIZE && MemberOf(users, deps, u) ==> FoundIn(pages, deps, u)
    {
      if FoundIn(pages, deps, u) {
        PagingIsSound(users, pages, deps, u);
      }
      if DistinctUids(users) && |users| <= PAGE_SIZE && MemberOf(users, deps, u) {
        OnePageIsComplete(users, deps, u);
      }
    }
  }
}
